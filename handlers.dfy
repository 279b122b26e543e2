/**
 * The book-info collector and the two click handlers. Everything the browser
 * supplies is an input: the answers to the title query, the intro sections,
 * the cover image's `src`, and the outcomes of `fetch`, `blob()` and the
 * clipboard writes. Each handler runs to completion without interleaving
 * and leaves the button group showing one status message.
 */
module Handlers {
  import opened Wrappers
  import opened TextCleanup
  import opened Extraction
  import opened Polling
  import opened StatusArea

  const TitleSelector := "#wrapper h1 span"

  // ---------------------------------------------------------------------------
  // Decimal rendering of the HTTP status in a template literal
  // ---------------------------------------------------------------------------

  function DigitChar(d: nat): (c: char)
    requires d < 10
    ensures IsAsciiDigit(c) && c as int - '0' as int == d
  {
    ('0' as int + d) as char
  }

  /** `String(n)` for a non-negative integer: its decimal digits, without leading zeros. */
  function NatToString(n: nat): (s: string)
    ensures |s| >= 1
    ensures forall i :: 0 <= i < |s| ==> IsAsciiDigit(s[i])
    ensures s[0] == '0' ==> n == 0
  {
    if n < 10 then [DigitChar(n)]
    else NatToString(n / 10) + [DigitChar(n % 10)]
  }

  /** The number a string of decimal digits denotes. */
  function DigitsValue(s: string): nat
    requires forall i :: 0 <= i < |s| ==> IsAsciiDigit(s[i])
  {
    if s == [] then 0
    else
      assert IsAsciiDigit(s[|s| - 1]);
      DigitsValue(s[..|s| - 1]) * 10 + (s[|s| - 1] as int - '0' as int)
  }

  /** Reading the rendered status back gives the status. */
  lemma {:induction false} NatToStringRoundTrip(n: nat)
    ensures DigitsValue(NatToString(n)) == n
  {
    if n >= 10 {
      NatToStringRoundTrip(n / 10);
      var s := NatToString(n);
      assert s[..|s| - 1] == NatToString(n / 10);
    }
  }

  /** How many digits a status has, and which digit leads. */
  lemma {:induction false} NatToStringLength(n: nat)
    ensures n < 10 ==> |NatToString(n)| == 1
    ensures 10 <= n < 100 ==> |NatToString(n)| == 2 && NatToString(n)[0] == DigitChar(n / 10)
    ensures 100 <= n < 1000 ==> |NatToString(n)| == 3 && NatToString(n)[0] == DigitChar(n / 100)
    ensures n >= 1000 ==> |NatToString(n)| >= 4
  {
    if n >= 10 {
      NatToStringLength(n / 10);
      assert n / 10 / 10 == n / 100;
    }
  }

  // ---------------------------------------------------------------------------
  // getBookInfo
  // ---------------------------------------------------------------------------

  /** The book the page shows: the title element's text once found, cleaned, with the description. */
  function FoundBook(titlePoll: nat -> Option<string>, intros: seq<Section>): (r: Option<BookInfo>)
    ensures r.None? <==> forall i :: 0 <= i <= DefaultMaxRetries ==> titlePoll(i).None?
    ensures r.Some? ==> '\n' !in r.value.title && r.value.desc == Description(intros)
  {
    match PollResult(titlePoll, DefaultMaxRetries)
    case Some(t) => Some(BookInfoOf(t, intros))
    case None => None
  }

  /** The error shown when the title never appears. */
  function LoadFailedText(): (r: string)
    ensures "内容加载失败: " <= r
    ensures |r| >= 11 + |TitleSelector| && r[11..11 + |TitleSelector|] == TitleSelector
  {
    var r := "内容加载失败: " + NotFoundMessage(TitleSelector);
    assert r[11..11 + |TitleSelector|] == TitleSelector;
    r
  }

  /**
   * Waits for the title (up to four queries) and assembles the book. When
   * the title never appears it shows the load error and yields nothing;
   * otherwise the status area is untouched.
   */
  method GetBookInfo(g: ButtonGroup, titlePoll: nat -> Option<string>, intros: seq<Section>)
    returns (info: Option<BookInfo>)
    requires g.Valid()
    modifies g
    ensures g.Valid()
    ensures info == FoundBook(titlePoll, intros)
    ensures info.Some? ==> g.children == old(g.children) && g.nextId == old(g.nextId)
    ensures info.None? ==>
      && g.nextId == old(g.nextId) + 1
      && g.children == Controls(old(g.children)) + [Message(old(g.nextId), Error, LoadFailedText(), true)]
  {
    var found, _ := WaitForElement(TitleSelector, titlePoll, DefaultMaxRetries);
    match found
    case Ok(titleText) =>
      info := Some(BookInfoOf(titleText, intros));
    case Err(message) =>
      var _ := g.ShowMessage(Error, "内容加载失败: " + message);
      info := None;
  }

  // ---------------------------------------------------------------------------
  // The two click handlers
  // ---------------------------------------------------------------------------

  /** The group holds its buttons and, as its only message, one auto-removed message `id`. */
  ghost predicate ShowsOnly(before: seq<Node>, after: seq<Node>, id: nat, kind: Kind, text: string)
  {
    after == Controls(before) + [Message(id, kind, text, true)]
  }

  lemma ShowsOnlyOneMessage(before: seq<Node>, after: seq<Node>, id: nat, kind: Kind, text: string)
    requires ShowsOnly(before, after, id, kind, text)
    ensures Messages(after) == [Message(id, kind, text, true)]
    ensures Controls(after) == Controls(before)
  {
    AppendedMessageIsOnly(before, Message(id, kind, text, true));
  }

  /** Removing a message other than the one shown leaves the group as it is. */
  lemma WithoutOther(cs: seq<Node>, m: Node, id: nat)
    requires m.Message? && m.id != id
    ensures Without(Controls(cs) + [m], id) == Controls(cs) + [m]
  {
    var c := Controls(cs);
    assert forall i :: 0 <= i < |c| ==> (c + [m])[i] == c[i];
    WithoutAbsent(c + [m], id);
  }

  const FetchingInfo := "正在获取图书信息..."
  const TextCopied := "文本复制成功！"
  const TextCopyFailed := "文本复制失败"

  /**
   * The end of an action that showed the loading message `loading`: removes
   * it explicitly when `dropLoading` holds, then shows the outcome, which
   * displaces it in any case.
   */
  method Settle(g: ButtonGroup, ghost before: seq<Node>, loading: nat, ghost loadingText: string,
                dropLoading: bool, kind: Kind, text: string)
    requires g.Valid() && kind != Loading
    requires g.nextId == loading + 1
    requires g.children == Controls(before) + [Message(loading, Loading, loadingText, false)]
    modifies g
    ensures g.Valid()
    ensures g.nextId == loading + 2
    ensures ShowsOnly(before, g.children, loading + 1, kind, text)
  {
    ControlsHaveNoMessages(before);
    if dropLoading {
      WithoutAppended(before, Message(loading, Loading, loadingText, false));
      g.RemoveMessage(loading);
    }
    var _ := g.ShowMessage(kind, text);
  }

  /**
   * The text action's first half: collects the book while the loading
   * message `loading` is shown, then removes that message (a no-op when the
   * load error has already displaced it).
   */
  method CollectBook(g: ButtonGroup, ghost before: seq<Node>, loading: nat,
                     titlePoll: nat -> Option<string>, intros: seq<Section>)
    returns (info: Option<BookInfo>)
    requires g.Valid()
    requires g.nextId == loading + 1
    requires g.children == Controls(before) + [Message(loading, Loading, FetchingInfo, false)]
    modifies g
    ensures g.Valid()
    ensures info == FoundBook(titlePoll, intros)
    ensures info.Some? ==> g.children == Controls(before) && Controls(g.children) == g.children && g.nextId == loading + 1
    ensures info.None? ==> ShowsOnly(before, g.children, loading + 1, Error, LoadFailedText()) && g.nextId == loading + 2
  {
    AppendedMessageIsOnly(before, Message(loading, Loading, FetchingInfo, false));
    ControlsHaveNoMessages(before);
    info := GetBookInfo(g, titlePoll, intros);
    if info.None? {
      WithoutOther(before, Message(loading + 1, Error, LoadFailedText(), true), loading);
    } else {
      WithoutAppended(before, Message(loading, Loading, FetchingInfo, false));
    }
    g.RemoveMessage(loading);
  }

  /** Shows the text action's loading message, then collects the book. */
  method StartAndCollect(g: ButtonGroup, titlePoll: nat -> Option<string>, intros: seq<Section>)
    returns (info: Option<BookInfo>)
    requires g.Valid()
    modifies g
    ensures g.Valid()
    ensures info == FoundBook(titlePoll, intros)
    ensures info.Some? ==>
      && g.children == Controls(old(g.children)) && Controls(g.children) == g.children
      && g.nextId == old(g.nextId) + 1
    ensures info.None? ==>
      && ShowsOnly(old(g.children), g.children, old(g.nextId) + 1, Error, LoadFailedText())
      && g.nextId == old(g.nextId) + 2
  {
    ghost var before := g.children;
    var loading := g.ShowMessage(Loading, FetchingInfo);
    info := CollectBook(g, before, loading, titlePoll, intros);
  }

  /** The text action's second half: reports how the clipboard write went, once the loading message is gone. */
  method ReportWrite(g: ButtonGroup, ghost before: seq<Node>, writeOk: bool)
    requires g.Valid()
    requires g.children == Controls(before) && Controls(g.children) == g.children
    modifies g
    ensures g.Valid()
    ensures g.nextId == old(g.nextId) + 1
    ensures writeOk ==> ShowsOnly(before, g.children, old(g.nextId), Success, TextCopied)
    ensures !writeOk ==> ShowsOnly(before, g.children, old(g.nextId), Error, TextCopyFailed)
  {
    if writeOk {
      var _ := g.ShowMessage(Success, TextCopied);
    } else {
      var _ := g.ShowMessage(Error, TextCopyFailed);
    }
  }

  /**
   * The text button: shows a loading message, collects the book, removes the
   * loading message, then writes `ClipboardText` and reports the outcome.
   * `writeOk` is whether the clipboard write succeeds. The returned text is
   * what was handed to the clipboard, if anything.
   */
  method CopyText(g: ButtonGroup, titlePoll: nat -> Option<string>, intros: seq<Section>, writeOk: bool)
    returns (written: Option<string>)
    requires g.Valid()
    modifies g
    ensures g.Valid()
    ensures g.nextId == old(g.nextId) + 2
    ensures written.Some? <==> FoundBook(titlePoll, intros).Some?
    ensures written.Some? ==> written.value == ClipboardText(FoundBook(titlePoll, intros).value)
    ensures written.None? ==> ShowsOnly(old(g.children), g.children, old(g.nextId) + 1, Error, LoadFailedText())
    ensures written.Some? && writeOk ==> ShowsOnly(old(g.children), g.children, old(g.nextId) + 1, Success, TextCopied)
    ensures written.Some? && !writeOk ==> ShowsOnly(old(g.children), g.children, old(g.nextId) + 1, Error, TextCopyFailed)
  {
    ghost var before := g.children;
    var info := StartAndCollect(g, titlePoll, intros);
    if info.None? {
      written := None;
      return;
    }
    written := Some(ClipboardText(info.value));
    ReportWrite(g, before, writeOk);
  }

  /** How a promise-returning browser call settles: fulfilled, or rejected with an error message. */
  datatype Outcome = Done | Failed(reason: string)

  /** How `fetch` settles: rejected with an error message, or with a response carrying its status. */
  datatype FetchOutcome = NetworkFailure(reason: string) | Response(status: nat)

  /** `response.ok`: exactly the statuses whose decimal rendering is three digits starting with 2. */
  predicate IsOkStatus(status: nat)
    ensures IsOkStatus(status) <==> |NatToString(status)| == 3 && NatToString(status)[0] == '2'
  {
    NatToStringLength(status);
    200 <= status <= 299
  }

  const LoadingCover := "正在加载封面..."
  const CoverCopied := "封面图已复制"
  /** The error thrown when the cover image has no address. */
  const CoverMissing := "封面地址获取失败"

  /** The error thrown for a response that is not ok. */
  function HttpError(status: nat): (r: string)
    ensures "HTTP错误: " <= r
    ensures var digits := r[|"HTTP错误: "|..];
      && (forall i :: 0 <= i < |digits| ==> IsAsciiDigit(digits[i]))
      && DigitsValue(digits) == status
  {
    NatToStringRoundTrip(status);
    assert ("HTTP错误: " + NatToString(status))[|"HTTP错误: "|..] == NatToString(status);
    "HTTP错误: " + NatToString(status)
  }

  /** The message the image action shows for an error with the given message. */
  function CopyFailed(reason: string): (r: string)
    ensures "复制失败: " <= r && r[|"复制失败: "|..] == reason
  {
    "复制失败: " + reason
  }

  /**
   * The image button: shows a loading message, reads the cover's `src`,
   * fetches it through the relay, reads the body and writes it to the
   * clipboard. `requested` is the cover address handed to the relay, if
   * any; `writeCalled` says whether the clipboard write was attempted.
   */
  method CopyImage(g: ButtonGroup, cover: Option<string>, fetched: FetchOutcome, body: Outcome, write: Outcome)
    returns (requested: Option<string>, writeCalled: bool)
    requires g.Valid()
    modifies g
    ensures g.Valid()
    ensures g.nextId == old(g.nextId) + 2
    ensures |Messages(g.children)| == 1 && Messages(g.children)[0].autoRemove
    ensures Controls(g.children) == Controls(old(g.children))
    ensures cover.None? || cover == Some("") ==>
      && requested.None? && !writeCalled
      && ShowsOnly(old(g.children), g.children, old(g.nextId) + 1, Error, CopyFailed(CoverMissing))
    ensures cover.Some? && cover != Some("") ==> requested == cover
    ensures writeCalled <==> requested.Some? && fetched.Response? && IsOkStatus(fetched.status) && body.Done?
    ensures requested.Some? && fetched.NetworkFailure? ==>
      ShowsOnly(old(g.children), g.children, old(g.nextId) + 1, Error, CopyFailed(fetched.reason))
    ensures requested.Some? && fetched.Response? && !IsOkStatus(fetched.status) ==>
      ShowsOnly(old(g.children), g.children, old(g.nextId) + 1, Error, CopyFailed(HttpError(fetched.status)))
    ensures requested.Some? && fetched.Response? && IsOkStatus(fetched.status) && body.Failed? ==>
      ShowsOnly(old(g.children), g.children, old(g.nextId) + 1, Error, CopyFailed(body.reason))
    ensures writeCalled && write.Failed? ==>
      ShowsOnly(old(g.children), g.children, old(g.nextId) + 1, Error, CopyFailed(write.reason))
    ensures writeCalled && write.Done? ==>
      ShowsOnly(old(g.children), g.children, old(g.nextId) + 1, Success, CoverCopied)
  {
    ghost var before := g.children;
    var loading := g.ShowMessage(Loading, LoadingCover);
    var dropLoading := true;
    var kind: Kind, text: string;
    requested, writeCalled := None, false;
    if cover.None? || cover.value == "" {
      kind, text := Error, CopyFailed(CoverMissing);
    } else {
      requested := cover;
      match fetched
      case NetworkFailure(reason) =>
        dropLoading := false;
        kind, text := Error, CopyFailed(reason);
      case Response(status) =>
        if !IsOkStatus(status) {
          kind, text := Error, CopyFailed(HttpError(status));
        } else if body.Failed? {
          dropLoading := false;
          kind, text := Error, CopyFailed(body.reason);
        } else {
          writeCalled := true;
          if write.Failed? {
            dropLoading := false;
            kind, text := Error, CopyFailed(write.reason);
          } else {
            kind, text := Success, CoverCopied;
          }
        }
    }
    Settle(g, before, loading, LoadingCover, dropLoading, kind, text);
    ShowsOnlyOneMessage(before, g.children, loading + 1, kind, text);
  }
}
