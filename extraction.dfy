/**
 * What the text action copies: the cleaned title, the synopsis taken from the
 * second intro section of the page's related-info block (or a placeholder),
 * and the clipboard string built from the two. The DOM queries are inputs:
 * a sequence of sections, each with the texts of its paragraphs and its whole
 * text.
 */
module Extraction {
  import opened Wrappers
  import opened TextCleanup

  /** The placeholder description used when the page has no second intro section. */
  const NoSynopsis := "暂无简介"

  /** One intro section: the `textContent` of each of its `<p>` elements, and its own `textContent`. */
  datatype Section = Section(paragraphs: seq<string>, text: string)

  datatype BookInfo = BookInfo(title: string, desc: string)

  /** `Array.prototype.join('\n')`. */
  function JoinLines(ps: seq<string>): (r: string)
    ensures ps != [] ==> ps[0] <= r
    ensures |ps| > 1 ==> |r| > |ps[0]| && r[|ps[0]|] == '\n'
  {
    if ps == [] then ""
    else if |ps| == 1 then ps[0]
    else ps[0] + "\n" + JoinLines(ps[1..])
  }

  /** Joining one more paragraph appends a line break and that paragraph. */
  lemma {:induction false} JoinLinesAppend(ps: seq<string>, p: string)
    requires ps != []
    ensures JoinLines(ps + [p]) == JoinLines(ps) + "\n" + p
    decreases |ps|
  {
    var qs := ps + [p];
    assert qs[1..] == ps[1..] + [p];
    if |ps| > 1 {
      JoinLinesAppend(ps[1..], p);
    } else {
      assert qs[1..] == [p];
    }
  }

  /** The raw synopsis of a section: its paragraphs joined by line breaks, or its whole text when it has none. */
  function IntroText(sec: Section): (r: string)
    ensures sec.paragraphs == [] ==> r == sec.text
    ensures sec.paragraphs != [] ==> r == JoinLines(sec.paragraphs) && sec.paragraphs[0] <= r
  {
    if |sec.paragraphs| > 0 then JoinLines(sec.paragraphs) else sec.text
  }

  /** The description: the cleaned text of the section at index 1, or the placeholder. */
  function Description(intros: seq<Section>): (d: string)
    ensures |intros| >= 2 ==> |d| <= |IntroText(intros[1])|
    ensures d == [] || (!InClass(JsSpace, d[0]) && !InClass(JsSpace, d[|d| - 1]))
  {
    if |intros| > 1 then CleanSynopsis(IntroText(intros[1])) else NoSynopsis
  }

  /** The book record: a title without line breaks, no longer than the title element's text, and the description. */
  function BookInfoOf(titleText: string, intros: seq<Section>): (info: BookInfo)
    ensures '\n' !in info.title && |info.title| <= |titleText|
  {
    CleanTitleSpec(titleText);
    BookInfo(CleanTitle(titleText), Description(intros))
  }

  /**
   * With fewer than two sections the description is the placeholder;
   * otherwise it is the cleaned text of section 1, no longer than that raw
   * text and without leading or trailing whitespace.
   */
  lemma DescriptionSpec(intros: seq<Section>)
    ensures |intros| < 2 ==> Description(intros) == NoSynopsis
    ensures |intros| >= 2 ==> Description(intros) == CleanSynopsis(IntroText(intros[1]))
    ensures |intros| >= 2 ==> |Description(intros)| <= |IntroText(intros[1])|
    ensures var d := Description(intros);
      d == [] || (!InClass(JsSpaceIdeographicZeroWidth, d[0]) && !InClass(JsSpaceIdeographicZeroWidth, d[|d| - 1]))
  {
    if |intros| >= 2 {
      CleanSynopsisSpec(IntroText(intros[1]));
    } else {
      assert NoSynopsis[0] == '暂' && NoSynopsis[|NoSynopsis| - 1] == '介';
    }
  }

  /** The description depends on section 1 alone: the other sections, and how many there are beyond two, do not matter. */
  lemma DescriptionOnlyReadsSecondSection(a: seq<Section>, b: seq<Section>)
    requires |a| >= 2 && |b| >= 2 && a[1] == b[1]
    ensures Description(a) == Description(b)
  {
  }

  /** A section with paragraphs is read through them only; its own text is ignored. */
  lemma IntroTextPrefersParagraphs(sec: Section, other: string)
    requires sec.paragraphs != []
    ensures IntroText(sec) == IntroText(Section(sec.paragraphs, other))
  {
  }

  /** Unlike the placeholder, a cleaned description can be empty: a second section holding only whitespace gives "". */
  lemma DescriptionMayBeEmpty(first: Section)
    ensures Description([first, Section([], " ")]) == ""
  {
    assert IntroText(Section([], " ")) == " ";
    CleanSynopsisOfSpace();
  }

  // ---------------------------------------------------------------------------
  // Clipboard text
  // ---------------------------------------------------------------------------

  /** The text written to the clipboard: the title in 《》, a blank line, then the description. */
  function ClipboardText(info: BookInfo): (r: string)
    ensures |r| == |info.title| + |info.desc| + 4
    ensures r[0] == '《' && r[|info.title| + 1] == '》'
    ensures r[|r| - |info.desc|..] == info.desc
  {
    "《" + info.title + "》\n\n" + info.desc
  }

  predicate BlankLineAt(s: string, i: nat)
  {
    i + 1 < |s| && s[i] == '\n' && s[i + 1] == '\n'
  }

  /** The first position at or after `from` where two line breaks meet. */
  function FirstBlankLine(s: string, from: nat): (r: Option<nat>)
    ensures r.Some? ==> from <= r.value && BlankLineAt(s, r.value)
    ensures forall j :: from <= j && (r.None? || j < r.value) ==> !BlankLineAt(s, j)
    decreases |s| - from
  {
    if from + 1 >= |s| then None
    else if BlankLineAt(s, from) then Some(from)
    else FirstBlankLine(s, from + 1)
  }

  /** Splits a clipboard text at its first blank line into the heading line and the rest. */
  function SplitClipboardText(s: string): Option<(string, string)>
  {
    match FirstBlankLine(s, 0)
    case Some(i) => Some((s[..i], s[i + 2..]))
    case None => None
  }

  /** A title without line breaks makes the clipboard text split back into `《title》` and the description. */
  lemma ClipboardTextSplits(title: string, desc: string)
    requires '\n' !in title
    ensures SplitClipboardText(ClipboardText(BookInfo(title, desc))) == Some(("《" + title + "》", desc))
  {
    var head := "《" + title + "》";
    var s := ClipboardText(BookInfo(title, desc));
    assert s == head + "\n\n" + desc;
    var i := |head|;
    assert BlankLineAt(s, i);
    forall j | 0 <= j < i
      ensures s[j] != '\n'
    {
      assert s[j] == head[j];
      if 0 < j < i - 1 {
        assert head[j] == title[j - 1];
      }
    }
    var r := FirstBlankLine(s, 0);
    assert r == Some(i);
    assert s[..i] == head;
    assert s[i + 2..] == desc;
  }

  /** The clipboard text of any extracted book splits back into its heading and description. */
  lemma BookInfoClipboardRoundTrip(titleText: string, intros: seq<Section>)
    ensures var info := BookInfoOf(titleText, intros);
      SplitClipboardText(ClipboardText(info)) == Some(("《" + info.title + "》", info.desc))
  {
    CleanTitleSpec(titleText);
    ClipboardTextSplits(CleanTitle(titleText), Description(intros));
  }
}
