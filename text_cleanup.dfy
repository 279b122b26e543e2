/**
 * The regular-expression passes that clean the book title and the synopsis.
 * The title has every whitespace run turned into one space and is trimmed.
 * The synopsis has every run of whitespace, U+3000 or U+200B turned into one
 * space, then loses its bracketed annotations, footnote markers and UI
 * labels in one global replace, and is trimmed.
 *
 * Each pass is a function over strings; the character classes are explicit
 * predicates, and the annotation pass is the left-to-right scan that a global
 * replace performs, stated against a declarative description of its matches.
 */
module TextCleanup {

  // ---------------------------------------------------------------------------
  // Character classes
  // ---------------------------------------------------------------------------

  /** ECMAScript LineTerminator: the characters that `.` does not match. */
  predicate IsLineTerminator(c: char) {
    c == '\n' || c == '\r' || c == '\U{2028}' || c == '\U{2029}'
  }

  /**
   * ECMAScript WhiteSpace and LineTerminator: what `\s` matches and what
   * `String.prototype.trim` removes (tab, VT, FF, space, NBSP, BOM, the
   * Unicode space separators, and the four line terminators).
   */
  predicate IsJsSpace(c: char) {
    || c == '\t' || c == '\U{000B}' || c == '\U{000C}' || c == ' '
    || c == '\U{00A0}' || c == '\U{FEFF}' || c == '\U{1680}'
    || ('\U{2000}' <= c <= '\U{200A}')
    || c == '\U{202F}' || c == '\U{205F}' || c == '\U{3000}'
    || IsLineTerminator(c)
  }

  predicate IsAsciiDigit(c: char) {
    '0' <= c <= '9'
  }

  /** The two whitespace classes the source collapses: `\s` for the title, and `\s` plus U+3000 and U+200B for the synopsis. */
  datatype SpaceClass = JsSpace | JsSpaceIdeographicZeroWidth

  predicate InClass(cls: SpaceClass, c: char) {
    IsJsSpace(c) || (cls == JsSpaceIdeographicZeroWidth && (c == '\U{3000}' || c == '\U{200B}'))
  }

  // ---------------------------------------------------------------------------
  // Stage 1: collapse every run of whitespace to one ASCII space
  // ---------------------------------------------------------------------------

  /** The string without its leading run of class characters. */
  function DropLeading(s: string, cls: SpaceClass): (r: string)
    ensures |r| <= |s| && r == s[|s| - |r|..]
    ensures forall i :: 0 <= i < |s| - |r| ==> InClass(cls, s[i])
    ensures r == [] || !InClass(cls, r[0])
  {
    if s != [] && InClass(cls, s[0]) then DropLeading(s[1..], cls) else s
  }

  /** `s.replace(/C+/g, ' ')` for the class C: each maximal run becomes one space. */
  function Collapse(s: string, cls: SpaceClass): (r: string)
    ensures |r| <= |s|
    decreases |s|
  {
    if s == [] then ""
    else if InClass(cls, s[0]) then " " + Collapse(DropLeading(s[1..], cls), cls)
    else [s[0]] + Collapse(s[1..], cls)
  }

  /** The characters outside the class, in their order. */
  function Solid(s: string, cls: SpaceClass): string
  {
    if s == [] then "" else (if InClass(cls, s[0]) then "" else [s[0]]) + Solid(s[1..], cls)
  }

  /** No class character other than the ASCII space, and no two spaces side by side. */
  predicate IsCollapsed(s: string, cls: SpaceClass) {
    && (forall i :: 0 <= i < |s| && InClass(cls, s[i]) ==> s[i] == ' ')
    && (forall i :: 0 < i < |s| && s[i] == ' ' ==> s[i - 1] != ' ')
  }

  lemma {:induction false} SolidSkipsRun(s: string, cls: SpaceClass)
    ensures Solid(DropLeading(s, cls), cls) == Solid(s, cls)
    decreases |s|
  {
    if s != [] && InClass(cls, s[0]) {
      SolidSkipsRun(s[1..], cls);
    }
  }

  /** Collapse output starts with the input's first character when that is not whitespace. */
  lemma CollapseHead(s: string, cls: SpaceClass)
    requires s != [] && !InClass(cls, s[0])
    ensures Collapse(s, cls) != [] && Collapse(s, cls)[0] == s[0]
  {
  }

  /** A character put in front of a collapsed string keeps it collapsed unless it makes a class character or a double space. */
  lemma ConsCollapsed(x: char, c: string, cls: SpaceClass)
    requires IsCollapsed(c, cls)
    requires InClass(cls, x) ==> x == ' '
    requires x == ' ' ==> c == [] || c[0] != ' '
    ensures IsCollapsed([x] + c, cls)
  {
    var r := [x] + c;
    assert forall i :: 0 < i < |r| ==> r[i] == c[i - 1];
  }

  lemma {:induction false} CollapseCollapses(s: string, cls: SpaceClass)
    ensures IsCollapsed(Collapse(s, cls), cls)
    decreases |s|
  {
    if s != [] {
      if InClass(cls, s[0]) {
        var t := DropLeading(s[1..], cls);
        CollapseCollapses(t, cls);
        if t != [] {
          CollapseHead(t, cls);
        }
        ConsCollapsed(' ', Collapse(t, cls), cls);
        assert Collapse(s, cls) == [' '] + Collapse(t, cls);
      } else {
        CollapseCollapses(s[1..], cls);
        ConsCollapsed(s[0], Collapse(s[1..], cls), cls);
      }
    }
  }

  lemma {:induction false} CollapseKeepsSolid(s: string, cls: SpaceClass)
    ensures Solid(Collapse(s, cls), cls) == Solid(s, cls)
    decreases |s|
  {
    if s != [] {
      if InClass(cls, s[0]) {
        var t := DropLeading(s[1..], cls);
        var c := Collapse(t, cls);
        CollapseKeepsSolid(t, cls);
        SolidSkipsRun(s[1..], cls);
        assert (" " + c)[1..] == c;
        assert Collapse(s, cls) == " " + c;
      } else {
        var c := Collapse(s[1..], cls);
        CollapseKeepsSolid(s[1..], cls);
        assert ([s[0]] + c)[1..] == c;
      }
    }
  }

  /**
   * After the whitespace pass no class character but the ASCII space remains,
   * no two spaces are adjacent, and every other character is kept in order.
   */
  lemma CollapseSpec(s: string, cls: SpaceClass)
    ensures IsCollapsed(Collapse(s, cls), cls)
    ensures Solid(Collapse(s, cls), cls) == Solid(s, cls)
  {
    CollapseCollapses(s, cls);
    CollapseKeepsSolid(s, cls);
  }

  /** Dropping the leading run stops at a character outside the class, so text after it is untouched. */
  lemma {:induction false} DropLeadingAppend(a: string, b: string, cls: SpaceClass)
    requires b != [] && !InClass(cls, b[0])
    ensures DropLeading(a + b, cls) == DropLeading(a, cls) + b
    decreases |a|
  {
    if a == [] {
      assert a + b == b;
    } else {
      assert (a + b)[0] == a[0];
      if InClass(cls, a[0]) {
        assert (a + b)[1..] == a[1..] + b;
        DropLeadingAppend(a[1..], b, cls);
        calc {
          DropLeading(a + b, cls);
          DropLeading(a[1..] + b, cls);
          DropLeading(a[1..], cls) + b;
        }
      }
    }
  }

  lemma CollapseSplitsAtSpace(a: string, t: string, cls: SpaceClass)
    requires a != [] && InClass(cls, a[0]) && t != [] && !InClass(cls, t[0])
    ensures Collapse(a + t, cls) == " " + Collapse(DropLeading(a[1..], cls) + t, cls)
  {
    assert (a + t)[0] == a[0];
    assert (a + t)[1..] == a[1..] + t;
    DropLeadingAppend(a[1..], t, cls);
  }

  lemma CollapseSplitsAtOther(a: string, t: string, cls: SpaceClass)
    requires a != [] && !InClass(cls, a[0])
    ensures Collapse(a + t, cls) == [a[0]] + Collapse(a[1..] + t, cls)
  {
    assert (a + t)[0] == a[0];
    assert (a + t)[1..] == a[1..] + t;
  }

  /**
   * A character outside the class splits the pass: what comes before it and
   * what comes after it are collapsed independently.
   */
  lemma {:induction false} CollapseSplitsAtSolid(a: string, c: char, b: string, cls: SpaceClass)
    requires !InClass(cls, c)
    ensures Collapse(a + ([c] + b), cls) == Collapse(a, cls) + ([c] + Collapse(b, cls))
    decreases |a|
  {
    var t := [c] + b;
    var tail := [c] + Collapse(b, cls);
    if a == [] {
      calc {
        Collapse(a + t, cls);
        { assert a + t == t; }
        Collapse(t, cls);
        { assert t[0] == c && t[1..] == b; }
        tail;
        { assert Collapse(a, cls) == []; }
        Collapse(a, cls) + tail;
      }
    } else if InClass(cls, a[0]) {
      var d := DropLeading(a[1..], cls);
      calc {
        Collapse(a + t, cls);
        { CollapseSplitsAtSpace(a, t, cls); }
        " " + Collapse(d + t, cls);
        { CollapseSplitsAtSolid(d, c, b, cls); }
        " " + (Collapse(d, cls) + tail);
        (" " + Collapse(d, cls)) + tail;
        Collapse(a, cls) + tail;
      }
    } else {
      calc {
        Collapse(a + t, cls);
        { CollapseSplitsAtOther(a, t, cls); }
        [a[0]] + Collapse(a[1..] + t, cls);
        { CollapseSplitsAtSolid(a[1..], c, b, cls); }
        [a[0]] + (Collapse(a[1..], cls) + tail);
        ([a[0]] + Collapse(a[1..], cls)) + tail;
        Collapse(a, cls) + tail;
      }
    }
  }

  /** A non-empty run made only of class characters becomes one space. */
  lemma CollapseRun(r: string, cls: SpaceClass)
    requires r != [] && forall i :: 0 <= i < |r| ==> InClass(cls, r[i])
    ensures Collapse(r, cls) == " "
  {
  }

  /** A string that is already collapsed is left unchanged, so the pass is idempotent. */
  lemma {:induction false} CollapseFixesCollapsed(s: string, cls: SpaceClass)
    requires IsCollapsed(s, cls)
    ensures Collapse(s, cls) == s
    decreases |s|
  {
    if s != [] {
      assert IsCollapsed(s[1..], cls) by {
        assert forall i :: 0 <= i < |s| - 1 ==> s[1..][i] == s[i + 1];
      }
      CollapseFixesCollapsed(s[1..], cls);
      if InClass(cls, s[0]) {
        assert s[0] == ' ';
        if |s| > 1 {
          assert s[1] != ' ';
          assert !InClass(cls, s[1]);
        }
        assert DropLeading(s[1..], cls) == s[1..];
      }
    }
  }

  lemma CollapseIdempotent(s: string, cls: SpaceClass)
    ensures Collapse(Collapse(s, cls), cls) == Collapse(s, cls)
  {
    CollapseSpec(s, cls);
    CollapseFixesCollapsed(Collapse(s, cls), cls);
  }

  // ---------------------------------------------------------------------------
  // Trim
  // ---------------------------------------------------------------------------

  /** The end of the run of class characters that starts at `i`. */
  function RunEnd(s: string, i: nat, cls: SpaceClass): (e: nat)
    requires i <= |s|
    ensures i <= e <= |s|
    ensures forall j :: i <= j < e ==> InClass(cls, s[j])
    ensures e < |s| ==> !InClass(cls, s[e])
    decreases |s| - i
  {
    if i < |s| && InClass(cls, s[i]) then RunEnd(s, i + 1, cls) else i
  }

  /** The start of the run of class characters that ends just before `j`, not going below `lo`. */
  function RunStart(s: string, lo: nat, j: nat, cls: SpaceClass): (b: nat)
    requires lo <= j <= |s|
    ensures lo <= b <= j
    ensures forall i :: b <= i < j ==> InClass(cls, s[i])
    ensures b > lo ==> !InClass(cls, s[b - 1])
    decreases j - lo
  {
    if j > lo && InClass(cls, s[j - 1]) then RunStart(s, lo, j - 1, cls) else j
  }

  /**
   * `String.prototype.trim`: the result is a contiguous piece of the input
   * that neither starts nor ends with whitespace, and everything cut away on
   * either side is whitespace.
   */
  function Trim(s: string): (r: string)
    ensures r == [] || (!InClass(JsSpace, r[0]) && !InClass(JsSpace, r[|r| - 1]))
    ensures var k := RunEnd(s, 0, JsSpace);
      && k + |r| <= |s| && r == s[k..k + |r|]
      && (forall i :: 0 <= i < k ==> InClass(JsSpace, s[i]))
      && (forall i :: k + |r| <= i < |s| ==> InClass(JsSpace, s[i]))
  {
    var k := RunEnd(s, 0, JsSpace);
    var e := RunStart(s, k, |s|, JsSpace);
    assert k < e ==> s[k..e][0] == s[k] && s[k..e][e - k - 1] == s[e - 1];
    s[k..e]
  }

  lemma TrimShrinks(s: string)
    ensures |Trim(s)| <= |s|
    ensures forall c :: c in Trim(s) ==> c in s
  {
    var r := Trim(s);
    var k := RunEnd(s, 0, JsSpace);
    forall c | c in r ensures c in s {
      var j :| 0 <= j < |r| && r[j] == c;
      assert s[k + j] == c;
    }
  }

  /** Trimming keeps a collapsed string collapsed. */
  lemma TrimKeepsCollapsed(s: string, cls: SpaceClass)
    requires IsCollapsed(s, cls)
    ensures IsCollapsed(Trim(s), cls)
  {
    var r := Trim(s);
    var k := RunEnd(s, 0, JsSpace);
    forall i | 0 <= i < |r| && InClass(cls, r[i]) ensures r[i] == ' ' {
      assert r[i] == s[k + i];
    }
    forall i | 0 < i < |r| && r[i] == ' ' ensures r[i - 1] != ' ' {
      assert r[i] == s[k + i] && r[i - 1] == s[k + i - 1];
    }
  }

  // ---------------------------------------------------------------------------
  // Stage 2: strip annotations
  // ---------------------------------------------------------------------------

  const FullwidthOpen := '\U{FF08}'    // （
  const FullwidthClose := '\U{FF09}'   // ）
  const LenticularOpen := '\U{3010}'   // 【
  const LenticularClose := '\U{3011}'  // 】
  const ExpandAll := "展开全部"
  const More := "更多→"
  const Nbsp := '\U{00A0}'

  /** A match of `open.*?close`: `open`, then text closed at its first `close` with no line terminator before it. */
  predicate Enclosed(t: string, open: char, close: char) {
    |t| >= 2 && t[0] == open && ClosesAt(t, 1, |t|, close)
  }

  /** A match of `\[\d+\]`. */
  predicate IsFootnoteMarker(t: string) {
    && |t| >= 3 && t[0] == '[' && t[|t| - 1] == ']'
    && forall j :: 0 < j < |t| - 1 ==> IsAsciiDigit(t[j])
  }

  /** The strings the annotation pattern matches, alternative by alternative. */
  predicate IsAnnotation(t: string) {
    || Enclosed(t, FullwidthOpen, FullwidthClose)
    || IsFootnoteMarker(t)
    || Enclosed(t, LenticularOpen, LenticularClose)
    || t == ExpandAll
    || t == More
    || t == [Nbsp]
  }

  /** No annotation starts at the first character of `s`. */
  predicate NoMatchAt(s: string) {
    forall k :: 0 < k <= |s| ==> !IsAnnotation(s[..k])
  }

  /** `s[k-1]` is `close` and nothing in `s[i..k-1]` is `close` or a line terminator. */
  predicate ClosesAt(s: string, i: nat, k: nat, close: char)
    requires i < k <= |s|
  {
    s[k - 1] == close && forall j :: i <= j < k - 1 ==> s[j] != close && !IsLineTerminator(s[j])
  }

  /** The lazy `.*?close`: extend one character at a time until `close`; fail at a line terminator or the end. */
  function LazyClose(s: string, close: char, i: nat): (n: nat)
    requires i <= |s|
    ensures n > 0 ==> i < n <= |s| && ClosesAt(s, i, n, close)
    ensures n == 0 ==> forall k :: i < k <= |s| ==> !ClosesAt(s, i, k, close)
    decreases |s| - i
  {
    if i == |s| then 0
    else if s[i] == close then i + 1
    else if IsLineTerminator(s[i]) then 0
    else
      assert forall k :: i + 1 < k <= |s| && ClosesAt(s, i, k, close) ==> ClosesAt(s, i + 1, k, close);
      LazyClose(s, close, i + 1)
  }

  /** Length of the `open.*?close` match at the start of `s`, or 0. */
  function EnclosedLength(s: string, open: char, close: char): (n: nat)
    ensures n <= |s|
    ensures n > 0 ==> Enclosed(s[..n], open, close)
    ensures n == 0 ==> forall k :: 0 < k <= |s| ==> !Enclosed(s[..k], open, close)
  {
    if s != [] && s[0] == open then
      var n := LazyClose(s, close, 1);
      assert forall k :: 1 < k <= |s| && Enclosed(s[..k], open, close) ==> ClosesAt(s, 1, k, close);
      n
    else 0
  }

  /** The end of the run of ASCII digits that starts at `i`. */
  function DigitsEnd(s: string, i: nat): (e: nat)
    requires i <= |s|
    ensures i <= e <= |s|
    ensures forall j :: i <= j < e ==> IsAsciiDigit(s[j])
    ensures e == |s| || !IsAsciiDigit(s[e])
    decreases |s| - i
  {
    if i < |s| && IsAsciiDigit(s[i]) then DigitsEnd(s, i + 1) else i
  }

  /** Length of the `\[\d+\]` match at the start of `s`, or 0. */
  function FootnoteLength(s: string): (n: nat)
    ensures n <= |s|
    ensures n > 0 ==> IsFootnoteMarker(s[..n])
    ensures n == 0 ==> forall k :: 0 < k <= |s| ==> !IsFootnoteMarker(s[..k])
  {
    if s != [] && s[0] == '[' then
      var e := DigitsEnd(s, 1);
      assert forall k :: 0 < k <= |s| && IsFootnoteMarker(s[..k]) ==> e == k - 1;
      if 1 < e < |s| && s[e] == ']' then e + 1 else 0
    else 0
  }

  /** Length of `lit` when `s` starts with it, or 0. */
  function LiteralLength(s: string, lit: string): (n: nat)
    requires lit != []
    ensures n <= |s|
    ensures n > 0 ==> s[..n] == lit
    ensures n == 0 ==> forall k :: 0 < k <= |s| ==> s[..k] != lit
  {
    if lit <= s then |lit| else 0
  }

  /**
   * The alternation tried at one position, alternatives in source order; the
   * first that matches wins. Its result is the one annotation starting here.
   */
  function MatchLength(s: string): (n: nat)
    ensures n <= |s|
    ensures n > 0 ==> IsAnnotation(s[..n])
    ensures n == 0 ==> NoMatchAt(s)
  {
    var paren := EnclosedLength(s, FullwidthOpen, FullwidthClose);
    if paren > 0 then paren else
    var footnote := FootnoteLength(s);
    if footnote > 0 then footnote else
    var lenticular := EnclosedLength(s, LenticularOpen, LenticularClose);
    if lenticular > 0 then lenticular else
    var expand := LiteralLength(s, ExpandAll);
    if expand > 0 then expand else
    var more := LiteralLength(s, More);
    if more > 0 then more else
    LiteralLength(s, [Nbsp])
  }

  /** Two annotations that both start a string are the same: the scan has no choice to make. */
  lemma AnnotationPrefixUnique(s: string, a: string, b: string)
    requires IsAnnotation(a) && IsAnnotation(b) && a <= s && b <= s
    ensures a == b
  {
    assert a == s[..|a|] && b == s[..|b|];
    var m := if |a| <= |b| then |a| else |b|;
    assert a[..m] == b[..m];
    assert a[0] == b[0] && a[m - 1] == b[m - 1];
  }

  /** One piece of the input as the global replace sees it. */
  datatype Segment = Kept(c: char) | Removed(text: string)

  /**
   * `segs` cuts `s` left to right into annotations that are removed and
   * single characters that are kept, a character being kept exactly where no
   * annotation starts.
   */
  predicate IsScan(s: string, segs: seq<Segment>)
    decreases |segs|
  {
    if segs == [] then s == []
    else match segs[0]
      case Kept(c) => s != [] && s[0] == c && NoMatchAt(s) && IsScan(s[1..], segs[1..])
      case Removed(t) => IsAnnotation(t) && t <= s && IsScan(s[|t|..], segs[1..])
  }

  /** The matching loop of the global replace. */
  function Scan(s: string): (segs: seq<Segment>)
    ensures IsScan(s, segs)
    decreases |s|
  {
    if s == [] then []
    else
      var n := MatchLength(s);
      if n > 0 then [Removed(s[..n])] + Scan(s[n..])
      else [Kept(s[0])] + Scan(s[1..])
  }

  /** A segmentation of a non-empty string keeps its first character exactly when no annotation starts there. */
  lemma ScanHead(s: string, segs: seq<Segment>)
    requires IsScan(s, segs) && s != []
    ensures segs != [] && (segs[0].Kept? <==> NoMatchAt(s))
  {
    if segs[0].Removed? {
      var t := segs[0].text;
      assert s[..|t|] == t;
    }
  }

  /** The left-to-right segmentation is unique. */
  lemma {:induction false} ScanUnique(s: string, a: seq<Segment>, b: seq<Segment>)
    requires IsScan(s, a) && IsScan(s, b)
    ensures a == b
    decreases |a|
  {
    if s != [] {
      ScanHead(s, a);
      ScanHead(s, b);
      match a[0]
      case Kept(c) =>
        ScanUnique(s[1..], a[1..], b[1..]);
      case Removed(t) =>
        AnnotationPrefixUnique(s, t, b[0].text);
        ScanUnique(s[|t|..], a[1..], b[1..]);
    }
  }

  function KeptText(segs: seq<Segment>): string
  {
    if segs == [] then ""
    else (if segs[0].Kept? then [segs[0].c] else "") + KeptText(segs[1..])
  }

  /** `s.replace(annotationPattern, '')`: the characters no match covers, in order. */
  function StripAnnotations(s: string): (r: string)
    ensures |r| <= |s|
    ensures multiset(r) <= multiset(s)
  {
    KeptTextWithin(s, Scan(s));
    KeptText(Scan(s))
  }

  /** Any left-to-right segmentation of `s` keeps exactly the characters the pass keeps. */
  lemma StripAnnotationsSpec(s: string, segs: seq<Segment>)
    requires IsScan(s, segs)
    ensures StripAnnotations(s) == KeptText(segs)
  {
    ScanUnique(s, segs, Scan(s));
  }

  lemma {:induction false} KeptTextWithin(s: string, segs: seq<Segment>)
    requires IsScan(s, segs)
    ensures multiset(KeptText(segs)) <= multiset(s)
    ensures |KeptText(segs)| <= |s|
    decreases |segs|
  {
    if segs != [] {
      match segs[0]
      case Kept(c) =>
        KeptTextWithin(s[1..], segs[1..]);
        assert s == [c] + s[1..];
      case Removed(t) =>
        KeptTextWithin(s[|t|..], segs[1..]);
        assert s == t + s[|t|..];
    }
  }

  /** The pass only deletes: every kept character comes from the input. */
  lemma StripAnnotationsShrinks(s: string)
    ensures multiset(StripAnnotations(s)) <= multiset(s)
    ensures |StripAnnotations(s)| <= |s|
    ensures forall c :: c in StripAnnotations(s) ==> c in s
  {
    KeptTextWithin(s, Scan(s));
    var r := StripAnnotations(s);
    forall c | c in r ensures c in s {
      assert c in multiset(r);
    }
  }

  /** The characters at which an annotation can begin. */
  predicate IsAnnotationStart(c: char) {
    c == FullwidthOpen || c == '[' || c == LenticularOpen || c == '展' || c == '更' || c == Nbsp
  }

  /** A match begins at an annotation start, and a bracketed match contains its closing bracket. */
  lemma MatchShape(s: string)
    ensures MatchLength(s) > 0 ==> IsAnnotationStart(s[0])
    ensures MatchLength(s) > 0 && s[0] == FullwidthOpen ==> FullwidthClose in s
    ensures MatchLength(s) > 0 && s[0] == LenticularOpen ==> LenticularClose in s
  {
    var n := MatchLength(s);
    if n > 0 {
      var t := s[..n];
      assert t[0] == s[0] && t[n - 1] == s[n - 1];
    }
  }

  /** Text in which no annotation can begin is left as it is. */
  lemma {:induction false} StripKeepsPlainText(s: string)
    requires forall i :: 0 <= i < |s| ==> !IsAnnotationStart(s[i])
    ensures StripAnnotations(s) == s
    decreases |s|
  {
    if s != [] {
      MatchShape(s);
      assert Scan(s) == [Kept(s[0])] + Scan(s[1..]);
      StripKeepsPlainText(s[1..]);
    }
  }

  /** An opening `（` with no `）` after it survives, whatever other brackets follow. */
  lemma StripKeepsUnclosedParen(s: string)
    requires s != [] && s[0] == FullwidthOpen && FullwidthClose !in s
    ensures StripAnnotations(s) == [s[0]] + StripAnnotations(s[1..])
  {
    MatchShape(s);
    assert Scan(s) == [Kept(s[0])] + Scan(s[1..]);
  }

  /** An opening `【` with no `】` after it survives, whatever other brackets follow. */
  lemma StripKeepsUnclosedLenticular(s: string)
    requires s != [] && s[0] == LenticularOpen && LenticularClose !in s
    ensures StripAnnotations(s) == [s[0]] + StripAnnotations(s[1..])
  {
    MatchShape(s);
    assert Scan(s) == [Kept(s[0])] + Scan(s[1..]);
  }

  /** Without a non-breaking space in the input, the U+00A0 alternative never matches. */
  lemma {:induction false} NbspNeverRemoved(s: string, segs: seq<Segment>)
    requires IsScan(s, segs) && Nbsp !in s
    ensures Removed([Nbsp]) !in segs
    decreases |segs|
  {
    if segs != [] {
      match segs[0]
      case Kept(c) =>
        NbspNeverRemoved(s[1..], segs[1..]);
      case Removed(t) =>
        assert t[0] == s[0];
        NbspNeverRemoved(s[|t|..], segs[1..]);
    }
  }

  // ---------------------------------------------------------------------------
  // The two pipelines
  // ---------------------------------------------------------------------------

  /** The synopsis cleanup: collapse, strip annotations, trim. */
  function CleanSynopsis(raw: string): (r: string)
    ensures |r| <= |raw|
    ensures r == [] || (!InClass(JsSpace, r[0]) && !InClass(JsSpace, r[|r| - 1]))
  {
    Trim(StripAnnotations(Collapse(raw, JsSpaceIdeographicZeroWidth)))
  }

  /**
   * The cleaned synopsis is never longer than the raw text, neither starts nor
   * ends with whitespace, and contains no whitespace but the ASCII space (in
   * particular no U+3000, U+200B or line break).
   */
  lemma CleanSynopsisSpec(raw: string)
    ensures |CleanSynopsis(raw)| <= |raw|
    ensures var r := CleanSynopsis(raw);
      r == [] || (!InClass(JsSpaceIdeographicZeroWidth, r[0]) && !InClass(JsSpaceIdeographicZeroWidth, r[|r| - 1]))
    ensures forall c :: c in CleanSynopsis(raw) && InClass(JsSpaceIdeographicZeroWidth, c) ==> c == ' '
  {
    var cls := JsSpaceIdeographicZeroWidth;
    var collapsed := Collapse(raw, cls);
    CollapseSpec(raw, cls);
    var stripped := StripAnnotations(collapsed);
    StripAnnotationsShrinks(collapsed);
    TrimShrinks(stripped);
    var r := CleanSynopsis(raw);
    forall c | c in r && InClass(cls, c) ensures c == ' ' {
      assert c in collapsed;
      var i :| 0 <= i < |collapsed| && collapsed[i] == c;
      assert InClass(cls, collapsed[i]);
    }
  }

  /** In the synopsis pipeline the non-breaking-space alternative is dead: the first pass already consumed every U+00A0. */
  lemma NbspAlternativeDead(raw: string)
    ensures Removed([Nbsp]) !in Scan(Collapse(raw, JsSpaceIdeographicZeroWidth))
  {
    var collapsed := Collapse(raw, JsSpaceIdeographicZeroWidth);
    CollapseSpec(raw, JsSpaceIdeographicZeroWidth);
    assert forall i :: 0 <= i < |collapsed| ==> collapsed[i] != Nbsp;
    NbspNeverRemoved(collapsed, Scan(collapsed));
  }

  /** The title cleanup: `\s+` to one space, then trim. */
  function CleanTitle(raw: string): (r: string)
    ensures |r| <= |raw|
    ensures r == [] || (!InClass(JsSpace, r[0]) && !InClass(JsSpace, r[|r| - 1]))
  {
    Trim(Collapse(raw, JsSpace))
  }

  /** The cleaned title is collapsed, trimmed and, in particular, holds no line break. */
  lemma CleanTitleSpec(raw: string)
    ensures IsCollapsed(CleanTitle(raw), JsSpace)
    ensures var r := CleanTitle(raw); r == [] || (!InClass(JsSpace, r[0]) && !InClass(JsSpace, r[|r| - 1]))
    ensures '\n' !in CleanTitle(raw)
  {
    CollapseSpec(raw, JsSpace);
    TrimKeepsCollapsed(Collapse(raw, JsSpace), JsSpace);
    var r := CleanTitle(raw);
    assert forall i :: 0 <= i < |r| ==> r[i] != '\n';
  }

  /** Cleaning a title twice changes nothing more. */
  lemma CleanTitleIdempotent(raw: string)
    ensures CleanTitle(CleanTitle(raw)) == CleanTitle(raw)
  {
    var r := CleanTitle(raw);
    CleanTitleSpec(raw);
    CollapseFixesCollapsed(r, JsSpace);
    assert RunEnd(r, 0, JsSpace) == 0;
    assert r != [] ==> RunStart(r, 0, |r|, JsSpace) == |r|;
  }

  // ---------------------------------------------------------------------------
  // Two inputs on which the synopsis cleanup is not a normal form
  // ---------------------------------------------------------------------------

  lemma NotStartNoMatch(s: string)
    requires s != [] && !IsAnnotationStart(s[0])
    ensures NoMatchAt(s)
  {
    MatchShape(s);
  }

  lemma ScanKeep(s: string, rest: seq<Segment>)
    requires s != [] && NoMatchAt(s) && IsScan(s[1..], rest)
    ensures IsScan(s, [Kept(s[0])] + rest)
  {
    assert ([Kept(s[0])] + rest)[1..] == rest;
  }

  lemma ScanRemove(s: string, t: string, rest: seq<Segment>)
    requires IsAnnotation(t) && t <= s && IsScan(s[|t|..], rest)
    ensures IsScan(s, [Removed(t)] + rest)
  {
    assert ([Removed(t)] + rest)[1..] == rest;
  }

  lemma TrimKeepsUnpadded(s: string)
    requires s != [] && !InClass(JsSpace, s[0]) && !InClass(JsSpace, s[|s| - 1])
    ensures Trim(s) == s
  {
  }

  lemma TrimExample()
    ensures Trim("a  b") == "a  b"
  {
    var r := "a  b";
    assert r[0] == 'a' && r[|r| - 1] == 'b';
    TrimKeepsUnpadded(r);
  }

  lemma SpaceSurvivesStrip()
    ensures StripAnnotations(" ") == " "
  {
    NotStartNoMatch(" ");
    ScanKeep(" ", []);
    StripAnnotationsSpec(" ", [Kept(' ')]);
  }

  /** A synopsis made of one space cleans to the empty string. */
  lemma CleanSynopsisOfSpace()
    ensures CleanSynopsis(" ") == ""
  {
    assert Collapse(" ", JsSpaceIdeographicZeroWidth) == " " + Collapse("", JsSpaceIdeographicZeroWidth);
    SpaceSurvivesStrip();
    assert RunEnd(" ", 0, JsSpace) == RunEnd(" ", 1, JsSpace) == 1;
  }

  lemma ScanOfTwoPlain(s: string)
    requires |s| == 2 && !IsAnnotationStart(s[0]) && !IsAnnotationStart(s[1])
    ensures IsScan(s, [Kept(s[0]), Kept(s[1])])
  {
    NotStartNoMatch(s[1..]);
    ScanKeep(s[1..], []);
    NotStartNoMatch(s);
    ScanKeep(s, [Kept(s[1])]);
  }

  lemma ExpandAllTail()
    ensures IsScan("展开全部全部", [Removed(ExpandAll), Kept('全'), Kept('部')])
  {
    var s := "展开全部全部";
    assert s[4..] == "全部";
    ScanOfTwoPlain("全部");
    assert ExpandAll <= s;
    ScanRemove(s, ExpandAll, [Kept('全'), Kept('部')]);
  }

  lemma ExpandAllScan()
    ensures IsScan("展开展开全部全部", [Kept('展'), Kept('开'), Removed(ExpandAll), Kept('全'), Kept('部')])
  {
    var s := "展开展开全部全部";
    ExpandAllTail();
    assert s[1..][1..] == "展开全部全部";
    NotStartNoMatch(s[1..]);
    ScanKeep(s[1..], [Removed(ExpandAll), Kept('全'), Kept('部')]);
    assert MatchLength(s) == 0 by {
      assert s[2] != ExpandAll[2];
    }
    ScanKeep(s, [Kept('开'), Removed(ExpandAll), Kept('全'), Kept('部')]);
  }

  lemma ExpandAllKept()
    ensures KeptText([Kept('展'), Kept('开'), Removed(ExpandAll), Kept('全'), Kept('部')]) == ExpandAll
  {
    var segs := [Kept('展'), Kept('开'), Removed(ExpandAll), Kept('全'), Kept('部')];
    assert KeptText(segs[4..]) == "部";
    assert KeptText(segs[3..]) == "全部";
    assert KeptText(segs[2..]) == "全部";
    assert KeptText(segs[1..]) == "开全部";
    assert KeptText(segs) == ['展'] + "开全部";
    ExpandAllSpelled();
  }

  lemma ExpandAllSpelled()
    ensures ['展'] + "开全部" == ExpandAll
  {
  }

  lemma ExpandAllExample()
    ensures StripAnnotations("展开展开全部全部") == ExpandAll
  {
    ExpandAllScan();
    ExpandAllKept();
    StripAnnotationsSpec("展开展开全部全部", [Kept('展'), Kept('开'), Removed(ExpandAll), Kept('全'), Kept('部')]);
  }

  lemma DoubleSpaceTail()
    ensures IsScan("（x） b", [Removed("（x）"), Kept(' '), Kept('b')])
  {
    var s := "（x） b";
    assert s[3..] == " b";
    ScanOfTwoPlain(" b");
    assert Enclosed("（x）", FullwidthOpen, FullwidthClose);
    assert "（x）" <= s;
    ScanRemove(s, "（x）", [Kept(' '), Kept('b')]);
  }

  lemma DoubleSpaceScan()
    ensures IsScan("a （x） b", [Kept('a'), Kept(' '), Removed("（x）"), Kept(' '), Kept('b')])
  {
    var s := "a （x） b";
    DoubleSpaceTail();
    assert s[1..][1..] == "（x） b";
    NotStartNoMatch(s[1..]);
    ScanKeep(s[1..], [Removed("（x）"), Kept(' '), Kept('b')]);
    NotStartNoMatch(s);
    ScanKeep(s, [Kept(' '), Removed("（x）"), Kept(' '), Kept('b')]);
  }

  lemma DoubleSpaceKept()
    ensures KeptText([Kept('a'), Kept(' '), Removed("（x）"), Kept(' '), Kept('b')]) == "a  b"
  {
    var segs := [Kept('a'), Kept(' '), Removed("（x）"), Kept(' '), Kept('b')];
    assert KeptText(segs[4..]) == "b";
    assert KeptText(segs[3..]) == " b";
    assert KeptText(segs[2..]) == " b";
    assert KeptText(segs[1..]) == "  b";
  }

  lemma DoubleSpaceExample()
    ensures StripAnnotations("a （x） b") == "a  b"
  {
    DoubleSpaceScan();
    DoubleSpaceKept();
    StripAnnotationsSpec("a （x） b", [Kept('a'), Kept(' '), Removed("（x）"), Kept(' '), Kept('b')]);
  }

  lemma CollapseExpandAllExample()
    ensures Collapse("展开展开全部全部", JsSpaceIdeographicZeroWidth) == "展开展开全部全部"
  {
    var cls := JsSpaceIdeographicZeroWidth;
    var s := "展开展开全部全部";
    assert IsCollapsed(s, cls) by {
      assert forall i :: 0 <= i < |s| ==> !InClass(cls, s[i]);
    }
    CollapseFixesCollapsed(s, cls);
  }

  lemma TrimExpandAll()
    ensures Trim(ExpandAll) == ExpandAll
  {
    assert ExpandAll[0] == '展' && ExpandAll[|ExpandAll| - 1] == '部';
    TrimKeepsUnpadded(ExpandAll);
  }

  lemma CleanExpandAllExample()
    ensures CleanSynopsis("展开展开全部全部") == ExpandAll
  {
    CollapseExpandAllExample();
    ExpandAllExample();
    TrimExpandAll();
  }

  lemma CleanExpandAllLabel()
    ensures CleanSynopsis(ExpandAll) == ""
  {
    var cls := JsSpaceIdeographicZeroWidth;
    assert IsCollapsed(ExpandAll, cls) by {
      assert forall i :: 0 <= i < |ExpandAll| ==> !InClass(cls, ExpandAll[i]);
    }
    CollapseFixesCollapsed(ExpandAll, cls);
    ScanRemove(ExpandAll, ExpandAll, []);
    StripAnnotationsSpec(ExpandAll, [Removed(ExpandAll)]);
    assert KeptText([Removed(ExpandAll)]) == "";
  }

  /** Stripping an inner label can assemble a new one, so cleaning twice removes more than cleaning once. */
  lemma CleanSynopsisNotIdempotent()
    ensures CleanSynopsis("展开展开全部全部") == ExpandAll
    ensures CleanSynopsis(CleanSynopsis("展开展开全部全部")) == ""
  {
    CleanExpandAllExample();
    CleanExpandAllLabel();
  }

  /** Whitespace is collapsed before annotations are removed, so two spaces can end up side by side. */
  lemma CleanSynopsisCanLeaveDoubleSpace()
    ensures CleanSynopsis("a （x） b") == "a  b"
    ensures !IsCollapsed(CleanSynopsis("a （x） b"), JsSpaceIdeographicZeroWidth)
  {
    var cls := JsSpaceIdeographicZeroWidth;
    var s := "a （x） b";
    assert IsCollapsed(s, cls) by {
      assert forall i :: 0 <= i < |s| && InClass(cls, s[i]) ==> i == 1 || i == 5;
    }
    CollapseFixesCollapsed(s, cls);
    DoubleSpaceExample();
    TrimExample();
    assert "a  b"[2] == ' ' && "a  b"[1] == ' ';
  }
}
