/**
 * The semantic tagger of epubstandard.py (`add_semantic_structure`): inside
 * the first `body` it marks a title page, wraps "Copyright" paragraphs in a
 * copyright-page section and marks "Chapter N" headings. Each of the three
 * changes is guarded so that an element already carrying the mark is left
 * alone.
 *
 * lxml's `section.append(p)` moves the paragraph together with its tail text,
 * so the new section's string-value is the paragraph's plus that tail. The
 * `tailOutside` flag selects between that behaviour (as written, `false`) and a
 * section that keeps the paragraph's tail after itself (`true`); only the
 * latter makes a second run a no-op in every case.
 */
module Semantics {
  import opened Strings
  import opened Wrappers
  import opened Xml

  const EpubType := "epub:type"

  predicate IsCopyrightSection(e: Element) {
    e.tag == "section" && Get(e, EpubType) == "copyright-page"
  }

  /** `//p[contains(., "Copyright")]`. */
  predicate IsCopyrightPara(e: Element) {
    e.tag == "p" && Contains(StringValue(e), "Copyright")
  }

  /** The section `p.addprevious(section); section.append(p)` leaves in p's place. */
  function NewSection(p: Element, tailOutside: bool): Element {
    if tailOutside then Element("section", map[EpubType := "copyright-page"], "", p.tail, [p.(tail := "")])
    else Element("section", map[EpubType := "copyright-page"], "", "", [p])
  }

  // ---------------------------------------------------------------------------
  // Chapter headings: `re.match(r'^\s*chapter\s+\d+', h.text, re.IGNORECASE)`

  function LowerChar(c: char): char {
    if 'A' <= c <= 'Z' then (c as int + 32) as char else c
  }

  function Lower(s: string): (r: string)
    ensures |r| == |s| && forall i :: 0 <= i < |s| ==> r[i] == LowerChar(s[i])
  {
    if s == [] then [] else [LowerChar(s[0])] + Lower(s[1..])
  }

  /** The regex match, read the way the regex engine scans: blanks, `chapter`, at least one blank, a digit. */
  predicate ChapterText(s: string) {
    var t := LStrip(s);
    |t| > 7 && Lower(t[..7]) == "chapter" && IsSpace(t[7])
      && var u := LStrip(t[7..]); |u| > 0 && IsDecimal(u[0])
  }

  /** Every character of `s` from position `lo` up to `hi` is blank. */
  predicate Blank(s: string, lo: int, hi: int)
    requires 0 <= lo <= hi <= |s|
  {
    forall k :: lo <= k < hi ==> IsSpace(s[k])
  }

  /** The regex as a pattern: a blank prefix, `chapter` in any case, a non-empty blank run, then a digit. */
  ghost predicate ChapterPattern(s: string) {
    exists i, j :: 0 <= i && i + 7 < j < |s|
      && Blank(s, 0, i) && Lower(s[i..i + 7]) == "chapter" && Blank(s, i + 7, j) && IsDecimal(s[j])
  }

  lemma {:induction false} LStripAt(s: string, k: nat)
    requires k <= |s| && Blank(s, 0, k) && (k == |s| || !IsSpace(s[k]))
    ensures LStrip(s) == s[k..]
  {
    if k > 0 {
      assert IsSpace(s[0]);
      assert forall m :: 0 <= m < k - 1 ==> s[1..][m] == s[m + 1];
      LStripAt(s[1..], k - 1);
    }
  }

  lemma ChapterTextIsPattern(s: string)
    requires ChapterText(s)
    ensures ChapterPattern(s)
  {
    var t := LStrip(s);
    var i := |s| - |t|;
    LStripSpec(s);
    var v := t[7..];
    var u := LStrip(v);
    var n := |v| - |u|;
    LStripSpec(v);
    assert s[i + 7..] == v;
    assert s[i..i + 7] == t[..7];
    assert u[0] == v[n];
    BlankShift(s, i + 7, n);
    WitnessPattern(s, i, i + 7 + n);
  }

  /** A blank run at the start of a suffix of `s` is a blank run of `s`. */
  lemma BlankShift(s: string, off: nat, n: nat)
    requires off + n <= |s| && Blank(s[off..], 0, n)
    ensures Blank(s, off, off + n)
  {
    forall k | off <= k < off + n ensures IsSpace(s[k]) {
      assert s[k] == s[off..][k - off];
    }
  }

  lemma WitnessPattern(s: string, i: nat, j: nat)
    requires i + 7 < j < |s|
    requires Blank(s, 0, i) && Lower(s[i..i + 7]) == "chapter" && Blank(s, i + 7, j) && IsDecimal(s[j])
    ensures ChapterPattern(s)
  {
  }

  lemma PatternIsChapterText(s: string, i: nat, j: nat)
    requires i + 7 < j < |s|
    requires Blank(s, 0, i) && Lower(s[i..i + 7]) == "chapter" && Blank(s, i + 7, j) && IsDecimal(s[j])
    ensures ChapterText(s)
  {
    assert LowerChar(s[i]) == 'c';
    LStripAt(s, i);
    var t := s[i..];
    assert t[..7] == s[i..i + 7];
    assert t[7] == s[i + 7];
    var n := j - i - 7;
    assert Blank(t, 7, 7 + n) by {
      forall m | 7 <= m < 7 + n ensures IsSpace(t[m]) {
        assert t[m] == s[i + m];
      }
    }
    assert t[7 + n] == s[j];
    DigitAfterBlanks(t, n);
  }

  /** After `chapter` and a blank run of `n` characters, a digit is what the second strip leaves first. */
  lemma DigitAfterBlanks(t: string, n: nat)
    requires 7 + n < |t| && Blank(t, 7, 7 + n) && IsDecimal(t[7 + n])
    ensures |LStrip(t[7..])| > 0 && IsDecimal(LStrip(t[7..])[0])
  {
    var v := t[7..];
    assert Blank(v, 0, n) by {
      forall m | 0 <= m < n ensures IsSpace(v[m]) {
        assert v[m] == t[7 + m];
      }
    }
    assert v[n] == t[7 + n];
    LStripAt(v, n);
  }

  /** The scanning reading and the pattern reading of the heading regex agree. */
  lemma ChapterTextMatches(s: string)
    ensures ChapterText(s) <==> ChapterPattern(s)
  {
    if ChapterText(s) {
      ChapterTextIsPattern(s);
    }
    if ChapterPattern(s) {
      var i, j :| 0 <= i && i + 7 < j < |s|
        && Blank(s, 0, i) && Lower(s[i..i + 7]) == "chapter" && Blank(s, i + 7, j) && IsDecimal(s[j]);
      PatternIsChapterText(s, i, j);
    }
  }

  /** The regex's `\s` is the Unicode class: `Chapter` and `1` separated by a no-break space match. */
  lemma NoBreakSpaceChapter()
    ensures ChapterText("Chapter\U{A0}1")
  {
    var s := "Chapter\U{A0}1";
    assert s[0..7] == "Chapter";
    assert Lower("Chapter") == "chapter";
    PatternIsChapterText(s, 0, 8);
  }

  /** The regex's `\d` is the Unicode class: an Arabic-Indic digit after an ideographic and an em space matches. */
  lemma UnicodeDigitChapter()
    ensures ChapterText("\U{3000}chapter\U{2003}\U{661}")
  {
    var s := "\U{3000}chapter\U{2003}\U{661}";
    assert s[1..8] == "chapter";
    assert Lower("chapter") == "chapter";
    PatternIsChapterText(s, 1, 9);
  }

  /** A heading the chapter step changes: h1/h2, matching direct text, not yet marked. */
  predicate NeedsChapterMark(e: Element) {
    IsHeading(e) && ChapterText(e.text) && Get(e, EpubType) != "chapter"
  }

  function ChapterFn(): Element -> map<string, string> {
    (x: Element) => if IsHeading(x) && ChapterText(x.text) then x.attrs[EpubType := "chapter"] else x.attrs
  }

  /** The chapter step over the body's descendants: the rewritten children and the number of headings changed. */
  function MarkChapters(cs: seq<Element>): (seq<Element>, nat)
  {
    (RelabelOf(cs, ChapterFn()), Count(NodesOf(cs), (x: Element) => NeedsChapterMark(x)))
  }

  /** Every h1/h2 below whose text matches carries `epub:type="chapter"`; no other element changes. */
  lemma MarkChaptersAt(cs: seq<Element>)
    ensures var out := NodesOf(MarkChapters(cs).0);
      && |out| == |NodesOf(cs)|
      && forall i :: 0 <= i < |out| ==>
        var x, y := NodesOf(cs)[i], out[i];
        && y.tag == x.tag && y.text == x.text && y.tail == x.tail
        && (IsHeading(x) && ChapterText(x.text) ==> y.attrs == x.attrs[EpubType := "chapter"])
        && (!(IsHeading(x) && ChapterText(x.text)) ==> y.attrs == x.attrs)
  {
    NodesOfRelabel(cs, ChapterFn());
  }

  // ---------------------------------------------------------------------------
  // Copyright paragraphs

  /**
   * The copyright step over a child list; `inside` says an ancestor already is
   * a copyright-page section. Returns the new children and the number of
   * sections created.
   */
  function Wrap(e: Element, inside: bool, tailOutside: bool): (Element, nat)
  {
    var (cs, k) := WrapOf(e.children, inside, tailOutside);
    (e.(children := cs), k)
  }

  function WrapOf(cs: seq<Element>, inside: bool, tailOutside: bool): (seq<Element>, nat)
  {
    if cs == [] then ([], 0)
    else
      var c := cs[0];
      var (rest, k) := WrapOf(cs[1..], inside, tailOutside);
      if IsCopyrightPara(c) && !inside then ([NewSection(c, tailOutside)] + rest, 1 + k)
      else
        var (c', k') := Wrap(c, inside || IsCopyrightSection(c), tailOutside);
        ([c'] + rest, k' + k)
  }

  /** Every Copyright paragraph has a copyright-page section among its ancestors. */
  predicate Wrapped(cs: seq<Element>, inside: bool)
  {
    cs == [] ||
    (!(IsCopyrightPara(cs[0]) && !inside)
      && Wrapped(cs[0].children, inside || IsCopyrightSection(cs[0]))
      && Wrapped(cs[1..], inside))
  }

  lemma {:induction false} WrappedInside(cs: seq<Element>)
    ensures Wrapped(cs, true)
  {
    if cs != [] {
      WrappedInside(cs[0].children);
      WrappedInside(cs[1..]);
    }
  }

  /** Wrapping keeps every element's string-value, the moved paragraphs' included. */
  lemma {:induction false} WrapKeepsText(e: Element, inside: bool, tailOutside: bool)
    ensures StringValue(Wrap(e, inside, tailOutside).0) == StringValue(e)
    ensures Wrap(e, inside, tailOutside).0.tag == e.tag && Wrap(e, inside, tailOutside).0.attrs == e.attrs
    ensures Wrap(e, inside, tailOutside).0.tail == e.tail
  {
    WrapOfKeepsText(e.children, inside, tailOutside);
  }

  lemma {:induction false} WrapOfKeepsText(cs: seq<Element>, inside: bool, tailOutside: bool)
    ensures ContentOf(WrapOf(cs, inside, tailOutside).0) == ContentOf(cs)
  {
    if cs != [] {
      var c := cs[0];
      var (rest, k) := WrapOf(cs[1..], inside, tailOutside);
      WrapOfKeepsText(cs[1..], inside, tailOutside);
      if IsCopyrightPara(c) && !inside {
        var s := NewSection(c, tailOutside);
        assert ([s] + rest)[1..] == rest;
        assert s.children[1..] == [];
        assert ContentOf(s.children) == StringValue(s.children[0]) + s.children[0].tail;
        assert StringValue(c.(tail := "")) == StringValue(c);
      } else {
        WrapKeepsText(c, inside || IsCopyrightSection(c), tailOutside);
        var (c', k') := Wrap(c, inside || IsCopyrightSection(c), tailOutside);
        assert ([c'] + rest)[1..] == rest;
      }
    }
  }

  /** After the copyright step no Copyright paragraph is left outside a copyright-page section. */
  lemma {:induction false} WrapOfWraps(cs: seq<Element>, inside: bool, tailOutside: bool)
    ensures Wrapped(WrapOf(cs, inside, tailOutside).0, inside)
  {
    if cs != [] {
      var c := cs[0];
      var (rest, k) := WrapOf(cs[1..], inside, tailOutside);
      WrapOfWraps(cs[1..], inside, tailOutside);
      if IsCopyrightPara(c) && !inside {
        var s := NewSection(c, tailOutside);
        assert ([s] + rest)[1..] == rest;
        WrappedInside(s.children);
      } else {
        var f := inside || IsCopyrightSection(c);
        WrapKeepsText(c, f, tailOutside);
        WrapOfWraps(c.children, f, tailOutside);
        var (c', k') := Wrap(c, f, tailOutside);
        assert ([c'] + rest)[1..] == rest;
      }
    }
  }

  /** A child list that is already wrapped is left alone. */
  lemma {:induction false} WrapOfWrapped(cs: seq<Element>, inside: bool, tailOutside: bool)
    requires Wrapped(cs, inside)
    ensures WrapOf(cs, inside, tailOutside) == (cs, 0)
  {
    if cs != [] {
      WrapOfWrapped(cs[1..], inside, tailOutside);
      WrapOfWrapped(cs[0].children, inside || IsCopyrightSection(cs[0]), tailOutside);
      assert [cs[0]] + cs[1..] == cs;
    }
  }

  /** The chapter step changes no tag, text or section mark, so a wrapped list stays wrapped. */
  lemma {:induction false} MarkKeepsWrapped(cs: seq<Element>, inside: bool)
    requires Wrapped(cs, inside)
    ensures Wrapped(RelabelOf(cs, ChapterFn()), inside)
  {
    if cs != [] {
      var c := cs[0];
      MarkKeepsKinds(c);
      MarkKeepsWrapped(c.children, inside || IsCopyrightSection(c));
      MarkKeepsWrapped(cs[1..], inside);
      var r := RelabelOf(cs, ChapterFn());
      assert r[0] == Relabel(c, ChapterFn());
      assert r[1..] == RelabelOf(cs[1..], ChapterFn());
    }
  }

  /** The chapter step leaves an element a Copyright paragraph or a copyright-page section exactly when it was one. */
  lemma MarkKeepsKinds(c: Element)
    ensures IsCopyrightPara(Relabel(c, ChapterFn())) == IsCopyrightPara(c)
    ensures IsCopyrightSection(Relabel(c, ChapterFn())) == IsCopyrightSection(c)
  {
    StringValueRelabel(c, ChapterFn());
  }

  /** Marking twice: the second pass finds nothing to change. */
  lemma MarkChaptersTwice(cs: seq<Element>)
    ensures MarkChapters(MarkChapters(cs).0) == (MarkChapters(cs).0, 0)
  {
    var once := MarkChapters(cs).0;
    MarkChaptersAt(cs);
    var src, out := NodesOf(cs), NodesOf(once);
    forall x | x in out ensures !NeedsChapterMark(x) && ChapterFn()(x) == x.attrs {
      var i :| 0 <= i < |out| && out[i] == x;
      MarkedSettled(src[i], x);
    }
    NoneCounted(out, (x: Element) => NeedsChapterMark(x));
    RelabelOfFixed(once, ChapterFn());
  }

  /** An element as the chapter step leaves it needs no mark and is a fixed point of the step. */
  lemma MarkedSettled(x: Element, y: Element)
    requires y.tag == x.tag && y.text == x.text
    requires IsHeading(x) && ChapterText(x.text) ==> y.attrs == x.attrs[EpubType := "chapter"]
    requires !(IsHeading(x) && ChapterText(x.text)) ==> y.attrs == x.attrs
    ensures !NeedsChapterMark(y) && ChapterFn()(y) == y.attrs
  {
    if IsHeading(x) && ChapterText(x.text) {
      assert Get(y, EpubType) == "chapter";
      assert y.attrs[EpubType := "chapter"] == y.attrs;
    }
  }

  lemma {:induction false} NoneCounted(s: seq<Element>, p: Element -> bool)
    requires forall x :: x in s ==> !p(x)
    ensures Count(s, p) == 0
  {
    if s != [] {
      NoneCounted(s[1..], p);
    }
  }

  /** Relabelling with a function that already gives every element its own attributes changes nothing. */
  lemma {:induction false} RelabelOfFixed(cs: seq<Element>, f: Element -> map<string, string>)
    requires forall x :: x in NodesOf(cs) ==> f(x) == x.attrs
    ensures RelabelOf(cs, f) == cs
  {
    if cs != [] {
      assert [cs[0]] + cs[1..] == cs;
      NodesOfConcat([cs[0]], cs[1..]);
      assert Nodes(cs[0]) == [cs[0]] + NodesOf(cs[0].children);
      RelabelOfFixed(cs[0].children, f);
      RelabelOfFixed(cs[1..], f);
    }
  }

  // ---------------------------------------------------------------------------
  // Title page and the body

  /** Some element of the lists' subtrees has a string-value containing `t` (any descendant whose string-value contains t). */
  predicate TitleIn(cs: seq<Element>, t: string)
  {
    cs != [] && (Contains(StringValue(cs[0]), t) || TitleIn(cs[0].children, t) || TitleIn(cs[1..], t))
  }

  /** The recursive title query is the XPath query over the descendants. */
  lemma {:induction false} TitleInNodes(cs: seq<Element>, t: string)
    ensures TitleIn(cs, t) <==> exists d :: d in NodesOf(cs) && Contains(StringValue(d), t)
  {
    if cs != [] {
      var a, b := NodesOf(cs[0].children), NodesOf(cs[1..]);
      TitleInNodes(cs[0].children, t);
      TitleInNodes(cs[1..], t);
      assert NodesOf(cs) == [cs[0]] + a + b;
      if TitleIn(cs, t) {
        if Contains(StringValue(cs[0]), t) {
          assert cs[0] in NodesOf(cs);
        } else if TitleIn(cs[0].children, t) {
          var d :| d in a && Contains(StringValue(d), t);
          assert d in NodesOf(cs);
        } else {
          var d :| d in b && Contains(StringValue(d), t);
          assert d in NodesOf(cs);
        }
      }
      if exists d :: d in NodesOf(cs) && Contains(StringValue(d), t) {
        var d :| d in NodesOf(cs) && Contains(StringValue(d), t);
        if d != cs[0] && d !in a {
          assert d in b;
        }
      }
    }
  }

  /** With the tail kept outside, wrapping creates no new string-value, so the title query answers the same. */
  lemma {:induction false} WrapKeepsTitle(cs: seq<Element>, inside: bool, t: string)
    ensures TitleIn(WrapOf(cs, inside, true).0, t) == TitleIn(cs, t)
  {
    if cs != [] {
      var c := cs[0];
      var (rest, k) := WrapOf(cs[1..], inside, true);
      WrapKeepsTitle(cs[1..], inside, t);
      if IsCopyrightPara(c) && !inside {
        var s := NewSection(c, true);
        assert ([s] + rest)[1..] == rest;
        assert s.children[1..] == [];
        assert ContentOf(s.children) == StringValue(s.children[0]) + s.children[0].tail;
        assert StringValue(c.(tail := "")) == StringValue(c);
        assert StringValue(s) == StringValue(c);
        assert TitleIn(s.children, t) == (Contains(StringValue(c), t) || TitleIn(c.children, t));
      } else {
        var f := inside || IsCopyrightSection(c);
        WrapKeepsText(c, f, true);
        WrapKeepsTitle(c.children, f, t);
        var (c', k') := Wrap(c, f, true);
        assert ([c'] + rest)[1..] == rest;
      }
    }
  }

  lemma {:induction false} MarkKeepsTitle(cs: seq<Element>, t: string)
    ensures TitleIn(RelabelOf(cs, ChapterFn()), t) == TitleIn(cs, t)
  {
    if cs != [] {
      StringValueRelabel(cs[0], ChapterFn());
      MarkKeepsTitle(cs[0].children, t);
      MarkKeepsTitle(cs[1..], t);
      assert RelabelOf(cs, ChapterFn())[1..] == RelabelOf(cs[1..], ChapterFn());
    }
  }

  /** The title step's condition: a non-empty title occurs below the body, which is not yet a title page. */
  predicate SetsTitle(b: Element, title: string) {
    title != "" && TitleIn(b.children, title) && !Contains(Get(b, EpubType), "titlepage")
  }

  function TitleStep(b: Element, title: string): Element {
    if SetsTitle(b, title) then b.(attrs := b.attrs[EpubType := "bodymatter titlepage"]) else b
  }

  /** The copyright step, then the chapter step, on the body's children; the count adds both. */
  function BodySteps(cs: seq<Element>, inside: bool, tailOutside: bool): (seq<Element>, nat)
  {
    var (wrapped, k2) := WrapOf(cs, inside, tailOutside);
    var (marked, k3) := MarkChapters(wrapped);
    (marked, k2 + k3)
  }

  /** The three steps on the body found; `inside` says an ancestor of the body is a copyright-page section. */
  function TransformBody(b: Element, inside: bool, title: string, tailOutside: bool): (Element, nat)
  {
    var (cs, k) := BodySteps(b.children, inside, tailOutside);
    (TitleStep(b, title).(children := cs), (if SetsTitle(b, title) then 1 else 0) + k)
  }

  predicate HasBody(e: Element) {
    e.tag == "body" || HasBodyOf(e.children)
  }

  predicate HasBodyOf(cs: seq<Element>) {
    cs != [] && (HasBody(cs[0]) || HasBodyOf(cs[1..]))
  }

  /** Apply the body steps to the first `body` in document order (`doc.find('.//body')`). */
  function OnBody(e: Element, inside: bool, title: string, tailOutside: bool): (Element, nat)
  {
    if e.tag == "body" then TransformBody(e, inside, title, tailOutside)
    else
      var (cs, k) := OnBodyOf(e.children, inside || IsCopyrightSection(e), title, tailOutside);
      (e.(children := cs), k)
  }

  function OnBodyOf(cs: seq<Element>, inside: bool, title: string, tailOutside: bool): (seq<Element>, nat)
  {
    if cs == [] then ([], 0)
    else if HasBody(cs[0]) then
      var (c, k) := OnBody(cs[0], inside, title, tailOutside);
      ([c] + cs[1..], k)
    else
      var (rest, k) := OnBodyOf(cs[1..], inside, title, tailOutside);
      ([cs[0]] + rest, k)
  }

  /**
   * `add_semantic_structure(doc, book_title)` with the paragraph's tail
   * placement chosen by `tailOutside`. No body: nothing happens and 0 is
   * returned. A title holding `"` breaks the quoted XPath literal and raises.
   */
  function Semantic(doc: Element, title: string, tailOutside: bool): Result<(Element, nat)>
  {
    if !HasBodyOf(doc.children) then Ok((doc, 0))
    else if title != "" && '"' in title then Raised("XPathEvalError")
    else
      var (cs, k) := OnBodyOf(doc.children, IsCopyrightSection(doc), title, tailOutside);
      Ok((doc.(children := cs), k))
  }

  /** The tagger as the source has it: the moved paragraph takes its tail into the section. */
  function SemanticAsWritten(doc: Element, title: string): Result<(Element, nat)>
  {
    Semantic(doc, title, false)
  }

  /** The tagger with the paragraph's tail left after the new section. */
  function AddSemanticStructure(doc: Element, title: string): Result<(Element, nat)>
  {
    Semantic(doc, title, true)
  }

  /** Without a body the tagger changes nothing and returns 0, whatever the title. */
  lemma NoBodyNoChange(doc: Element, title: string, tailOutside: bool)
    requires !HasBodyOf(doc.children)
    ensures Semantic(doc, title, tailOutside) == Ok((doc, 0))
  {
  }

  /** The copyright and chapter steps leave nothing to do for a second run. */
  lemma BodyStepsTwice(cs: seq<Element>, inside: bool)
    ensures var out := BodySteps(cs, inside, true).0;
      BodySteps(out, inside, true) == (out, 0)
  {
    var wrapped := WrapOf(cs, inside, true).0;
    var out := MarkChapters(wrapped).0;
    WrapOfWraps(cs, inside, true);
    MarkKeepsWrapped(wrapped, inside);
    WrapOfWrapped(out, inside, true);
    MarkChaptersTwice(wrapped);
  }

  lemma BodyStepsKeepTitle(cs: seq<Element>, inside: bool, t: string)
    ensures TitleIn(BodySteps(cs, inside, true).0, t) == TitleIn(cs, t)
  {
    WrapKeepsTitle(cs, inside, t);
    MarkKeepsTitle(WrapOf(cs, inside, true).0, t);
  }

  /** Once the title step has run, and the title query answers as before, it does not fire again. */
  lemma TitleStepSettles(b: Element, title: string, cs: seq<Element>)
    requires TitleIn(cs, title) == TitleIn(b.children, title)
    ensures !SetsTitle(TitleStep(b, title).(children := cs), title)
  {
    if SetsTitle(b, title) {
      ContainsAt("bodymatter titlepage", "titlepage", 11);
    }
  }

  lemma TransformBodyTwice(b: Element, inside: bool, title: string)
    requires b.tag == "body"
    ensures var b' := TransformBody(b, inside, title, true).0;
      b'.tag == "body" && TransformBody(b', inside, title, true) == (b', 0)
  {
    var cs := BodySteps(b.children, inside, true).0;
    BodyStepsKeepTitle(b.children, inside, title);
    TitleStepSettles(b, title, cs);
    BodyStepsTwice(b.children, inside);
  }

  lemma {:induction false} OnBodyTwice(e: Element, inside: bool, title: string)
    requires HasBody(e)
    ensures var e' := OnBody(e, inside, title, true).0;
      HasBody(e') && e'.tag == e.tag && IsCopyrightSection(e') == IsCopyrightSection(e)
      && OnBody(e', inside, title, true) == (e', 0)
  {
    if e.tag == "body" {
      TransformBodyTwice(e, inside, title);
    } else {
      OnBodyOfTwice(e.children, inside || IsCopyrightSection(e), title);
    }
  }

  lemma {:induction false} OnBodyOfTwice(cs: seq<Element>, inside: bool, title: string)
    requires HasBodyOf(cs)
    ensures var cs' := OnBodyOf(cs, inside, title, true).0;
      HasBodyOf(cs') && OnBodyOf(cs', inside, title, true) == (cs', 0)
  {
    if HasBody(cs[0]) {
      OnBodyTwice(cs[0], inside, title);
      var (c, k) := OnBody(cs[0], inside, title, true);
      assert ([c] + cs[1..])[0] == c && ([c] + cs[1..])[1..] == cs[1..];
    } else {
      OnBodyOfTwice(cs[1..], inside, title);
      var (rest, k) := OnBodyOf(cs[1..], inside, title, true);
      assert ([cs[0]] + rest)[0] == cs[0] && ([cs[0]] + rest)[1..] == rest;
    }
  }

  /** Applying the (corrected) tagger to its own output changes nothing and returns 0. */
  lemma AddSemanticStructureIdempotent(doc: Element, title: string)
    requires AddSemanticStructure(doc, title).Ok?
    ensures var once := AddSemanticStructure(doc, title).value.0;
      AddSemanticStructure(once, title) == Ok((once, 0))
  {
    if HasBodyOf(doc.children) {
      OnBodyOfTwice(doc.children, IsCopyrightSection(doc), title);
    }
  }

  /** The example document: a body holding one Copyright paragraph with tail " X". */
  function CopyrightDoc(): Element {
    Element("html", map[], "", "", [
      Element("body", map[], "", "", [Element("p", map[], "Copyright", " X", [])])])
  }

  /** What the as-written tagger leaves of the example: the paragraph, tail and all, inside a new section. */
  function CopyrightDocOnce(): Element {
    Element("html", map[], "", "", [
      Element("body", map[], "", "", [NewSection(Element("p", map[], "Copyright", " X", []), false)])])
  }

  lemma ExampleWrap()
    ensures var p := Element("p", map[], "Copyright", " X", []);
      WrapOf([p], false, false) == ([NewSection(p, false)], 1)
  {
    var p := Element("p", map[], "Copyright", " X", []);
    assert StringValue(p) == "Copyright";
    assert Contains("Copyright", "Copyright");
    assert IsCopyrightPara(p);
    assert [p][1..] == [];
    assert WrapOf([], false, false) == ([], 0);
    assert [NewSection(p, false)] + [] == [NewSection(p, false)];
  }

  lemma ExampleMark()
    ensures var sec := NewSection(Element("p", map[], "Copyright", " X", []), false);
      MarkChapters([sec]) == ([sec], 0)
  {
    var p := Element("p", map[], "Copyright", " X", []);
    NoHeadingsUnmarked(NewSection(p, false), p);
  }

  /** A non-heading holding one childless non-heading is left alone by the chapter step. */
  lemma NoHeadingsUnmarked(sec: Element, p: Element)
    requires sec.children == [p] && p.children == [] && !IsHeading(sec) && !IsHeading(p)
    ensures MarkChapters([sec]) == ([sec], 0)
  {
    assert NodesOf([sec]) == [sec, p] by {
      assert [sec][1..] == [] && [p][1..] == [];
      assert Nodes(p) == [p];
      assert NodesOf([p]) == [p];
      assert Nodes(sec) == [sec, p];
    }
    RelabelOfFixed([sec], ChapterFn());
    NoneCounted(NodesOf([sec]), (x: Element) => NeedsChapterMark(x));
  }

  lemma ExampleBody()
    ensures var p := Element("p", map[], "Copyright", " X", []);
      var body := Element("body", map[], "", "", [p]);
      TransformBody(body, false, "X", false) == (body.(children := [NewSection(p, false)]), 1)
  {
    ExampleNoTitle();
    ExampleSteps();
  }

  /** Before the first run no element's string-value contains the title "X". */
  lemma ExampleNoTitle()
    ensures !SetsTitle(Element("body", map[], "", "", [Element("p", map[], "Copyright", " X", [])]), "X")
  {
    NotContains("Copyright", "X");
    LeafNoTitle(Element("p", map[], "Copyright", " X", []), "X");
  }

  /** A lone childless element whose text lacks the title holds no title. */
  lemma LeafNoTitle(c: Element, t: string)
    requires c.children == [] && !Contains(c.text, t)
    ensures !TitleIn([c], t)
  {
    assert StringValue(c) == c.text;
    assert [c][1..] == [];
  }

  lemma ExampleSteps()
    ensures var p := Element("p", map[], "Copyright", " X", []);
      BodySteps([p], false, false) == ([NewSection(p, false)], 1)
  {
    ExampleWrap();
    ExampleMark();
  }

  lemma AsWrittenFirstRun()
    ensures SemanticAsWritten(CopyrightDoc(), "X") == Ok((CopyrightDocOnce(), 1))
  {
    ExampleOnBody();
    var p := Element("p", map[], "Copyright", " X", []);
    var body := Element("body", map[], "", "", [p]);
    var body1 := body.(children := [NewSection(p, false)]);
    assert CopyrightDoc().children == [body];
    assert HasBodyOf(CopyrightDoc().children);
    assert !IsCopyrightSection(CopyrightDoc());
    assert CopyrightDocOnce() == CopyrightDoc().(children := [body1]);
  }

  lemma ExampleOnBody()
    ensures var p := Element("p", map[], "Copyright", " X", []);
      var body := Element("body", map[], "", "", [p]);
      OnBodyOf([body], false, "X", false) == ([body.(children := [NewSection(p, false)])], 1)
  {
    var p := Element("p", map[], "Copyright", " X", []);
    OnBodySingle(Element("body", map[], "", "", [p]), false, "X", false);
    ExampleBody();
  }

  /** A list holding one body is the transformed body. */
  lemma OnBodySingle(body: Element, inside: bool, title: string, tailOutside: bool)
    requires body.tag == "body"
    ensures OnBodyOf([body], inside, title, tailOutside) == ([TransformBody(body, inside, title, tailOutside).0], TransformBody(body, inside, title, tailOutside).1)
  {
    assert HasBody(body) && [body][0] == body && [body][1..] == [];
    var c := TransformBody(body, inside, title, tailOutside).0;
    assert OnBody(body, inside, title, tailOutside) == TransformBody(body, inside, title, tailOutside);
    assert [c] + [body][1..] == [c];
  }

  lemma AsWrittenSecondRun()
    ensures SemanticAsWritten(CopyrightDocOnce(), "X").Ok?
    ensures SemanticAsWritten(CopyrightDocOnce(), "X").value.1 > 0
  {
    var p := Element("p", map[], "Copyright", " X", []);
    var sec := NewSection(p, false);
    var body := Element("body", map[], "", "", [sec]);
    assert HasBody(body) && [body][1..] == [];
    assert StringValue(sec) == "Copyright X";
    ContainsAt("Copyright X", "X", 10);
    assert TitleIn(body.children, "X");
    NotContains("", "titlepage");
    assert SetsTitle(body, "X");
    assert OnBody(body, false, "X", false).1 > 0;
  }

  /**
   * As written, a second run can change the document again: the paragraph's
   * tail " X" moves into the new section, whose string-value then contains the
   * title "X" that no element's string-value contained before.
   */
  lemma SemanticAsWrittenNotIdempotent()
    ensures var once := SemanticAsWritten(CopyrightDoc(), "X");
      once.Ok? && SemanticAsWritten(once.value.0, "X").Ok? && SemanticAsWritten(once.value.0, "X").value.1 > 0
  {
    AsWrittenFirstRun();
    AsWrittenSecondRun();
  }
}
