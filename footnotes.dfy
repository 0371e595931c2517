/**
 * The two-pass footnote linker of epubstandard.py (`process_footnotes`).
 * Pass 1 stamps every note-call anchor with a fresh back-link id and records,
 * per target fragment, the hrefs pointing back at the calls. Pass 2 marks the
 * first element carrying each recorded id as a footnote and appends one
 * back-link per recorded call, unless the note already holds a back-link.
 */
module Footnotes {
  import opened Strings
  import opened Xml
  import opened Files

  const EpubType := "epub:type"
  /** The text of an appended back-link: a space and U+21A9. */
  const Arrow := " \U{21A9}"

  // ---------------------------------------------------------------------------
  // Pass 1: note calls

  /** `//a[starts-with(@href, "#fn") or starts-with(@href, "#note")]`. */
  predicate IsNoteCall(e: Element) {
    e.tag == "a" && (StartsWith(Get(e, "href"), "#fn") || StartsWith(Get(e, "href"), "#note"))
  }

  /** The id given to the `k`-th call stamped, `uuids(k)` standing for a new uuid4. */
  function BacklinkId(uuids: nat -> string, k: nat): string {
    "backlink-" + uuids(k)
  }

  /** One note call: the fragment it targets and the href leading back to the call. */
  datatype Call = Call(fragment: string, backlink: string)

  /**
   * Pass 1 on one document named `name`: stamp the calls in document order,
   * numbering them from `k`, and list the calls found.
   */
  function Stamp(e: Element, name: string, uuids: nat -> string, k: nat): (Element, seq<Call>)
  {
    if IsNoteCall(e) then
      var id := BacklinkId(uuids, k);
      var below := StampOf(e.children, name, uuids, k + 1);
      (e.(attrs := e.attrs["id" := id][EpubType := "noteref"], children := below.0),
       [Call(LStripChar(Get(e, "href"), '#'), name + "#" + id)] + below.1)
    else
      var below := StampOf(e.children, name, uuids, k);
      (e.(children := below.0), below.1)
  }

  function StampOf(cs: seq<Element>, name: string, uuids: nat -> string, k: nat): (seq<Element>, seq<Call>)
  {
    if cs == [] then ([], [])
    else
      var first := Stamp(cs[0], name, uuids, k);
      var rest := StampOf(cs[1..], name, uuids, k + |first.1|);
      ([first.0] + rest.0, first.1 + rest.1)
  }

  /** The calls recorded for the anchors `links`, numbered from `k`: fragment without leading `#`, `name#id`. */
  function CallsFor(links: seq<Element>, name: string, uuids: nat -> string, k: nat): (r: seq<Call>)
    ensures |r| == |links|
    decreases links
  {
    if links == [] then []
    else
      [Call(LStripChar(Get(links[0], "href"), '#'), name + "#" + BacklinkId(uuids, k))]
      + CallsFor(links[1..], name, uuids, k + 1)
  }

  lemma {:induction false} CallsForConcat(a: seq<Element>, b: seq<Element>, name: string, uuids: nat -> string, k: nat)
    ensures CallsFor(a + b, name, uuids, k) == CallsFor(a, name, uuids, k) + CallsFor(b, name, uuids, k + |a|)
    decreases a
  {
    if a == [] {
      assert a + b == b;
    } else {
      var c := Call(LStripChar(Get(a[0], "href"), '#'), name + "#" + BacklinkId(uuids, k));
      assert (a + b)[0] == a[0];
      assert (a + b)[1..] == a[1..] + b;
      CallsForConcat(a[1..], b, name, uuids, k + 1);
      assert CallsFor(a + b, name, uuids, k) == [c] + CallsFor(a[1..] + b, name, uuids, k + 1);
      assert CallsFor(a, name, uuids, k) == [c] + CallsFor(a[1..], name, uuids, k + 1);
    }
  }

  /** The note-call anchors of a tree in document order. */
  function NoteCalls(e: Element): seq<Element>
  {
    (if IsNoteCall(e) then [e] else []) + NoteCallsOf(e.children)
  }

  function NoteCallsOf(cs: seq<Element>): seq<Element>
  {
    if cs == [] then [] else NoteCalls(cs[0]) + NoteCallsOf(cs[1..])
  }

  /** The structural list is the XPath query: the note calls among all elements, in document order. */
  lemma {:induction false} NoteCallsQuery(e: Element)
    ensures NoteCalls(e) == Filter(Nodes(e), IsNoteCall)
  {
    NoteCallsOfQuery(e.children);
    FilterConcat([e], NodesOf(e.children), IsNoteCall);
    assert [e][1..] == [];
  }

  lemma {:induction false} NoteCallsOfQuery(cs: seq<Element>)
    ensures NoteCallsOf(cs) == Filter(NodesOf(cs), IsNoteCall)
  {
    if cs != [] {
      NoteCallsQuery(cs[0]);
      NoteCallsOfQuery(cs[1..]);
      FilterConcat(Nodes(cs[0]), NodesOf(cs[1..]), IsNoteCall);
    }
  }

  lemma StampOfSplit(cs: seq<Element>, name: string, uuids: nat -> string, k: nat)
    requires cs != []
    ensures StampOf(cs, name, uuids, k).0
      == [Stamp(cs[0], name, uuids, k).0] + StampOf(cs[1..], name, uuids, k + |Stamp(cs[0], name, uuids, k).1|).0
    ensures StampOf(cs, name, uuids, k).1
      == Stamp(cs[0], name, uuids, k).1 + StampOf(cs[1..], name, uuids, k + |Stamp(cs[0], name, uuids, k).1|).1
  {
  }

  /** Pass 1 records one call per note-call anchor of the document, in document order. */
  lemma {:induction false} StampCalls(e: Element, name: string, uuids: nat -> string, k: nat)
    ensures Stamp(e, name, uuids, k).1 == CallsFor(NoteCalls(e), name, uuids, k)
  {
    var f := NoteCallsOf(e.children);
    if IsNoteCall(e) {
      StampOfCalls(e.children, name, uuids, k + 1);
      assert ([e] + f)[0] == e && ([e] + f)[1..] == f;
    } else {
      StampOfCalls(e.children, name, uuids, k);
      assert [] + f == f;
    }
  }

  lemma {:induction false} StampOfCalls(cs: seq<Element>, name: string, uuids: nat -> string, k: nat)
    ensures StampOf(cs, name, uuids, k).1 == CallsFor(NoteCallsOf(cs), name, uuids, k)
  {
    if cs != [] {
      StampOfSplit(cs, name, uuids, k);
      StampCalls(cs[0], name, uuids, k);
      StampOfCalls(cs[1..], name, uuids, k + |Stamp(cs[0], name, uuids, k).1|);
      CallsForConcat(NoteCalls(cs[0]), NoteCallsOf(cs[1..]), name, uuids, k);
    }
  }

  /** The anchors `links` carry ids `BacklinkId(uuids, k)`, `BacklinkId(uuids, k + 1)`, ... and `epub:type="noteref"`. */
  predicate StampedFrom(links: seq<Element>, uuids: nat -> string, k: nat)
  {
    forall i :: 0 <= i < |links| ==>
      Get(links[i], "id") == BacklinkId(uuids, k + i) && Get(links[i], EpubType) == "noteref"
  }

  lemma StampedConcat(a: seq<Element>, b: seq<Element>, uuids: nat -> string, k: nat)
    requires StampedFrom(a, uuids, k) && StampedFrom(b, uuids, k + |a|)
    ensures StampedFrom(a + b, uuids, k)
  {
    forall i | 0 <= i < |a + b|
      ensures Get((a + b)[i], "id") == BacklinkId(uuids, k + i) && Get((a + b)[i], EpubType) == "noteref"
    {
      if i >= |a| {
        assert (a + b)[i] == b[i - |a|];
        assert k + |a| + (i - |a|) == k + i;
      }
    }
  }

  /**
   * In the stamped document the `i`-th note call carries id `BacklinkId(uuids, k + i)`
   * and `epub:type="noteref"`; stamping neither adds nor removes calls.
   */
  lemma {:induction false} StampMarks(e: Element, name: string, uuids: nat -> string, k: nat)
    ensures |NoteCalls(Stamp(e, name, uuids, k).0)| == |NoteCalls(e)|
    ensures StampedFrom(NoteCalls(Stamp(e, name, uuids, k).0), uuids, k)
  {
    var out := Stamp(e, name, uuids, k).0;
    assert Get(out, "href") == Get(e, "href");
    if IsNoteCall(e) {
      StampOfMarks(e.children, name, uuids, k + 1);
      StampedConcat([out], NoteCallsOf(out.children), uuids, k);
    } else {
      StampOfMarks(e.children, name, uuids, k);
      assert [] + NoteCallsOf(out.children) == NoteCallsOf(out.children);
    }
  }

  lemma {:induction false} StampOfMarks(cs: seq<Element>, name: string, uuids: nat -> string, k: nat)
    ensures |NoteCallsOf(StampOf(cs, name, uuids, k).0)| == |NoteCallsOf(cs)|
    ensures StampedFrom(NoteCallsOf(StampOf(cs, name, uuids, k).0), uuids, k)
  {
    if cs != [] {
      var first := Stamp(cs[0], name, uuids, k);
      var k' := k + |first.1|;
      StampOfSplit(cs, name, uuids, k);
      StampCalls(cs[0], name, uuids, k);
      StampMarks(cs[0], name, uuids, k);
      StampOfMarks(cs[1..], name, uuids, k');
      var out := StampOf(cs, name, uuids, k).0;
      var rest := StampOf(cs[1..], name, uuids, k').0;
      assert k' == k + |NoteCalls(first.0)|;
      assert out == [first.0] + rest;
      NoteCallsCons(first.0, rest);
      StampedConcat(NoteCalls(first.0), NoteCallsOf(rest), uuids, k);
    }
  }

  lemma NoteCallsCons(x: Element, rest: seq<Element>)
    ensures NoteCallsOf([x] + rest) == NoteCalls(x) + NoteCallsOf(rest)
  {
    assert ([x] + rest)[0] == x && ([x] + rest)[1..] == rest;
  }

  /**
   * Every recorded back-link href is `name#id` for the id pass 1 gave the
   * matching call, so following it leads to the stamped anchor.
   */
  lemma StampLinksBack(e: Element, name: string, uuids: nat -> string, k: nat)
    ensures var out, calls := Stamp(e, name, uuids, k).0, Stamp(e, name, uuids, k).1;
      var links := Filter(Nodes(out), IsNoteCall);
      && |calls| == |links|
      && forall i :: 0 <= i < |calls| ==> calls[i].backlink == name + "#" + Get(links[i], "id")
  {
    StampCalls(e, name, uuids, k);
    StampMarks(e, name, uuids, k);
    NoteCallsQuery(Stamp(e, name, uuids, k).0);
    CallsForAt(NoteCalls(e), name, uuids, k);
  }

  lemma {:induction false} CallsForAt(links: seq<Element>, name: string, uuids: nat -> string, k: nat)
    ensures forall i :: 0 <= i < |links| ==>
      CallsFor(links, name, uuids, k)[i] == Call(LStripChar(Get(links[i], "href"), '#'), name + "#" + BacklinkId(uuids, k + i))
    decreases links
  {
    if links != [] {
      CallsForAt(links[1..], name, uuids, k + 1);
    }
  }

  // ---------------------------------------------------------------------------
  // The note map: fragment -> back-link hrefs, in first-seen order

  type NoteMap = seq<(string, seq<string>)>

  /** `note_call_map.get(fragment, [])`. */
  function Lookup(m: NoteMap, fragment: string): seq<string>
  {
    if m == [] then [] else if m[0].0 == fragment then m[0].1 else Lookup(m[1..], fragment)
  }

  predicate KeysDistinct(m: NoteMap) {
    forall i, j :: 0 <= i < j < |m| ==> m[i].0 != m[j].0
  }

  /** Record one call: append to the fragment's entry, or add an entry at the end. */
  function AddCall(m: NoteMap, c: Call): NoteMap
  {
    if m == [] then [(c.fragment, [c.backlink])]
    else if m[0].0 == c.fragment then [(m[0].0, m[0].1 + [c.backlink])] + m[1..]
    else [m[0]] + AddCall(m[1..], c)
  }

  function AddCalls(m: NoteMap, calls: seq<Call>): NoteMap
    decreases calls
  {
    if calls == [] then m else AddCalls(AddCall(m, calls[0]), calls[1..])
  }

  function Keys(m: NoteMap): seq<string>
  {
    seq(|m|, j requires 0 <= j < |m| => m[j].0)
  }

  /** The back-link hrefs of those `calls` that target `fragment`, in order. */
  function BacklinksFor(calls: seq<Call>, fragment: string): seq<string>
  {
    if calls == [] then []
    else (if calls[0].fragment == fragment then [calls[0].backlink] else []) + BacklinksFor(calls[1..], fragment)
  }

  /** Recording a call behaves like appending to a dictionary entry, and keeps one entry per fragment. */
  lemma {:induction false} AddCallLookup(m: NoteMap, c: Call)
    requires KeysDistinct(m)
    ensures KeysDistinct(AddCall(m, c))
    ensures forall f :: Lookup(AddCall(m, c), f) == Lookup(m, f) + (if f == c.fragment then [c.backlink] else [])
    ensures forall f :: f in Keys(AddCall(m, c)) <==> f in Keys(m) || f == c.fragment
  {
    var r := AddCall(m, c);
    if m == [] {
      assert r[1..] == [] && Keys(r) == [c.fragment];
    } else if m[0].0 == c.fragment {
      assert |r| == |m| && forall i :: 0 <= i < |m| ==> r[i].0 == m[i].0;
      assert Keys(r) == Keys(m);
      assert Keys(m)[0] == c.fragment;
      assert r[1..] == m[1..];
      forall f ensures Lookup(r, f) == Lookup(m, f) + (if f == c.fragment then [c.backlink] else []) {
        if f != c.fragment {
          assert Lookup(r, f) == Lookup(m[1..], f);
        }
      }
    } else {
      assert KeysDistinct(m[1..]) by {
        forall i, j | 0 <= i < j < |m[1..]| ensures m[1..][i].0 != m[1..][j].0 {
          assert m[1..][i] == m[i + 1] && m[1..][j] == m[j + 1];
        }
      }
      AddCallLookup(m[1..], c);
      assert r[1..] == AddCall(m[1..], c);
      assert m[0].0 !in Keys(m[1..]) by {
        forall j | 0 <= j < |m[1..]| ensures Keys(m[1..])[j] != m[0].0 {
          assert m[1..][j] == m[j + 1];
        }
      }
      forall i, j | 0 <= i < j < |r| ensures r[i].0 != r[j].0 {
        if i == 0 {
          assert Keys(r[1..])[j - 1] == r[j].0;
        } else {
          assert r[i] == r[1..][i - 1] && r[j] == r[1..][j - 1];
        }
      }
      assert Keys(r) == [m[0].0] + Keys(r[1..]);
      assert Keys(m) == [m[0].0] + Keys(m[1..]);
      forall f ensures f in Keys(r) <==> f in Keys(m) || f == c.fragment {
        assert f in Keys(r) <==> f == m[0].0 || f in Keys(r[1..]);
        assert f in Keys(m) <==> f == m[0].0 || f in Keys(m[1..]);
      }
    }
  }

  /**
   * Pass 1's map after recording `calls`: each fragment's list grows by the
   * back-links of the calls that target it, in call order, and keys stay unique.
   */
  lemma {:induction false} AddCallsLookup(m: NoteMap, calls: seq<Call>)
    requires KeysDistinct(m)
    ensures KeysDistinct(AddCalls(m, calls))
    ensures forall f :: Lookup(AddCalls(m, calls), f) == Lookup(m, f) + BacklinksFor(calls, f)
    decreases calls
  {
    if calls != [] {
      AddCallLookup(m, calls[0]);
      AddCallsLookup(AddCall(m, calls[0]), calls[1..]);
    }
  }

  // ---------------------------------------------------------------------------
  // Pass 2: marking one note

  /** `a[contains(@class, "backlink")]`. */
  predicate IsBacklinkAnchor(e: Element) {
    e.tag == "a" && Contains(Get(e, "class"), "backlink")
  }

  /** `x.xpath('.//a[contains(@class, "backlink")]')` is non-empty: some proper descendant is a back-link. */
  predicate HasBacklink(x: Element) {
    BacklinkAmong(x.children)
  }

  predicate BacklinkAmong(cs: seq<Element>) {
    cs != [] && (IsBacklinkAnchor(cs[0]) || BacklinkAmong(cs[0].children) || BacklinkAmong(cs[1..]))
  }

  /** The structural test is the XPath query over the descendants. */
  lemma {:induction false} BacklinkAmongQuery(cs: seq<Element>)
    ensures BacklinkAmong(cs) <==> Filter(NodesOf(cs), IsBacklinkAnchor) != []
  {
    if cs != [] {
      BacklinkAmongQuery(cs[0].children);
      BacklinkAmongQuery(cs[1..]);
      FilterConcat(Nodes(cs[0]), NodesOf(cs[1..]), IsBacklinkAnchor);
      FilterConcat([cs[0]], NodesOf(cs[0].children), IsBacklinkAnchor);
      assert [cs[0]][1..] == [];
    }
  }

  lemma {:induction false} BacklinkChild(cs: seq<Element>, i: nat)
    requires i < |cs| && IsBacklinkAnchor(cs[i])
    ensures BacklinkAmong(cs)
  {
    if i > 0 {
      assert cs[1..][i - 1] == cs[i];
      BacklinkChild(cs[1..], i - 1);
    }
  }

  /** `<a href=href class="backlink"> ↩</a>`. */
  function BacklinkAnchor(href: string): Element {
    Element("a", map["href" := href, "class" := "backlink"], Arrow, "", [])
  }

  /** Append one back-link: a space goes after the last child, or after the text when there is none. */
  function AppendBacklink(x: Element, href: string): Element
  {
    if x.children == [] then x.(text := x.text + " ", children := [BacklinkAnchor(href)])
    else
      var n := |x.children| - 1;
      x.(children := x.children[..n] + [x.children[n].(tail := x.children[n].tail + " ")] + [BacklinkAnchor(href)])
  }

  function AppendBacklinks(x: Element, hrefs: seq<string>): Element
    decreases hrefs
  {
    if hrefs == [] then x else AppendBacklinks(AppendBacklink(x, hrefs[0]), hrefs[1..])
  }

  /** What `n` appended back-links add to a note's text: a space and ` ↩` each. */
  function Arrows(n: nat): string {
    if n == 0 then "" else " " + Arrow + Arrows(n - 1)
  }

  lemma AppendBacklinkValue(x: Element, href: string)
    ensures StringValue(AppendBacklink(x, href)) == StringValue(x) + " " + Arrow
  {
    var a := BacklinkAnchor(href);
    AnchorValue(href);
    if x.children != [] {
      var n := |x.children| - 1;
      assert x.children == x.children[..n] + [x.children[n]];
      ContentAfterLast(x.children[..n], x.children[n], a);
    }
  }

  /** The back-link anchor, alone, contributes just its arrow. */
  lemma AnchorValue(href: string)
    ensures StringValue(BacklinkAnchor(href)) == Arrow && BacklinkAnchor(href).tail == ""
    ensures ContentOf([BacklinkAnchor(href)]) == Arrow
  {
    var a := BacklinkAnchor(href);
    assert [a][1..] == [];
  }

  /** A space added to the last child's tail, then an anchor appended: the content grows by both. */
  lemma ContentAfterLast(pre: seq<Element>, c: Element, a: Element)
    ensures ContentOf(pre + [c.(tail := c.tail + " ")] + [a]) == ContentOf(pre + [c]) + " " + StringValue(a) + a.tail
  {
    var c' := c.(tail := c.tail + " ");
    assert [c][1..] == [] && [c'][1..] == [] && [a][1..] == [];
    assert ContentOf([c']) == ContentOf([c]) + " ";
    ContentOfConcat(pre, [c]);
    ContentOfConcat(pre, [c']);
    ContentOfConcat(pre + [c'], [a]);
  }

  /** The note's string-value grows by exactly the appended arrows. */
  lemma {:induction false} AppendBacklinksValue(x: Element, hrefs: seq<string>)
    ensures StringValue(AppendBacklinks(x, hrefs)) == StringValue(x) + Arrows(|hrefs|)
    decreases hrefs
  {
    if hrefs != [] {
      AppendBacklinkValue(x, hrefs[0]);
      AppendBacklinksValue(AppendBacklink(x, hrefs[0]), hrefs[1..]);
    }
  }

  lemma AppendBacklinkShape(x: Element, href: string)
    ensures var r := AppendBacklink(x, href);
      && r.tag == x.tag && r.attrs == x.attrs && r.tail == x.tail
      && |r.children| == |x.children| + 1
      && (forall i :: 0 <= i < |x.children| ==> r.children[i].(tail := x.children[i].tail) == x.children[i])
      && r.children[|x.children|] == BacklinkAnchor(href)
  {
  }

  /**
   * Appending keeps the note's tag, attributes and tail, changes at most the
   * tails of its old children, and adds one anchor per href, in order.
   */
  lemma {:induction false} AppendBacklinksShape(x: Element, hrefs: seq<string>)
    ensures var r := AppendBacklinks(x, hrefs);
      && r.tag == x.tag && r.attrs == x.attrs && r.tail == x.tail
      && |r.children| == |x.children| + |hrefs|
      && (forall i :: 0 <= i < |x.children| ==> r.children[i].(tail := x.children[i].tail) == x.children[i])
      && (forall i :: 0 <= i < |hrefs| ==> r.children[|x.children| + i].(tail := "") == BacklinkAnchor(hrefs[i]))
    decreases hrefs
  {
    if hrefs != [] {
      var x1 := AppendBacklink(x, hrefs[0]);
      var r := AppendBacklinks(x, hrefs);
      AppendBacklinkShape(x, hrefs[0]);
      AppendBacklinksShape(x1, hrefs[1..]);
      forall i | 0 <= i < |x.children|
        ensures r.children[i].(tail := x.children[i].tail) == x.children[i]
      {
        assert r.children[i].(tail := x1.children[i].tail) == x1.children[i];
      }
      forall i | 0 <= i < |hrefs|
        ensures r.children[|x.children| + i].(tail := "") == BacklinkAnchor(hrefs[i])
      {
        if i == 0 {
          assert r.children[|x.children|].(tail := x1.children[|x.children|].tail) == x1.children[|x.children|];
        } else {
          assert hrefs[1..][i - 1] == hrefs[i];
          assert |x1.children| + (i - 1) == |x.children| + i;
        }
      }
    }
  }

  /** After at least one append the note holds a back-link, so the guard stops a second round. */
  lemma AppendBacklinksGuard(x: Element, hrefs: seq<string>)
    requires hrefs != []
    ensures HasBacklink(AppendBacklinks(x, hrefs))
  {
    var r := AppendBacklinks(x, hrefs);
    AppendBacklinksShape(x, hrefs);
    var a := r.children[|x.children|];
    assert a.(tail := "") == BacklinkAnchor(hrefs[0]);
    ContainsAt("backlink", "backlink", 0);
    assert IsBacklinkAnchor(a);
    BacklinkChild(r.children, |x.children|);
  }

  /**
   * Pass 2 on the note `x` with recorded hrefs: mark it
   * `epub:type="footnote"`; append the back-links unless it already holds one.
   * The count is the number of anchors appended.
   */
  function MarkFootnote(x: Element, hrefs: seq<string>): (Element, nat)
  {
    var marked := x.(attrs := x.attrs[EpubType := "footnote"]);
    if HasBacklink(x) then (marked, 0) else (AppendBacklinks(marked, hrefs), |hrefs|)
  }

  lemma MarkFootnoteSpec(x: Element, hrefs: seq<string>)
    ensures var (y, n) := MarkFootnote(x, hrefs);
      && y.tag == x.tag && y.tail == x.tail
      && y.attrs == x.attrs[EpubType := "footnote"]
      && n == (if HasBacklink(x) then 0 else |hrefs|)
      && (HasBacklink(x) ==> y.text == x.text && y.children == x.children)
      && (!HasBacklink(x) ==> StringValue(y) == StringValue(x) + Arrows(|hrefs|))
  {
    var marked := x.(attrs := x.attrs[EpubType := "footnote"]);
    AppendBacklinksShape(marked, hrefs);
    AppendBacklinksValue(marked, hrefs);
  }

  /** Marking a note that received back-links (or already had one) again changes nothing and adds nothing. */
  lemma MarkFootnoteTwice(x: Element, hrefs: seq<string>, hrefs2: seq<string>)
    requires hrefs != [] || HasBacklink(x)
    ensures MarkFootnote(MarkFootnote(x, hrefs).0, hrefs2) == (MarkFootnote(x, hrefs).0, 0)
  {
    var y := MarkFootnote(x, hrefs).0;
    var marked := x.(attrs := x.attrs[EpubType := "footnote"]);
    if !HasBacklink(x) {
      AppendBacklinksGuard(marked, hrefs);
      AppendBacklinksShape(marked, hrefs);
    }
    assert HasBacklink(y);
    assert y.attrs[EpubType := "footnote"] == y.attrs;
  }

  // ---------------------------------------------------------------------------
  // Pass 2: finding the note, `//*[@id="{note_id}"][0]`

  function IdIs(id: string): Element -> bool {
    (d: Element) => HasId(d, id)
  }

  /** Some element of the tree, the root included, carries `id`. */
  predicate Holds(e: Element, id: string) {
    HasId(e, id) || HoldsAmong(e.children, id)
  }

  predicate HoldsAmong(cs: seq<Element>, id: string) {
    cs != [] && (Holds(cs[0], id) || HoldsAmong(cs[1..], id))
  }

  /** The first element carrying `id`, in document order. */
  function FirstHolder(e: Element, id: string): Element
    requires Holds(e, id)
  {
    if HasId(e, id) then e else FirstHolderAmong(e.children, id)
  }

  function FirstHolderAmong(cs: seq<Element>, id: string): Element
    requires HoldsAmong(cs, id)
  {
    if Holds(cs[0], id) then FirstHolder(cs[0], id) else FirstHolderAmong(cs[1..], id)
  }

  /** The structural search is the XPath query: it succeeds iff the query is non-empty, and finds the query's first result. */
  lemma {:induction false} FirstHolderQuery(e: Element, id: string)
    ensures Holds(e, id) <==> Filter(Nodes(e), IdIs(id)) != []
    ensures Holds(e, id) ==> FirstHolder(e, id) == Filter(Nodes(e), IdIs(id))[0]
  {
    FirstHolderAmongQuery(e.children, id);
    FilterConcat([e], NodesOf(e.children), IdIs(id));
    assert [e][1..] == [];
  }

  lemma {:induction false} FirstHolderAmongQuery(cs: seq<Element>, id: string)
    ensures HoldsAmong(cs, id) <==> Filter(NodesOf(cs), IdIs(id)) != []
    ensures HoldsAmong(cs, id) ==> FirstHolderAmong(cs, id) == Filter(NodesOf(cs), IdIs(id))[0]
  {
    if cs != [] {
      FirstHolderQuery(cs[0], id);
      FirstHolderAmongQuery(cs[1..], id);
      FilterConcat(Nodes(cs[0]), NodesOf(cs[1..]), IdIs(id));
    }
  }

  /** Pass 2 for one map entry on one document: mark the first element carrying `id`, if any. */
  function OnNote(e: Element, id: string, hrefs: seq<string>): (Element, nat)
  {
    if HasId(e, id) then MarkFootnote(e, hrefs)
    else
      var r := OnNoteAmong(e.children, id, hrefs);
      (e.(children := r.0), r.1)
  }

  function OnNoteAmong(cs: seq<Element>, id: string, hrefs: seq<string>): (seq<Element>, nat)
  {
    if cs == [] then ([], 0)
    else if Holds(cs[0], id) then
      var r := OnNote(cs[0], id, hrefs);
      ([r.0] + cs[1..], r.1)
    else
      var r := OnNoteAmong(cs[1..], id, hrefs);
      ([cs[0]] + r.0, r.1)
  }

  /**
   * A document without the id is left alone; otherwise the count is what
   * marking its first holder adds: every href, or none when it already holds a back-link.
   */
  lemma {:induction false} OnNoteCount(e: Element, id: string, hrefs: seq<string>)
    ensures !Holds(e, id) ==> OnNote(e, id, hrefs) == (e, 0)
    ensures Holds(e, id) ==> OnNote(e, id, hrefs).1 == MarkFootnote(FirstHolder(e, id), hrefs).1
  {
    if !HasId(e, id) {
      OnNoteAmongCount(e.children, id, hrefs);
    }
  }

  lemma {:induction false} OnNoteAmongCount(cs: seq<Element>, id: string, hrefs: seq<string>)
    ensures !HoldsAmong(cs, id) ==> OnNoteAmong(cs, id, hrefs) == (cs, 0)
    ensures HoldsAmong(cs, id) ==> OnNoteAmong(cs, id, hrefs).1 == MarkFootnote(FirstHolderAmong(cs, id), hrefs).1
  {
    if cs != [] {
      if Holds(cs[0], id) {
        OnNoteCount(cs[0], id, hrefs);
      } else {
        OnNoteAmongCount(cs[1..], id, hrefs);
        assert [cs[0]] + cs[1..] == cs;
      }
    }
  }

  /** `e` with its first element carrying `id`, in document order, replaced by `x`. */
  function SpliceHolder(e: Element, id: string, x: Element): Element
    requires Holds(e, id)
  {
    if HasId(e, id) then x else e.(children := SpliceHolderAmong(e.children, id, x))
  }

  function SpliceHolderAmong(cs: seq<Element>, id: string, x: Element): seq<Element>
    requires HoldsAmong(cs, id)
  {
    if Holds(cs[0], id) then [SpliceHolder(cs[0], id, x)] + cs[1..]
    else [cs[0]] + SpliceHolderAmong(cs[1..], id, x)
  }

  /**
   * A replacement that still carries `id` is what the search finds next, and
   * a second replacement undoes the first: putting the original element back
   * gives the original tree.
   */
  lemma {:induction false} SpliceHolderSpec(e: Element, id: string, x: Element)
    requires Holds(e, id) && HasId(x, id)
    ensures Holds(SpliceHolder(e, id, x), id)
    ensures FirstHolder(SpliceHolder(e, id, x), id) == x
    ensures SpliceHolder(SpliceHolder(e, id, x), id, FirstHolder(e, id)) == e
  {
    if !HasId(e, id) {
      SpliceHolderAmongSpec(e.children, id, x);
    }
  }

  lemma {:induction false} SpliceHolderAmongSpec(cs: seq<Element>, id: string, x: Element)
    requires HoldsAmong(cs, id) && HasId(x, id)
    ensures HoldsAmong(SpliceHolderAmong(cs, id, x), id)
    ensures FirstHolderAmong(SpliceHolderAmong(cs, id, x), id) == x
    ensures SpliceHolderAmong(SpliceHolderAmong(cs, id, x), id, FirstHolderAmong(cs, id)) == cs
  {
    var r := SpliceHolderAmong(cs, id, x);
    if Holds(cs[0], id) {
      SpliceHolderSpec(cs[0], id, x);
      assert r[0] == SpliceHolder(cs[0], id, x) && r[1..] == cs[1..];
      assert [cs[0]] + cs[1..] == cs;
    } else {
      SpliceHolderAmongSpec(cs[1..], id, x);
      assert r[0] == cs[0] && r[1..] == SpliceHolderAmong(cs[1..], id, x);
      assert [cs[0]] + cs[1..] == cs;
    }
  }

  /**
   * Pass 2 for one entry on one document: without the id nothing changes.
   * Otherwise the first element carrying the id, and only it, is replaced by
   * its marked form, which has `epub:type="footnote"`: the result is the
   * document with that one subtree replaced, the search finds the marked note
   * in it, and putting the original note back gives the original document.
   */
  lemma {:induction false} OnNoteSpec(e: Element, id: string, hrefs: seq<string>)
    ensures !Holds(e, id) ==> OnNote(e, id, hrefs) == (e, 0)
    ensures Holds(e, id) ==>
      var y := MarkFootnote(FirstHolder(e, id), hrefs).0;
      var r := OnNote(e, id, hrefs).0;
      && r == SpliceHolder(e, id, y)
      && Holds(r, id) && FirstHolder(r, id) == y
      && Get(FirstHolder(r, id), EpubType) == "footnote"
      && SpliceHolder(r, id, FirstHolder(e, id)) == e
  {
    OnNoteCount(e, id, hrefs);
    if Holds(e, id) {
      var y := MarkFootnote(FirstHolder(e, id), hrefs).0;
      OnNoteSplices(e, id, hrefs);
      FirstHolderHasId(e, id);
      MarkFootnoteSpec(FirstHolder(e, id), hrefs);
      assert HasId(y, id);
      SpliceHolderSpec(e, id, y);
    }
  }

  /** The element the search finds carries the id. */
  lemma {:induction false} FirstHolderHasId(e: Element, id: string)
    requires Holds(e, id)
    ensures HasId(FirstHolder(e, id), id)
  {
    if !HasId(e, id) {
      FirstHolderAmongHasId(e.children, id);
    }
  }

  lemma {:induction false} FirstHolderAmongHasId(cs: seq<Element>, id: string)
    requires HoldsAmong(cs, id)
    ensures HasId(FirstHolderAmong(cs, id), id)
  {
    if Holds(cs[0], id) {
      FirstHolderHasId(cs[0], id);
    } else {
      FirstHolderAmongHasId(cs[1..], id);
    }
  }

  /** Marking rewrites exactly the first holder. */
  lemma {:induction false} OnNoteSplices(e: Element, id: string, hrefs: seq<string>)
    requires Holds(e, id)
    ensures OnNote(e, id, hrefs).0 == SpliceHolder(e, id, MarkFootnote(FirstHolder(e, id), hrefs).0)
  {
    if !HasId(e, id) {
      OnNoteAmongSplices(e.children, id, hrefs);
    }
  }

  lemma {:induction false} OnNoteAmongSplices(cs: seq<Element>, id: string, hrefs: seq<string>)
    requires HoldsAmong(cs, id)
    ensures OnNoteAmong(cs, id, hrefs).0 == SpliceHolderAmong(cs, id, MarkFootnote(FirstHolderAmong(cs, id), hrefs).0)
  {
    if Holds(cs[0], id) {
      OnNoteSplices(cs[0], id, hrefs);
    } else {
      OnNoteAmongSplices(cs[1..], id, hrefs);
    }
  }

  /** The marked note keeps its id, so the same entry finds it again. */
  lemma {:induction false} OnNoteKeepsHolds(e: Element, id: string, hrefs: seq<string>)
    requires Holds(e, id)
    ensures Holds(OnNote(e, id, hrefs).0, id)
  {
    if HasId(e, id) {
      MarkFootnoteSpec(e, hrefs);
    } else {
      OnNoteAmongKeepsHolds(e.children, id, hrefs);
    }
  }

  lemma {:induction false} OnNoteAmongKeepsHolds(cs: seq<Element>, id: string, hrefs: seq<string>)
    requires HoldsAmong(cs, id)
    ensures HoldsAmong(OnNoteAmong(cs, id, hrefs).0, id)
  {
    var r := OnNoteAmong(cs, id, hrefs).0;
    if Holds(cs[0], id) {
      OnNoteKeepsHolds(cs[0], id, hrefs);
      assert r[0] == OnNote(cs[0], id, hrefs).0;
    } else {
      OnNoteAmongKeepsHolds(cs[1..], id, hrefs);
      assert r[1..] == OnNoteAmong(cs[1..], id, hrefs).0;
    }
  }

  /** Running an entry with at least one href a second time changes nothing and adds no back-link. */
  lemma {:induction false} OnNoteTwice(e: Element, id: string, hrefs: seq<string>, hrefs2: seq<string>)
    requires hrefs != []
    ensures OnNote(OnNote(e, id, hrefs).0, id, hrefs2) == (OnNote(e, id, hrefs).0, 0)
  {
    if HasId(e, id) {
      MarkFootnoteSpec(e, hrefs);
      MarkFootnoteTwice(e, hrefs, hrefs2);
    } else {
      OnNoteAmongTwice(e.children, id, hrefs, hrefs2);
    }
  }

  lemma {:induction false} OnNoteAmongTwice(cs: seq<Element>, id: string, hrefs: seq<string>, hrefs2: seq<string>)
    requires hrefs != []
    ensures OnNoteAmong(OnNoteAmong(cs, id, hrefs).0, id, hrefs2) == (OnNoteAmong(cs, id, hrefs).0, 0)
  {
    if cs != [] {
      var r := OnNoteAmong(cs, id, hrefs).0;
      if Holds(cs[0], id) {
        OnNoteKeepsHolds(cs[0], id, hrefs);
        OnNoteTwice(cs[0], id, hrefs, hrefs2);
        assert r[0] == OnNote(cs[0], id, hrefs).0 && r[1..] == cs[1..];
        assert [r[0]] + r[1..] == r;
      } else {
        OnNoteAmongTwice(cs[1..], id, hrefs, hrefs2);
        assert r[0] == cs[0] && r[1..] == OnNoteAmong(cs[1..], id, hrefs).0;
        assert [r[0]] + r[1..] == r;
      }
    }
  }

  // ---------------------------------------------------------------------------
  // Pass 2 on one document: every map entry, in map order

  /**
   * The entries of `m` applied in order to `e`, counting back-links on from
   * `added`. An id holding `"` breaks the quoted XPath literal: lxml raises,
   * the rest of the entries are skipped and the third component is true.
   */
  function LinkNotes(e: Element, m: NoteMap, added: nat): (Element, nat, bool)
    decreases m
  {
    if m == [] then (e, added, false)
    else if '"' in m[0].0 then (e, added, true)
    else
      var r := OnNote(e, m[0].0, m[0].1);
      LinkNotes(r.0, m[1..], added + r.1)
  }

  /** Pass 2's loop over the note map for one parsed document. */
  method LinkDocument(root: Element, m: NoteMap) returns (tree: Element, added: nat, raised: bool)
    ensures (tree, added, raised) == LinkNotes(root, m, 0)
  {
    tree, added, raised := root, 0, false;
    var i := 0;
    while i < |m| && !raised
      invariant 0 <= i <= |m|
      invariant !raised ==> LinkNotes(root, m, 0) == LinkNotes(tree, m[i..], added)
      invariant raised ==> LinkNotes(root, m, 0) == (tree, added, true)
    {
      assert m[i..][0] == m[i] && m[i..][1..] == m[i + 1..];
      var id, hrefs := m[i].0, m[i].1;
      if '"' in id {
        raised := true;
      } else {
        var r := OnNote(tree, id, hrefs);
        tree, added := r.0, added + r.1;
      }
      i := i + 1;
    }
  }

  /** A document in which no mapped id occurs keeps its tree and adds no back-link. */
  lemma {:induction false} LinkNotesNoHolder(e: Element, m: NoteMap, added: nat)
    requires forall j :: 0 <= j < |m| ==> !Holds(e, m[j].0)
    ensures LinkNotes(e, m, added).0 == e && LinkNotes(e, m, added).1 == added
    decreases m
  {
    if m != [] && '"' !in m[0].0 {
      OnNoteCount(e, m[0].0, m[0].1);
      assert forall j :: 0 <= j < |m[1..]| ==> m[1..][j] == m[j + 1];
      LinkNotesNoHolder(e, m[1..], added);
    }
  }

  /** The count only grows, and by exactly the sum over the entries processed. */
  lemma {:induction false} LinkNotesGrows(e: Element, m: NoteMap, added: nat)
    ensures LinkNotes(e, m, added).1 >= added
    decreases m
  {
    if m != [] && '"' !in m[0].0 {
      var r := OnNote(e, m[0].0, m[0].1);
      LinkNotesGrows(r.0, m[1..], added + r.1);
    }
  }

  // ---------------------------------------------------------------------------
  // The passes over the documents

  /** What pass 1 has done so far: the files, the calls recorded in order, the paths written. */
  datatype Stamping = Stamping(files: Disk, calls: seq<Call>, writes: seq<string>)

  /** Pass 1 on the document at `d`: a missing or unparsable file is skipped; a file is written only if it held a call. */
  function StampDoc(d: string, uuids: nat -> string, st: Stamping): Stamping
  {
    if !IsParsed(st.files, d) then st
    else
      var s := Stamp(st.files[d].root, BaseName(d), uuids, |st.calls|);
      if s.1 == [] then st
      else Stamping(st.files[d := Parsed(s.0)], st.calls + s.1, st.writes + [d])
  }

  function StampDocs(docs: seq<string>, uuids: nat -> string, st: Stamping): Stamping
    decreases docs
  {
    if docs == [] then st else StampDocs(docs[1..], uuids, StampDoc(docs[0], uuids, st))
  }

  /** What pass 2 has done so far: the files, the back-links added, the paths written. */
  datatype Linking = Linking(files: Disk, added: nat, writes: seq<string>)

  /**
   * Pass 2 on the document at `d`. The back-links added count even when a
   * later entry raises, but then the document is not written; it is written
   * only if some back-link was added.
   */
  function LinkDoc(d: string, m: NoteMap, st: Linking): Linking
  {
    if !IsParsed(st.files, d) then st
    else
      var r := LinkNotes(st.files[d].root, m, 0);
      if !r.2 && r.1 > 0 then Linking(st.files[d := Parsed(r.0)], st.added + r.1, st.writes + [d])
      else Linking(st.files, st.added + r.1, st.writes)
  }

  function LinkDocs(docs: seq<string>, m: NoteMap, st: Linking): Linking
    decreases docs
  {
    if docs == [] then st else LinkDocs(docs[1..], m, LinkDoc(docs[0], m, st))
  }

  lemma {:induction false} AddCallsConcat(m: NoteMap, a: seq<Call>, b: seq<Call>)
    ensures AddCalls(AddCalls(m, a), b) == AddCalls(m, a + b)
    decreases a
  {
    if a == [] {
      assert a + b == b;
    } else {
      assert (a + b)[0] == a[0] && (a + b)[1..] == a[1..] + b;
      AddCallsConcat(AddCall(m, a[0]), a[1..], b);
    }
  }

  /**
   * Pass 1 over `docs`: stamp each document, record its calls in the note
   * map and count them as `footnotes_processed`.
   */
  method StampAll(files: Disk, docs: seq<string>, uuids: nat -> string)
    returns (st: Stamping, notes: NoteMap, processed: nat)
    ensures st == StampDocs(docs, uuids, Stamping(files, [], []))
    ensures notes == AddCalls([], st.calls)
    ensures processed == |st.calls|
  {
    st, notes, processed := Stamping(files, [], []), [], 0;
    var i := 0;
    while i < |docs|
      invariant 0 <= i <= |docs|
      invariant StampDocs(docs, uuids, Stamping(files, [], [])) == StampDocs(docs[i..], uuids, st)
      invariant notes == AddCalls([], st.calls)
      invariant processed == |st.calls|
    {
      assert docs[i..][0] == docs[i] && docs[i..][1..] == docs[i + 1..];
      var d := docs[i];
      if IsParsed(st.files, d) {
        var s := Stamp(st.files[d].root, BaseName(d), uuids, processed);
        AddCallsConcat([], st.calls, s.1);
        notes := AddCalls(notes, s.1);
        processed := processed + |s.1|;
        if s.1 != [] {
          st := Stamping(st.files[d := Parsed(s.0)], st.calls + s.1, st.writes + [d]);
        } else {
          assert st.calls + s.1 == st.calls;
        }
      }
      i := i + 1;
    }
  }

  /** Pass 2 over `docs` with the note map; the sum is `backlinks_added`. */
  method LinkAll(files: Disk, docs: seq<string>, notes: NoteMap) returns (st: Linking)
    ensures st == LinkDocs(docs, notes, Linking(files, 0, []))
  {
    st := Linking(files, 0, []);
    var i := 0;
    while i < |docs|
      invariant 0 <= i <= |docs|
      invariant LinkDocs(docs, notes, Linking(files, 0, [])) == LinkDocs(docs[i..], notes, st)
    {
      assert docs[i..][0] == docs[i] && docs[i..][1..] == docs[i + 1..];
      var d := docs[i];
      if IsParsed(st.files, d) {
        var tree, added, raised := LinkDocument(st.files[d].root, notes);
        if !raised && added > 0 {
          st := Linking(st.files[d := Parsed(tree)], st.added + added, st.writes + [d]);
        } else {
          st := Linking(st.files, st.added + added, st.writes);
        }
      }
      i := i + 1;
    }
  }

  datatype FootnoteMetrics = FootnoteMetrics(processed: nat, added: nat)

  /** `process_footnotes`: pass 1 over every document, then pass 2 over every document on the files pass 1 left. */
  method ProcessFootnotes(files: Disk, docs: seq<string>, uuids: nat -> string)
    returns (out: Disk, metrics: FootnoteMetrics)
    ensures var p1 := StampDocs(docs, uuids, Stamping(files, [], []));
      var p2 := LinkDocs(docs, AddCalls([], p1.calls), Linking(p1.files, 0, []));
      out == p2.files && metrics == FootnoteMetrics(|p1.calls|, p2.added)
  {
    var p1, notes, processed := StampAll(files, docs, uuids);
    var p2 := LinkAll(p1.files, docs, notes);
    out := p2.files;
    metrics := FootnoteMetrics(processed, p2.added);
  }

  // ---------------------------------------------------------------------------
  // What the passes promise

  /**
   * Pass 1 on one parsed document records one call per note-call anchor, in
   * document order, each numbered after the calls before it; the document is
   * rewritten, with the stamped tree, exactly when it held such an anchor.
   */
  lemma StampDocSpec(d: string, uuids: nat -> string, st: Stamping)
    requires IsParsed(st.files, d)
    ensures var root := st.files[d].root;
      var out := StampDoc(d, uuids, st);
      && out.calls == st.calls + CallsFor(NoteCalls(root), BaseName(d), uuids, |st.calls|)
      && out.writes == st.writes + (if NoteCalls(root) != [] then [d] else [])
      && out.files == (if NoteCalls(root) != [] then st.files[d := Parsed(Stamp(root, BaseName(d), uuids, |st.calls|).0)] else st.files)
  {
    var root := st.files[d].root;
    StampCalls(root, BaseName(d), uuids, |st.calls|);
    if NoteCalls(root) == [] {
      assert st.calls + [] == st.calls;
    }
  }

  /** A missing or unparsable document is skipped by pass 1. */
  lemma StampDocSkips(d: string, uuids: nat -> string, st: Stamping)
    requires !IsParsed(st.files, d)
    ensures StampDoc(d, uuids, st) == st
  {
  }

  /**
   * Over all documents pass 1 only appends calls and writes, writes only
   * listed documents, and leaves every other file as it was.
   */
  lemma {:induction false} StampDocsFrame(docs: seq<string>, uuids: nat -> string, st: Stamping)
    ensures var out := StampDocs(docs, uuids, st);
      && out.files.Keys == st.files.Keys
      && st.calls <= out.calls && st.writes <= out.writes
      && (forall j :: |st.writes| <= j < |out.writes| ==> out.writes[j] in docs)
      && (forall p :: p in st.files && p !in out.writes ==> out.files[p] == st.files[p])
    decreases docs
  {
    if docs != [] {
      var st1 := StampDoc(docs[0], uuids, st);
      StampDocsFrame(docs[1..], uuids, st1);
      var out := StampDocs(docs, uuids, st);
      assert forall x :: x in docs[1..] ==> x in docs;
      if st1 != st {
        assert st1.writes == st.writes + [docs[0]];
        assert out.writes[|st.writes|] == docs[0];
        forall p | p in st.files && p !in out.writes ensures out.files[p] == st.files[p] {
          assert p != docs[0];
        }
      }
    }
  }

  /**
   * The note map pass 1 builds from the calls has one entry per fragment, and
   * each entry lists the back-links of the calls that target it, in call order.
   */
  lemma NoteMapOfCalls(calls: seq<Call>)
    ensures KeysDistinct(AddCalls([], calls))
    ensures forall f :: Lookup(AddCalls([], calls), f) == BacklinksFor(calls, f)
  {
    AddCallsLookup([], calls);
  }

  /**
   * Pass 2 on one parsed document adds the back-links the entries gave it,
   * even when an entry raises, and writes the document exactly when no entry
   * raised and at least one back-link was added.
   */
  lemma LinkDocSpec(d: string, m: NoteMap, st: Linking)
    requires IsParsed(st.files, d)
    ensures var r := LinkNotes(st.files[d].root, m, 0);
      var out := LinkDoc(d, m, st);
      && out.added == st.added + r.1
      && out.writes == st.writes + (if !r.2 && r.1 > 0 then [d] else [])
      && out.files == (if !r.2 && r.1 > 0 then st.files[d := Parsed(r.0)] else st.files)
  {
  }

  /** A document that holds none of the mapped ids is neither counted nor written. */
  lemma LinkDocNoHolder(d: string, m: NoteMap, st: Linking)
    requires IsParsed(st.files, d)
    requires forall j :: 0 <= j < |m| ==> !Holds(st.files[d].root, m[j].0)
    ensures LinkDoc(d, m, st) == st
  {
    LinkNotesNoHolder(st.files[d].root, m, 0);
  }

  /** Over all documents pass 2 only adds to the count and the writes, and leaves unwritten files as they were. */
  lemma {:induction false} LinkDocsFrame(docs: seq<string>, m: NoteMap, st: Linking)
    ensures var out := LinkDocs(docs, m, st);
      && out.files.Keys == st.files.Keys
      && st.added <= out.added && st.writes <= out.writes
      && (forall j :: |st.writes| <= j < |out.writes| ==> out.writes[j] in docs)
      && (forall p :: p in st.files && p !in out.writes ==> out.files[p] == st.files[p])
    decreases docs
  {
    if docs != [] {
      var st1 := LinkDoc(docs[0], m, st);
      LinkDocsFrame(docs[1..], m, st1);
      var out := LinkDocs(docs, m, st);
      assert forall x :: x in docs[1..] ==> x in docs;
      if st1.writes != st.writes {
        assert st1.writes == st.writes + [docs[0]];
        assert out.writes[|st.writes|] == docs[0];
        forall p | p in st.files && p !in out.writes ensures out.files[p] == st.files[p] {
          assert p != docs[0];
        }
      }
    }
  }
}
