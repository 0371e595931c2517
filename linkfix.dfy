/**
 * The two link repairs of epubstandard-supplemental.py and the per-file
 * driver that runs them. `fix_nested_links_html` turns every anchor that
 * lies inside another anchor into a span; `remove_broken_fragment_links_html`
 * removes anchors whose `#fragment` names no id of the document, keeping
 * their own text and tail in the surrounding text.
 */
module LinkFix {
  import opened Strings
  import opened Xml
  import opened Files

  const EpubType := "epub:type"

  predicate IsAnchor(e: Element) {
    e.tag == "a"
  }

  // ---------------------------------------------------------------------------
  // fix_nested_links_html

  /** The attributes of an unwrapped anchor: `href` and `epub:type` dropped, the span class set. */
  function Unwrapped(attrs: map<string, string>): map<string, string> {
    (attrs - {"href", EpubType})["class" := "unwrapped-nested-link"]
  }

  /**
   * `//a//a` and the loop over it: `under` says whether an ancestor of `e`
   * is an anchor in the tree as queried. Returns the tree and the number of
   * anchors unwrapped.
   */
  function Unnest(e: Element, under: bool): (Element, nat)
    decreases e
  {
    var r := UnnestOf(e.children, under || IsAnchor(e));
    if under && IsAnchor(e) then (Element("span", Unwrapped(e.attrs), e.text, e.tail, r.0), 1 + r.1)
    else (e.(children := r.0), r.1)
  }

  function UnnestOf(cs: seq<Element>, under: bool): (seq<Element>, nat)
    decreases cs
  {
    if cs == [] then ([], 0)
    else
      var first := Unnest(cs[0], under);
      var rest := UnnestOf(cs[1..], under);
      ([first.0] + rest.0, first.1 + rest.1)
  }

  /** `fix_nested_links_html(doc)` on the document's root element. */
  function FixNested(root: Element): (Element, nat)
  {
    Unnest(root, false)
  }

  /** No anchor of the tree has an anchor below it. */
  predicate NoNested(e: Element) {
    forall d :: d in Nodes(e) && IsAnchor(d) ==> Count(Descendants(d), IsAnchor) == 0
  }

  /**
   * Only tags and attributes change: every element keeps its text and tail,
   * an unwrapped anchor keeps its other attributes and its children, and an
   * anchor with no anchor above it is not unwrapped.
   */
  lemma UnnestShape(e: Element, under: bool)
    ensures var r := Unnest(e, under).0;
      && r.text == e.text && r.tail == e.tail && |r.children| == |e.children|
      && (under && IsAnchor(e) ==> r.tag == "span" && r.attrs == Unwrapped(e.attrs))
      && (!(under && IsAnchor(e)) ==> r.tag == e.tag && r.attrs == e.attrs)
      && forall i :: 0 <= i < |e.children| ==> r.children[i] == Unnest(e.children[i], under || IsAnchor(e)).0
  {
    UnnestOfAt(e.children, under || IsAnchor(e));
  }

  lemma {:induction false} UnnestOfAt(cs: seq<Element>, under: bool)
    ensures |UnnestOf(cs, under).0| == |cs|
    ensures forall i :: 0 <= i < |cs| ==> UnnestOf(cs, under).0[i] == Unnest(cs[i], under).0
    decreases cs
  {
    if cs != [] {
      UnnestOfAt(cs[1..], under);
    }
  }

  /** An unwrapped anchor keeps every attribute other than `href`, `epub:type` and `class`. */
  lemma UnwrappedKeeps(attrs: map<string, string>)
    ensures "href" !in Unwrapped(attrs) && EpubType !in Unwrapped(attrs)
    ensures Unwrapped(attrs)["class"] == "unwrapped-nested-link"
    ensures forall k :: k in attrs && k != "href" && k != EpubType && k != "class" ==> k in Unwrapped(attrs) && Unwrapped(attrs)[k] == attrs[k]
  {
  }

  /** The text of the document is untouched. */
  lemma {:induction false} UnnestValue(e: Element, under: bool)
    ensures StringValue(Unnest(e, under).0) == StringValue(e)
    decreases e
  {
    UnnestOfValue(e.children, under || IsAnchor(e));
  }

  lemma {:induction false} UnnestOfValue(cs: seq<Element>, under: bool)
    ensures ContentOf(UnnestOf(cs, under).0) == ContentOf(cs)
    decreases cs
  {
    if cs != [] {
      UnnestValue(cs[0], under);
      UnnestOfValue(cs[1..], under);
      var r := UnnestOf(cs, under).0;
      assert r[0] == Unnest(cs[0], under).0 && r[1..] == UnnestOf(cs[1..], under).0;
      UnnestShape(cs[0], under);
    }
  }

  /**
   * Every anchor is either kept or unwrapped and counted: the count plus the
   * anchors left is the anchors there were. Below an anchor none is left.
   */
  lemma {:induction false} UnnestCount(e: Element, under: bool)
    ensures Unnest(e, under).1 + Count(Nodes(Unnest(e, under).0), IsAnchor) == Count(Nodes(e), IsAnchor)
    ensures under ==> Count(Nodes(Unnest(e, under).0), IsAnchor) == 0
    decreases e
  {
    var r := Unnest(e, under).0;
    UnnestOfCount(e.children, under || IsAnchor(e));
    FilterConcat([e], NodesOf(e.children), IsAnchor);
    FilterConcat([r], NodesOf(r.children), IsAnchor);
    assert [e][1..] == [] && [r][1..] == [];
  }

  lemma {:induction false} UnnestOfCount(cs: seq<Element>, under: bool)
    ensures UnnestOf(cs, under).1 + Count(NodesOf(UnnestOf(cs, under).0), IsAnchor) == Count(NodesOf(cs), IsAnchor)
    ensures under ==> Count(NodesOf(UnnestOf(cs, under).0), IsAnchor) == 0
    decreases cs
  {
    if cs != [] {
      var r := UnnestOf(cs, under).0;
      UnnestCount(cs[0], under);
      UnnestOfCount(cs[1..], under);
      assert r[0] == Unnest(cs[0], under).0 && r[1..] == UnnestOf(cs[1..], under).0;
      FilterConcat(Nodes(cs[0]), NodesOf(cs[1..]), IsAnchor);
      FilterConcat(Nodes(r[0]), NodesOf(r[1..]), IsAnchor);
    }
  }

  lemma CountZero(s: seq<Element>, p: Element -> bool, x: Element)
    requires Count(s, p) == 0 && x in s
    ensures !p(x)
  {
    if p(x) {
      FilterKeeps(s, p, x);
    }
  }

  /** After the fix no anchor lies inside another. */
  lemma {:induction false} UnnestNoNested(e: Element, under: bool)
    ensures NoNested(Unnest(e, under).0)
    decreases e
  {
    var r := Unnest(e, under).0;
    UnnestCount(e, under);
    forall d | d in Nodes(r) && IsAnchor(d) ensures Count(Descendants(d), IsAnchor) == 0 {
      if under {
        CountZero(Nodes(r), IsAnchor, d);
      } else if d == r {
        UnnestOfCount(e.children, true);
      } else {
        UnnestOfAt(e.children, IsAnchor(e));
        InNodesOf(d, r.children);
        var i :| 0 <= i < |r.children| && d in Nodes(r.children[i]);
        UnnestNoNested(e.children[i], IsAnchor(e));
      }
    }
  }

  /** The fix is idempotent: its own output has nothing left to unwrap. */
  lemma FixNestedTwice(root: Element)
    ensures FixNested(FixNested(root).0) == (FixNested(root).0, 0)
  {
    var r := FixNested(root).0;
    UnnestNoNested(root, false);
    NoNestedFixed(r);
  }

  lemma {:induction false} NoNestedFixed(e: Element)
    requires NoNested(e)
    ensures Unnest(e, false) == (e, 0)
    decreases e
  {
    if IsAnchor(e) {
      NoAnchorsFixed(e.children);
    } else {
      NoNestedOfFixed(e.children);
    }
  }

  lemma {:induction false} NoNestedOfFixed(cs: seq<Element>)
    requires forall d :: d in NodesOf(cs) && IsAnchor(d) ==> Count(Descendants(d), IsAnchor) == 0
    ensures UnnestOf(cs, false) == (cs, 0)
    decreases cs
  {
    if cs != [] {
      NodesOfContains(cs, 0);
      assert forall d :: d in NodesOf(cs[1..]) ==> d in NodesOf(cs);
      NoNestedFixed(cs[0]);
      NoNestedOfFixed(cs[1..]);
      assert [cs[0]] + cs[1..] == cs;
    }
  }

  lemma {:induction false} NoAnchorsFixed(cs: seq<Element>)
    requires Count(NodesOf(cs), IsAnchor) == 0
    ensures UnnestOf(cs, true) == (cs, 0)
    decreases cs
  {
    if cs != [] {
      FilterConcat(Nodes(cs[0]), NodesOf(cs[1..]), IsAnchor);
      FilterConcat([cs[0]], NodesOf(cs[0].children), IsAnchor);
      assert [cs[0]][1..] == [];
      assert !IsAnchor(cs[0]);
      NoAnchorsFixed(cs[0].children);
      NoAnchorsFixed(cs[1..]);
      assert [cs[0]] + cs[1..] == cs;
    }
  }

  // ---------------------------------------------------------------------------
  // remove_broken_fragment_links_html

  /** `//@id`: every id value of the document, the root's included. */
  function AllIds(root: Element): set<string> {
    set d | d in Nodes(root) && "id" in d.attrs :: d.attrs["id"]
  }

  /** An anchor whose href starts with `#` and whose fragment is non-empty and not among `ids`. */
  predicate IsBroken(e: Element, ids: set<string>) {
    var href := Get(e, "href");
    IsAnchor(e) && StartsWith(href, "#") && LStripChar(href, '#') != "" && LStripChar(href, '#') !in ids
  }

  function BrokenIn(ids: set<string>): Element -> bool {
    (e: Element) => IsBroken(e, ids)
  }

  /** Append `s` to the tail of the last element of `kept`. */
  function AppendTail(kept: seq<Element>, s: string): seq<Element>
    requires kept != []
  {
    kept[..|kept| - 1] + [kept[|kept| - 1].(tail := kept[|kept| - 1].tail + s)]
  }

  /**
   * The loop over the matching links, for a kept element `e`: its children
   * are handled left to right, and the count is the number of links removed.
   */
  function Repair(e: Element, ids: set<string>): (Element, nat)
    decreases e
  {
    var r := RepairAmong(e.text, [], e.children, ids);
    (e.(text := r.0, children := r.1), r.2)
  }

  /**
   * Children `cs` still to handle, after the text `text` and the kept
   * siblings `kept`. A broken link is removed with its subtree; its own
   * text and tail go to the tail of the previous kept sibling, or to the
   * parent's text when there is none. The broken links inside a removed
   * subtree are still visited in the detached subtree, so they count too.
   */
  function RepairAmong(text: string, kept: seq<Element>, cs: seq<Element>, ids: set<string>): (string, seq<Element>, nat)
    decreases cs
  {
    if cs == [] then (text, kept, 0)
    else if IsBroken(cs[0], ids) then
      var moved := cs[0].text + cs[0].tail;
      var r := if kept == [] then RepairAmong(text + moved, kept, cs[1..], ids)
               else RepairAmong(text, AppendTail(kept, moved), cs[1..], ids);
      (r.0, r.1, 1 + Count(Descendants(cs[0]), BrokenIn(ids)) + r.2)
    else
      var f := Repair(cs[0], ids);
      var r := RepairAmong(text, kept + [f.0], cs[1..], ids);
      (r.0, r.1, f.1 + r.2)
  }

  /** `remove_broken_fragment_links_html(doc)`: the ids are gathered once, before any removal. */
  function RemoveBroken(root: Element): (Element, nat)
  {
    Repair(root, AllIds(root))
  }

  /** The count is the number of broken links below the root: the root itself has no parent and stays. */
  lemma {:induction false} RepairCount(e: Element, ids: set<string>)
    ensures Repair(e, ids).1 == Count(Descendants(e), BrokenIn(ids))
    decreases e
  {
    RepairAmongCount(e.text, [], e.children, ids);
  }

  lemma {:induction false} RepairAmongCount(text: string, kept: seq<Element>, cs: seq<Element>, ids: set<string>)
    ensures RepairAmong(text, kept, cs, ids).2 == Count(NodesOf(cs), BrokenIn(ids))
    decreases cs
  {
    if cs != [] {
      FilterConcat(Nodes(cs[0]), NodesOf(cs[1..]), BrokenIn(ids));
      FilterConcat([cs[0]], NodesOf(cs[0].children), BrokenIn(ids));
      assert [cs[0]][1..] == [];
      if IsBroken(cs[0], ids) {
        var moved := cs[0].text + cs[0].tail;
        if kept == [] {
          RepairAmongCount(text + moved, kept, cs[1..], ids);
        } else {
          RepairAmongCount(text, AppendTail(kept, moved), cs[1..], ids);
        }
      } else {
        RepairCount(cs[0], ids);
        RepairAmongCount(text, kept + [Repair(cs[0], ids).0], cs[1..], ids);
      }
    }
  }

  lemma AppendTailContent(kept: seq<Element>, s: string)
    requires kept != []
    ensures ContentOf(AppendTail(kept, s)) == ContentOf(kept) + s
  {
    var n := |kept| - 1;
    var c := kept[n];
    var c' := c.(tail := c.tail + s);
    assert kept == kept[..n] + [c];
    ContentOfConcat(kept[..n], [c]);
    ContentOfConcat(kept[..n], [c']);
    assert [c][1..] == [] && [c'][1..] == [];
  }

  /** No broken link below `e` has child elements. */
  predicate BrokenAreLeaves(cs: seq<Element>, ids: set<string>) {
    forall d :: d in NodesOf(cs) && IsBroken(d, ids) ==> d.children == []
  }

  /**
   * When no broken link has child elements, removing the broken links keeps
   * the text of the document: each removed link's text and tail are spliced
   * where the link stood.
   */
  lemma {:induction false} RepairValue(e: Element, ids: set<string>)
    requires BrokenAreLeaves(e.children, ids)
    ensures StringValue(Repair(e, ids).0) == StringValue(e)
    ensures Repair(e, ids).0.tail == e.tail
    decreases e
  {
    RepairAmongValue(e.text, [], e.children, ids);
  }

  lemma {:induction false} RepairAmongValue(text: string, kept: seq<Element>, cs: seq<Element>, ids: set<string>)
    requires BrokenAreLeaves(cs, ids)
    ensures var r := RepairAmong(text, kept, cs, ids);
      r.0 + ContentOf(r.1) == text + ContentOf(kept) + ContentOf(cs)
    decreases cs, 1
  {
    if cs != [] {
      NodesOfContains(cs, 0);
      assert forall d :: d in NodesOf(cs[1..]) ==> d in NodesOf(cs);
      if IsBroken(cs[0], ids) {
        RemovedValue(text, kept, cs, ids);
      } else {
        KeptValue(text, kept, cs, ids);
      }
    }
  }

  /** The step for a removed link. */
  lemma {:induction false} RemovedValue(text: string, kept: seq<Element>, cs: seq<Element>, ids: set<string>)
    requires cs != [] && IsBroken(cs[0], ids) && cs[0].children == []
    requires BrokenAreLeaves(cs[1..], ids)
    ensures var r := RepairAmong(text, kept, cs, ids);
      r.0 + ContentOf(r.1) == text + ContentOf(kept) + ContentOf(cs)
    decreases cs, 0
  {
    var c := cs[0];
    var moved := c.text + c.tail;
    assert StringValue(c) == c.text;
    assert ContentOf(cs) == c.text + c.tail + ContentOf(cs[1..]);
    var r := RepairAmong(text, kept, cs, ids);
    if kept == [] {
      var r' := RepairAmong(text + moved, kept, cs[1..], ids);
      assert r.0 == r'.0 && r.1 == r'.1;
      RepairAmongValue(text + moved, kept, cs[1..], ids);
    } else {
      var r' := RepairAmong(text, AppendTail(kept, moved), cs[1..], ids);
      assert r.0 == r'.0 && r.1 == r'.1;
      AppendTailContent(kept, moved);
      RepairAmongValue(text, AppendTail(kept, moved), cs[1..], ids);
    }
  }

  /** The step for a kept child. */
  lemma {:induction false} KeptValue(text: string, kept: seq<Element>, cs: seq<Element>, ids: set<string>)
    requires cs != [] && !IsBroken(cs[0], ids)
    requires BrokenAreLeaves(cs[0].children, ids) && BrokenAreLeaves(cs[1..], ids)
    ensures var r := RepairAmong(text, kept, cs, ids);
      r.0 + ContentOf(r.1) == text + ContentOf(kept) + ContentOf(cs)
    decreases cs, 0
  {
    var c := cs[0];
    var f := Repair(c, ids).0;
    var r := RepairAmong(text, kept + [f], cs[1..], ids);
    assert RepairAmong(text, kept, cs, ids).0 == r.0 && RepairAmong(text, kept, cs, ids).1 == r.1;
    RepairValue(c, ids);
    assert ContentOf([f]) == StringValue(f) + f.tail by {
      assert [f][1..] == [];
    }
    ContentOfConcat(kept, [f]);
    RepairAmongValue(text, kept + [f], cs[1..], ids);
    assert ContentOf(cs) == StringValue(c) + c.tail + ContentOf(cs[1..]);
  }

  function NotBroken(ids: set<string>): Element -> bool {
    (e: Element) => !IsBroken(e, ids)
  }

  lemma RepairKeepsLabel(e: Element, ids: set<string>)
    ensures Repair(e, ids).0.tag == e.tag && Repair(e, ids).0.attrs == e.attrs && Repair(e, ids).0.tail == e.tail
  {
  }

  lemma AppendTailAt(kept: seq<Element>, s: string)
    requires kept != []
    ensures |AppendTail(kept, s)| == |kept|
    ensures forall i :: 0 <= i < |kept| ==> AppendTail(kept, s)[i].(tail := kept[i].tail) == kept[i]
  {
  }

  /** `r` is `kept` followed by the repaired `k`, up to tails. */
  predicate KeptFrom(r: seq<Element>, kept: seq<Element>, k: seq<Element>, ids: set<string>) {
    && |r| == |kept| + |k|
    && (forall i :: 0 <= i < |kept| ==> r[i].(tail := kept[i].tail) == kept[i])
    && (forall i :: 0 <= i < |k| ==> r[|kept| + i].(tail := k[i].tail) == Repair(k[i], ids).0)
  }

  /**
   * The children left are the kept siblings and then, in order, the repaired
   * children that are not broken; only their tails may have grown.
   */
  lemma {:induction false} RepairAmongKept(text: string, kept: seq<Element>, cs: seq<Element>, ids: set<string>)
    ensures KeptFrom(RepairAmong(text, kept, cs, ids).1, kept, Filter(cs, NotBroken(ids)), ids)
    decreases cs, 1
  {
    if cs != [] {
      if IsBroken(cs[0], ids) {
        RemovedKept(text, kept, cs, ids);
      } else {
        KeptKept(text, kept, cs, ids);
      }
    }
  }

  lemma {:induction false} RemovedKept(text: string, kept: seq<Element>, cs: seq<Element>, ids: set<string>)
    requires cs != [] && IsBroken(cs[0], ids)
    ensures KeptFrom(RepairAmong(text, kept, cs, ids).1, kept, Filter(cs, NotBroken(ids)), ids)
    decreases cs, 0
  {
    var c := cs[0];
    var k := Filter(cs, NotBroken(ids));
    assert k == Filter(cs[1..], NotBroken(ids));
    var moved := c.text + c.tail;
    if kept == [] {
      RepairAmongKept(text + moved, kept, cs[1..], ids);
    } else {
      var kept' := AppendTail(kept, moved);
      assert RepairAmong(text, kept, cs, ids).1 == RepairAmong(text, kept', cs[1..], ids).1;
      RepairAmongKept(text, kept', cs[1..], ids);
      AppendTailAt(kept, moved);
      KeptFromRetail(RepairAmong(text, kept', cs[1..], ids).1, kept, kept', k, ids);
    }
  }

  /** Kept siblings that differ only in their tails can stand for each other. */
  lemma KeptFromRetail(r: seq<Element>, kept: seq<Element>, kept': seq<Element>, k: seq<Element>, ids: set<string>)
    requires KeptFrom(r, kept', k, ids)
    requires |kept'| == |kept|
    requires forall i :: 0 <= i < |kept| ==> kept'[i].(tail := kept[i].tail) == kept[i]
    ensures KeptFrom(r, kept, k, ids)
  {
    forall i | 0 <= i < |kept| ensures r[i].(tail := kept[i].tail) == kept[i] {
      assert r[i].(tail := kept'[i].tail) == kept'[i];
    }
  }

  lemma {:induction false} KeptKept(text: string, kept: seq<Element>, cs: seq<Element>, ids: set<string>)
    requires cs != [] && !IsBroken(cs[0], ids)
    ensures KeptFrom(RepairAmong(text, kept, cs, ids).1, kept, Filter(cs, NotBroken(ids)), ids)
    decreases cs, 0
  {
    var c := cs[0];
    var f := Repair(c, ids).0;
    var r := RepairAmong(text, kept, cs, ids).1;
    assert r == RepairAmong(text, kept + [f], cs[1..], ids).1;
    var k := Filter(cs, NotBroken(ids));
    var k' := Filter(cs[1..], NotBroken(ids));
    assert k == [c] + k';
    RepairAmongKept(text, kept + [f], cs[1..], ids);
    RepairKeepsLabel(c, ids);
    KeptFromShift(r, kept, c, k', ids);
  }

  /** A repaired child at the end of the kept siblings counts as the first of the kept children instead. */
  lemma KeptFromShift(r: seq<Element>, kept: seq<Element>, c: Element, k: seq<Element>, ids: set<string>)
    requires Repair(c, ids).0.tail == c.tail
    requires KeptFrom(r, kept + [Repair(c, ids).0], k, ids)
    ensures KeptFrom(r, kept, [c] + k, ids)
  {
    var f := Repair(c, ids).0;
    var k2 := [c] + k;
    forall i | 0 <= i < |kept| ensures r[i].(tail := kept[i].tail) == kept[i] {
      assert (kept + [f])[i] == kept[i];
    }
    forall i | 0 <= i < |k2| ensures r[|kept| + i].(tail := k2[i].tail) == Repair(k2[i], ids).0 {
      if i == 0 {
        assert r[|kept|].(tail := (kept + [f])[|kept|].tail) == (kept + [f])[|kept|];
      } else {
        assert k2[i] == k[i - 1];
        assert |kept + [f]| + (i - 1) == |kept| + i;
      }
    }
  }

  /** After the removal no link remains whose fragment is missing from the ids gathered at the start. */
  lemma {:induction false} RepairNoBroken(e: Element, ids: set<string>)
    ensures forall d :: d in Descendants(Repair(e, ids).0) ==> !IsBroken(d, ids)
    decreases e
  {
    var out := Repair(e, ids).0;
    var k := Filter(e.children, NotBroken(ids));
    RepairAmongKept(e.text, [], e.children, ids);
    forall d | d in Descendants(out) ensures !IsBroken(d, ids) {
      InNodesOf(d, out.children);
      var i :| 0 <= i < |out.children| && d in Nodes(out.children[i]);
      assert k[i] in e.children && !IsBroken(k[i], ids);
      var rk := Repair(k[i], ids).0;
      assert out.children[i].(tail := k[i].tail) == rk;
      RepairKeepsLabel(k[i], ids);
      if d != out.children[i] {
        assert d in NodesOf(rk.children);
        RepairNoBroken(k[i], ids);
      }
    }
  }

  /** Every link that is not broken stays, with its tag and attributes, in its parent's children. */
  lemma RepairKeepsGood(e: Element, ids: set<string>)
    ensures var out := Repair(e, ids).0;
      var k := Filter(e.children, NotBroken(ids));
      && |out.children| == |k|
      && forall i :: 0 <= i < |k| ==> out.children[i].tag == k[i].tag && out.children[i].attrs == k[i].attrs
  {
    var k := Filter(e.children, NotBroken(ids));
    RepairAmongKept(e.text, [], e.children, ids);
    forall i | 0 <= i < |k| ensures Repair(e, ids).0.children[i].tag == k[i].tag && Repair(e, ids).0.children[i].attrs == k[i].attrs {
      RepairKeepsLabel(k[i], ids);
    }
  }

  // ---------------------------------------------------------------------------
  // process_single_epub: the fixes over the XHTML documents

  /** The running totals of the loop over the documents, with the paths written. */
  datatype Totals = Totals(files: Disk, nested: nat, broken: nat, writes: seq<string>)

  /**
   * One document: unwrap nested links first, then remove broken links from
   * the result. The document is written, and the totals grow, only when
   * some fix applied; an unparsable file is skipped.
   */
  function FixFile(path: string, st: Totals): Totals
  {
    if !IsParsed(st.files, path) then st
    else
      var n := FixNested(st.files[path].root);
      var b := RemoveBroken(n.0);
      if n.1 > 0 || b.1 > 0 then Totals(st.files[path := Parsed(b.0)], st.nested + n.1, st.broken + b.1, st.writes + [path])
      else st
  }

  function FixFiles(paths: seq<string>, st: Totals): Totals
    decreases paths
  {
    if paths == [] then st else FixFiles(paths[1..], FixFile(paths[0], st))
  }

  /** The loop collecting the XHTML documents to fix: items with a non-empty href naming an existing file. */
  method SelectPaths(files: Disk, items: seq<Element>) returns (paths: seq<string>)
    ensures paths == Selected(items, files.Keys)
  {
    paths := [];
    var i := 0;
    ghost var present := files.Keys;
    while i < |items|
      invariant 0 <= i <= |items|
      invariant Selected(items, present) == paths + Selected(items[i..], present)
    {
      SelectedAt(items, i, present);
      var href := Get(items[i], "href");
      ghost var rest := Selected(items[i + 1..], present);
      if href != "" && href in files {
        assert paths + ([href] + rest) == (paths + [href]) + rest;
        paths := paths + [href];
      } else {
        assert [] + rest == rest;
      }
      i := i + 1;
    }
    assert items[i..] == [];
    assert paths + [] == paths;
  }

  /** The loop running both fixes over the documents. */
  method FixAll(files: Disk, paths: seq<string>) returns (st: Totals)
    ensures st == FixFiles(paths, Totals(files, 0, 0, []))
  {
    st := Totals(files, 0, 0, []);
    var j := 0;
    while j < |paths|
      invariant 0 <= j <= |paths|
      invariant FixFiles(paths, Totals(files, 0, 0, [])) == FixFiles(paths[j..], st)
    {
      assert paths[j..][0] == paths[j] && paths[j..][1..] == paths[j + 1..];
      var path := paths[j];
      if IsParsed(st.files, path) {
        var n := FixNested(st.files[path].root);
        var b := RemoveBroken(n.0);
        if n.1 > 0 || b.1 > 0 {
          st := Totals(st.files[path := Parsed(b.0)], st.nested + n.1, st.broken + b.1, st.writes + [path]);
        }
      }
      j := j + 1;
    }
  }

  /** The XHTML processing step of `process_single_epub`, between unzipping and re-zipping. */
  method ProcessSingleEpub(files: Disk, opf: Element) returns (st: Totals)
    ensures st == FixFiles(Selected(XhtmlItems(opf), files.Keys), Totals(files, 0, 0, []))
  {
    var paths := SelectPaths(files, XhtmlItems(opf));
    st := FixAll(files, paths);
  }

  /**
   * A parsed document is written exactly when it had a nested anchor or a
   * broken link below the root, and the totals grow by those numbers.
   */
  lemma FixFileSpec(path: string, st: Totals)
    requires IsParsed(st.files, path)
    ensures var root := st.files[path].root;
      var n := Count(Nodes(root), IsAnchor) - Count(Nodes(FixNested(root).0), IsAnchor);
      var unnested := FixNested(root).0;
      var b := Count(Descendants(unnested), BrokenIn(AllIds(unnested)));
      var out := FixFile(path, st);
      && out.nested == st.nested + (if n > 0 || b > 0 then n else 0)
      && out.broken == st.broken + (if n > 0 || b > 0 then b else 0)
      && out.writes == st.writes + (if n > 0 || b > 0 then [path] else [])
  {
    var root := st.files[path].root;
    UnnestCount(root, false);
    RepairCount(FixNested(root).0, AllIds(FixNested(root).0));
  }

  /** Over all documents the totals only grow, and a file is changed only if it was written. */
  lemma {:induction false} FixFilesFrame(paths: seq<string>, st: Totals)
    ensures var out := FixFiles(paths, st);
      && out.files.Keys == st.files.Keys
      && st.nested <= out.nested && st.broken <= out.broken && st.writes <= out.writes
      && (forall j :: |st.writes| <= j < |out.writes| ==> out.writes[j] in paths)
      && (forall p :: p in st.files && p !in out.writes ==> out.files[p] == st.files[p])
    decreases paths
  {
    if paths != [] {
      var st1 := FixFile(paths[0], st);
      FixFilesFrame(paths[1..], st1);
      var out := FixFiles(paths, st);
      assert forall x :: x in paths[1..] ==> x in paths;
      if st1 != st {
        assert st1.writes == st.writes + [paths[0]];
        assert out.writes[|st.writes|] == paths[0];
        forall p | p in st.files && p !in out.writes ensures out.files[p] == st.files[p] {
          assert p != paths[0];
        }
      }
    }
  }
}
