/**
 * The abstract element tree every query and rewrite of the core works on: an
 * element has a tag, an attribute map, the text before its first child, the
 * tail text after its end tag, and its child elements. Absent text, tail or
 * attribute values are the empty string, as `x or ''` reads them.
 */
module Xml {
  import opened Strings
  import opened Wrappers

  datatype Element = Element(
    tag: string,
    attrs: map<string, string>,
    text: string,
    tail: string,
    children: seq<Element>)

  /** `elem.get(key, '')`. */
  function Get(e: Element, key: string): string {
    if key in e.attrs then e.attrs[key] else ""
  }

  /** `@id="id"`: the attribute is present and equal to `id`. */
  predicate HasId(e: Element, id: string) {
    "id" in e.attrs && e.attrs["id"] == id
  }

  /** `h1 | h2`. */
  predicate IsHeading(e: Element) {
    e.tag == "h1" || e.tag == "h2"
  }

  /** The element followed by all its descendants, in document order (the XPath query for all elements). */
  function Nodes(e: Element): (r: seq<Element>)
    ensures |r| >= 1 && r[0] == e
  {
    [e] + NodesOf(e.children)
  }

  function NodesOf(cs: seq<Element>): seq<Element>
  {
    if cs == [] then [] else Nodes(cs[0]) + NodesOf(cs[1..])
  }

  /** The descendants of `e` in document order (the XPath descendant axis of `e`). */
  function Descendants(e: Element): seq<Element>
  {
    NodesOf(e.children)
  }

  /** XPath string-value `.`: the text of the element and of its descendants, tails included, its own tail not. */
  function StringValue(e: Element): string
  {
    e.text + ContentOf(e.children)
  }

  function ContentOf(cs: seq<Element>): string
  {
    if cs == [] then "" else StringValue(cs[0]) + cs[0].tail + ContentOf(cs[1..])
  }

  /** `elem.itertext()`: the non-empty text pieces of the subtree in document order, its own tail excluded. */
  function ItText(e: Element): seq<string>
  {
    (if e.text == "" then [] else [e.text]) + ItTextOf(e.children)
  }

  function ItTextOf(cs: seq<Element>): seq<string>
  {
    if cs == [] then []
    else ItText(cs[0]) + (if cs[0].tail == "" then [] else [cs[0].tail]) + ItTextOf(cs[1..])
  }

  /** The elements of `s` that satisfy `p`, in order (an XPath predicate over a node list). */
  function Filter(s: seq<Element>, p: Element -> bool): (r: seq<Element>)
    ensures |r| <= |s|
    ensures forall x :: x in r ==> x in s && p(x)
  {
    if s == [] then [] else (if p(s[0]) then [s[0]] else []) + Filter(s[1..], p)
  }

  /** Conversely, every element of `s` that satisfies `p` is kept. */
  lemma {:induction false} FilterKeeps(s: seq<Element>, p: Element -> bool, x: Element)
    requires x in s && p(x)
    ensures x in Filter(s, p)
  {
    if s[0] != x {
      FilterKeeps(s[1..], p, x);
    }
  }

  /** Nothing is kept when no element satisfies `p`. */
  lemma {:induction false} FilterNone(s: seq<Element>, p: Element -> bool)
    requires forall x :: x in s ==> !p(x)
    ensures Filter(s, p) == []
  {
    if s != [] {
      FilterNone(s[1..], p);
    }
  }

  /** Filtering twice is filtering once. */
  lemma {:induction false} FilterIdempotent(s: seq<Element>, p: Element -> bool)
    ensures Filter(Filter(s, p), p) == Filter(s, p)
  {
    if s != [] {
      FilterIdempotent(s[1..], p);
      FilterConcat(if p(s[0]) then [s[0]] else [], Filter(s[1..], p), p);
      assert Filter([s[0]], p) == (if p(s[0]) then [s[0]] else []) by {
        assert [s[0]][1..] == [];
      }
    }
  }

  /** The first element of `s` with tag `tag` (`find('.//tag')` over a node list). */
  function FirstTagged(s: seq<Element>, tag: string): (r: Option<Element>)
    ensures r.Some? ==> r.value in s && r.value.tag == tag
    ensures r.None? ==> forall x :: x in s ==> x.tag != tag
  {
    if s == [] then None else if s[0].tag == tag then Some(s[0]) else FirstTagged(s[1..], tag)
  }

  /** The first match in a concatenation is the first match of the front part, if it has one. */
  lemma {:induction false} FirstTaggedConcat(a: seq<Element>, b: seq<Element>, tag: string)
    ensures FirstTagged(a + b, tag) == if FirstTagged(a, tag).Some? then FirstTagged(a, tag) else FirstTagged(b, tag)
  {
    if a != [] {
      assert (a + b)[1..] == a[1..] + b;
      FirstTaggedConcat(a[1..], b, tag);
    } else {
      assert a + b == b;
    }
  }

  /** Number of elements of `s` that satisfy `p`. */
  function Count(s: seq<Element>, p: Element -> bool): nat
  {
    |Filter(s, p)|
  }

  lemma {:induction false} FilterConcat(a: seq<Element>, b: seq<Element>, p: Element -> bool)
    ensures Filter(a + b, p) == Filter(a, p) + Filter(b, p)
  {
    if a != [] {
      assert (a + b)[1..] == a[1..] + b;
      FilterConcat(a[1..], b, p);
    } else {
      assert a + b == b;
    }
  }

  lemma {:induction false} NodesOfConcat(a: seq<Element>, b: seq<Element>)
    ensures NodesOf(a + b) == NodesOf(a) + NodesOf(b)
  {
    if a != [] {
      assert (a + b)[1..] == a[1..] + b;
      NodesOfConcat(a[1..], b);
    } else {
      assert a + b == b;
    }
  }

  lemma {:induction false} ContentOfConcat(a: seq<Element>, b: seq<Element>)
    ensures ContentOf(a + b) == ContentOf(a) + ContentOf(b)
  {
    if a != [] {
      assert (a + b)[1..] == a[1..] + b;
      ContentOfConcat(a[1..], b);
    } else {
      assert a + b == b;
    }
  }

  /** Counting over the children's node lists adds up child by child. */
  lemma CountNodesOf(c: Element, cs: seq<Element>, p: Element -> bool)
    ensures Count(NodesOf([c] + cs), p) == Count(Nodes(c), p) + Count(NodesOf(cs), p)
  {
    assert ([c] + cs)[1..] == cs;
    FilterConcat(Nodes(c), NodesOf(cs), p);
  }

  /** Every descendant lies in the node list of some child. */
  lemma {:induction false} InNodesOf(x: Element, cs: seq<Element>)
    requires x in NodesOf(cs)
    ensures exists i :: 0 <= i < |cs| && x in Nodes(cs[i])
  {
    assert cs != [];
    if x in Nodes(cs[0]) {
    } else {
      InNodesOf(x, cs[1..]);
      var i :| 0 <= i < |cs[1..]| && x in Nodes(cs[1..][i]);
      assert x in Nodes(cs[i + 1]);
    }
  }

  /** Conversely, the nodes of each child are among the descendants. */
  lemma {:induction false} NodesOfContains(cs: seq<Element>, i: nat)
    requires i < |cs|
    ensures forall x :: x in Nodes(cs[i]) ==> x in NodesOf(cs)
  {
    if i > 0 {
      NodesOfContains(cs[1..], i - 1);
      assert cs[1..][i - 1] == cs[i];
    }
  }

  /** Replace every element's attribute map by `f` of that element, leaving tags, texts and structure alone. */
  function Relabel(e: Element, f: Element -> map<string, string>): Element
  {
    Element(e.tag, f(e), e.text, e.tail, RelabelOf(e.children, f))
  }

  function RelabelOf(cs: seq<Element>, f: Element -> map<string, string>): (r: seq<Element>)
    ensures |r| == |cs|
    ensures forall i :: 0 <= i < |cs| ==> r[i] == Relabel(cs[i], f)
  {
    if cs == [] then [] else [Relabel(cs[0], f)] + RelabelOf(cs[1..], f)
  }

  lemma RelabelOfConcat(a: seq<Element>, b: seq<Element>, f: Element -> map<string, string>)
    ensures RelabelOf(a + b, f) == RelabelOf(a, f) + RelabelOf(b, f)
  {
  }

  /** The i-th element of a relabelled tree, in document order, is the relabelled i-th element of the original. */
  lemma {:induction false} NodesRelabel(e: Element, f: Element -> map<string, string>)
    ensures Nodes(Relabel(e, f)) == RelabelOf(Nodes(e), f)
  {
    NodesOfRelabel(e.children, f);
    RelabelOfConcat([e], NodesOf(e.children), f);
  }

  lemma {:induction false} NodesOfRelabel(cs: seq<Element>, f: Element -> map<string, string>)
    ensures NodesOf(RelabelOf(cs, f)) == RelabelOf(NodesOf(cs), f)
  {
    if cs != [] {
      NodesRelabel(cs[0], f);
      NodesOfRelabel(cs[1..], f);
      assert RelabelOf(cs, f)[1..] == RelabelOf(cs[1..], f);
      RelabelOfConcat(Nodes(cs[0]), NodesOf(cs[1..]), f);
    }
  }

  lemma {:induction false} StringValueRelabel(e: Element, f: Element -> map<string, string>)
    ensures StringValue(Relabel(e, f)) == StringValue(e)
  {
    ContentOfRelabel(e.children, f);
  }

  lemma {:induction false} ContentOfRelabel(cs: seq<Element>, f: Element -> map<string, string>)
    ensures ContentOf(RelabelOf(cs, f)) == ContentOf(cs)
  {
    if cs != [] {
      StringValueRelabel(cs[0], f);
      ContentOfRelabel(cs[1..], f);
      assert RelabelOf(cs, f)[1..] == RelabelOf(cs[1..], f);
    }
  }
}
