/**
 * Config-driven markup cleanup of one XHTML document (`remove_banners` and
 * `cleanup_markup` in epubstandard.py). Each XPath query is evaluated once and
 * its matches are then removed in document order; a removal takes the
 * element's whole subtree and its tail with it, and matches inside an already
 * removed subtree are still counted.
 */
module Cleanup {
  import opened Strings
  import opened Wrappers
  import opened Xml

  /** One entry of the `banners` config list; `parentTag` is `None` when the key is missing. */
  datatype Banner = Banner(parentTag: Option<string>, textContains: string)

  /** The `blacklist` config: tag names, global attribute names, and per-tag attribute names in dict order. */
  datatype Blacklist = Blacklist(
    tags: seq<string>,
    attributes: seq<string>,
    attributesOnTags: seq<(string, seq<string>)>)

  function BannerTag(b: Banner): string {
    if b.parentTag.Some? then b.parentTag.value else "div"
  }

  /** The XPath `//tag[contains(., 'text')]`. */
  function BannerMatch(tag: string, text: string): Element -> bool {
    (x: Element) => x.tag == tag && Contains(StringValue(x), text)
  }

  function TagIs(tag: string): Element -> bool {
    (x: Element) => x.tag == tag
  }

  /** Remove every descendant for which `p` holds of its subtree as it stood before the removals. */
  function Prune(e: Element, p: Element -> bool): Element
  {
    e.(children := PruneOf(e.children, p))
  }

  function PruneOf(cs: seq<Element>, p: Element -> bool): seq<Element>
  {
    if cs == [] then []
    else (if p(cs[0]) then [] else [Prune(cs[0], p)]) + PruneOf(cs[1..], p)
  }

  /** A tree with no matching descendant is left as it is. */
  lemma {:induction false} PruneNothing(e: Element, p: Element -> bool)
    requires Count(Descendants(e), p) == 0
    ensures Prune(e, p) == e
  {
    PruneOfNothing(e.children, p);
  }

  lemma {:induction false} PruneOfNothing(cs: seq<Element>, p: Element -> bool)
    requires Count(NodesOf(cs), p) == 0
    ensures PruneOf(cs, p) == cs
  {
    if cs != [] {
      assert [cs[0]] + cs[1..] == cs;
      CountNodesOf(cs[0], cs[1..], p);
      FilterConcat([cs[0]], Descendants(cs[0]), p);
      PruneNothing(cs[0], p);
      PruneOfNothing(cs[1..], p);
    }
  }

  /**
   * Every element that survives is the pruned copy of an original descendant
   * that did not match: no matched element is left in the tree.
   */
  lemma {:induction false} PruneOrigin(e: Element, p: Element -> bool, d: Element)
    requires d in Descendants(Prune(e, p))
    ensures exists o :: o in Descendants(e) && !p(o) && d == Prune(o, p)
  {
    PruneOfOrigin(e.children, p, d);
  }

  lemma {:induction false} PruneOfOrigin(cs: seq<Element>, p: Element -> bool, d: Element)
    requires d in NodesOf(PruneOf(cs, p))
    ensures exists o :: o in NodesOf(cs) && !p(o) && d == Prune(o, p)
  {
    assert cs != [];
    var head := if p(cs[0]) then [] else [Prune(cs[0], p)];
    NodesOfConcat(head, PruneOf(cs[1..], p));
    if d in NodesOf(head) {
      assert !p(cs[0]) && head[1..] == [];
      var c := cs[0];
      if d == Prune(c, p) {
        assert c in NodesOf(cs);
      } else {
        PruneOfOrigin(c.children, p, d);
        var o :| o in NodesOf(c.children) && !p(o) && d == Prune(o, p);
        assert o in NodesOf(cs);
      }
    } else {
      PruneOfOrigin(cs[1..], p, d);
      var o :| o in NodesOf(cs[1..]) && !p(o) && d == Prune(o, p);
      assert o in NodesOf(cs);
    }
  }

  /** After removing a tag, no descendant carries it. */
  lemma TagGone(e: Element, tag: string)
    ensures forall d :: d in Descendants(Prune(e, TagIs(tag))) ==> d.tag != tag
  {
    forall d | d in Descendants(Prune(e, TagIs(tag))) ensures d.tag != tag {
      PruneOrigin(e, TagIs(tag), d);
    }
  }

  /** Removing more tags keeps the tags already gone out of the tree. */
  lemma TagStaysGone(e: Element, tag: string, other: Element -> bool)
    requires forall d :: d in Descendants(e) ==> d.tag != tag
    ensures forall d :: d in Descendants(Prune(e, other)) ==> d.tag != tag
  {
    forall d | d in Descendants(Prune(e, other)) ensures d.tag != tag {
      PruneOrigin(e, other, d);
    }
  }

  // ---------------------------------------------------------------------------
  // remove_banners

  /**
   * The banner pass: configs in order, each removing the elements of its tag
   * whose string-value contains its text; a config with empty text is skipped.
   * A text holding `'` breaks the quoted XPath literal and the query raises.
   */
  function BannersSpec(doc: Element, banners: seq<Banner>): Result<(Element, nat)>
    decreases banners
  {
    if banners == [] then Ok((doc, 0))
    else
      var b := banners[0];
      if b.textContains == "" then BannersSpec(doc, banners[1..])
      else if '\'' in b.textContains then Raised("XPathEvalError")
      else
        var p := BannerMatch(BannerTag(b), b.textContains);
        AddCount(Count(Descendants(doc), p), BannersSpec(Prune(doc, p), banners[1..]))
  }

  function AddCount(k: nat, r: Result<(Element, nat)>): Result<(Element, nat)> {
    match r
    case Ok((d, c)) => Ok((d, k + c))
    case Raised(err) => Raised(err)
  }

  /** One config of the banner pass: the pruned tree and its removals, or the error its query raises. */
  function BannerStep(d: Element, b: Banner): Result<(Element, nat)> {
    if b.textContains == "" then Ok((d, 0))
    else if '\'' in b.textContains then Raised("XPathEvalError")
    else
      var p := BannerMatch(BannerTag(b), b.textContains);
      Ok((Prune(d, p), Count(Descendants(d), p)))
  }

  /** The body of the loop over the configs. */
  method RemoveBanner(d: Element, b: Banner) returns (r: Result<(Element, nat)>)
    ensures r == BannerStep(d, b)
  {
    if b.textContains == "" {
      return Ok((d, 0));
    }
    if '\'' in b.textContains {
      return Raised("XPathEvalError");
    }
    var p := BannerMatch(BannerTag(b), b.textContains);
    return Ok((Prune(d, p), Count(Descendants(d), p)));
  }

  /** `remove_banners(doc, config)`: the tree after the removals and the number of removals. */
  method RemoveBanners(doc: Element, banners: seq<Banner>) returns (r: Result<(Element, nat)>)
    ensures r == BannersSpec(doc, banners)
  {
    BannersFromSpec(doc, banners, 0);
    var d := doc;
    var count: nat := 0;
    var i := 0;
    while i < |banners|
      invariant 0 <= i <= |banners|
      invariant BannersFrom(doc, banners, 0) == BannersFrom(d, banners[i..], count)
    {
      var step := RemoveBanner(d, banners[i]);
      BannersFromAt(d, banners, i, count);
      if step.Raised? {
        return Raised(step.error);
      }
      d, count := step.value.0, count + step.value.1;
      i := i + 1;
    }
    assert banners[i..] == [];
    r := Ok((d, count));
  }

  /** The banner loop after `count` removals so far, config by config. */
  function BannersFrom(d: Element, banners: seq<Banner>, count: nat): Result<(Element, nat)>
    decreases banners
  {
    if banners == [] then Ok((d, count))
    else
      match BannerStep(d, banners[0])
      case Raised(e) => Raised(e)
      case Ok((d', k)) => BannersFrom(d', banners[1..], count + k)
  }

  /** One turn of the banner loop, from position `i`. */
  lemma BannersFromAt(d: Element, banners: seq<Banner>, i: nat, count: nat)
    requires i < |banners|
    ensures BannersFrom(d, banners[i..], count) ==
      match BannerStep(d, banners[i])
      case Raised(e) => Raised(e)
      case Ok((d', k)) => BannersFrom(d', banners[i + 1..], count + k)
  {
    assert banners[i..][0] == banners[i] && banners[i..][1..] == banners[i + 1..];
  }

  /** The loop's accumulated form is the banner pass with the count so far added. */
  lemma {:induction false} BannersFromSpec(d: Element, banners: seq<Banner>, count: nat)
    ensures BannersFrom(d, banners, count) == AddCount(count, BannersSpec(d, banners))
    decreases banners
  {
    if banners != [] {
      var b := banners[0];
      match BannerStep(d, b)
      case Raised(e) =>
      case Ok((d', k)) =>
        BannersFromSpec(d', banners[1..], count + k);
        AddCountAdd(count, k, BannersSpec(d', banners[1..]));
    }
  }

  lemma AddCountAdd(a: nat, b: nat, r: Result<(Element, nat)>)
    ensures AddCount(a, AddCount(b, r)) == AddCount(a + b, r)
  {
  }

  /** Configs whose `text_contains` is empty change nothing and count nothing. */
  lemma {:induction false} EmptyBannersSkipped(doc: Element, banners: seq<Banner>)
    requires forall i :: 0 <= i < |banners| ==> banners[i].textContains == ""
    ensures BannersSpec(doc, banners) == Ok((doc, 0))
  {
    if banners != [] {
      EmptyBannersSkipped(doc, banners[1..]);
    }
  }

  /**
   * One banner config: the count is the number of matching elements that have
   * a parent (the root is never removed), and nothing that matched survives.
   */
  lemma OneBanner(doc: Element, b: Banner)
    requires b.textContains != "" && '\'' !in b.textContains
    ensures var p := BannerMatch(BannerTag(b), b.textContains);
      && BannersSpec(doc, [b]) == Ok((Prune(doc, p), Count(Descendants(doc), p)))
      && (forall d :: d in Descendants(Prune(doc, p)) ==> exists o :: o in Descendants(doc) && !p(o) && d == Prune(o, p))
  {
    var p := BannerMatch(BannerTag(b), b.textContains);
    assert [b][1..] == [];
    forall d | d in Descendants(Prune(doc, p))
      ensures exists o :: o in Descendants(doc) && !p(o) && d == Prune(o, p)
    {
      PruneOrigin(doc, p, d);
    }
  }

  // ---------------------------------------------------------------------------
  // cleanup_markup

  /** The XPath selecting every element with `@attr`, or only those of one tag when scoped. */
  function HasAttrOn(on: Option<string>, attr: string): Element -> bool {
    (x: Element) => attr in x.attrs && (on.None? || x.tag == on.value)
  }

  /** The attribute map of an element after `del elem.attrib[attr]`, if the query selects it. */
  function StripFn(on: Option<string>, attr: string): Element -> map<string, string> {
    (x: Element) => if on.None? || x.tag == on.value then x.attrs - {attr} else x.attrs
  }

  /** `del elem.attrib[attr]` on every element the query above selects. */
  function StripAttr(e: Element, on: Option<string>, attr: string): Element {
    Relabel(e, StripFn(on, attr))
  }

  /** The i-th element after stripping: same tag, loses `attr` exactly when it is of the scoped tag. */
  lemma StripAttrAt(e: Element, on: Option<string>, attr: string)
    ensures |Nodes(StripAttr(e, on, attr))| == |Nodes(e)|
    ensures forall i :: 0 <= i < |Nodes(e)| ==>
      var x, y := Nodes(e)[i], Nodes(StripAttr(e, on, attr))[i];
      && y.tag == x.tag && y.text == x.text && y.tail == x.tail
      && y.attrs == (if on.None? || x.tag == on.value then x.attrs - {attr} else x.attrs)
  {
    NodesRelabel(e, StripFn(on, attr));
  }

  /** No element of the tree carries `attr`. */
  predicate NoAttr(e: Element, attr: string) {
    forall i :: 0 <= i < |Nodes(e)| ==> attr !in Nodes(e)[i].attrs
  }

  /** No descendant has one of the tags. */
  predicate NoTagsBelow(e: Element, tags: seq<string>) {
    forall d, t :: d in Descendants(e) && t in tags ==> d.tag != t
  }

  function TagsSpec(doc: Element, tags: seq<string>): (Element, nat)
    decreases tags
  {
    if tags == [] then (doc, 0)
    else
      var (d, c) := TagsSpec(Prune(doc, TagIs(tags[0])), tags[1..]);
      (d, Count(Nodes(doc), TagIs(tags[0])) + c)
  }

  function AttrsSpec(doc: Element, on: Option<string>, attrs: seq<string>): (Element, nat)
    decreases attrs
  {
    if attrs == [] then (doc, 0)
    else
      var (d, c) := AttrsSpec(StripAttr(doc, on, attrs[0]), on, attrs[1..]);
      (d, Count(Nodes(doc), HasAttrOn(on, attrs[0])) + c)
  }

  function TagAttrsSpec(doc: Element, scoped: seq<(string, seq<string>)>): (Element, nat)
    decreases scoped
  {
    if scoped == [] then (doc, 0)
    else
      var (d1, c1) := AttrsSpec(doc, Some(scoped[0].0), scoped[0].1);
      var (d2, c2) := TagAttrsSpec(d1, scoped[1..]);
      (d2, c1 + c2)
  }

  /**
   * The blacklist pass: remove listed tags (every match counts, even the root
   * that cannot be removed), then global attributes, then tag-scoped ones.
   */
  function CleanupSpec(doc: Element, bl: Blacklist): (Element, nat)
  {
    var (d1, c1) := TagsSpec(doc, bl.tags);
    var (d2, c2) := AttrsSpec(d1, None, bl.attributes);
    var (d3, c3) := TagAttrsSpec(d2, bl.attributesOnTags);
    (d3, c1 + c2 + c3)
  }

  /** `cleanup_markup(doc, config)`: the three loops in turn, summing their counts. */
  method CleanupMarkup(doc: Element, bl: Blacklist) returns (d: Element, count: nat)
    ensures (d, count) == CleanupSpec(doc, bl)
  {
    var d1, c1 := RemoveTags(doc, bl.tags);
    var d2, c2 := StripAttrs(d1, None, bl.attributes);
    var c3;
    d, c3 := StripTagAttrs(d2, bl.attributesOnTags);
    count := c1 + c2 + c3;
  }

  /** The loop over `blacklist['tags']`. */
  method RemoveTags(doc: Element, tags: seq<string>) returns (d: Element, count: nat)
    ensures (d, count) == TagsSpec(doc, tags)
  {
    d, count := doc, 0;
    var i := 0;
    while i < |tags|
      invariant 0 <= i <= |tags|
      invariant TagsSpec(doc, tags) == (TagsSpec(d, tags[i..]).0, count + TagsSpec(d, tags[i..]).1)
    {
      assert tags[i..][1..] == tags[i + 1..];
      count := count + Count(Nodes(d), TagIs(tags[i]));
      d := Prune(d, TagIs(tags[i]));
      i := i + 1;
    }
  }

  /** The loop over attribute names, for all elements (`on == None`) or for one tag. */
  method StripAttrs(doc: Element, on: Option<string>, attrs: seq<string>) returns (d: Element, count: nat)
    ensures (d, count) == AttrsSpec(doc, on, attrs)
  {
    d, count := doc, 0;
    var i := 0;
    while i < |attrs|
      invariant 0 <= i <= |attrs|
      invariant AttrsSpec(doc, on, attrs) == (AttrsSpec(d, on, attrs[i..]).0, count + AttrsSpec(d, on, attrs[i..]).1)
    {
      assert attrs[i..][1..] == attrs[i + 1..];
      count := count + Count(Nodes(d), HasAttrOn(on, attrs[i]));
      d := StripAttr(d, on, attrs[i]);
      i := i + 1;
    }
  }

  /** The loop over `blacklist['attributes_on_tags'].items()`. */
  method StripTagAttrs(doc: Element, scoped: seq<(string, seq<string>)>) returns (d: Element, count: nat)
    ensures (d, count) == TagAttrsSpec(doc, scoped)
  {
    d, count := doc, 0;
    var i := 0;
    while i < |scoped|
      invariant 0 <= i <= |scoped|
      invariant TagAttrsSpec(doc, scoped) == (TagAttrsSpec(d, scoped[i..]).0, count + TagAttrsSpec(d, scoped[i..]).1)
    {
      assert scoped[i..][1..] == scoped[i + 1..];
      var k;
      d, k := StripAttrs(d, Some(scoped[i].0), scoped[i].1);
      count := count + k;
      i := i + 1;
    }
  }

  /** Stripping attributes never adds one back. */
  lemma StripKeepsNoAttr(e: Element, on: Option<string>, a: string, gone: string)
    requires NoAttr(e, gone)
    ensures NoAttr(StripAttr(e, on, a), gone)
  {
    StripAttrAt(e, on, a);
  }

  lemma StripKeepsTagsGone(e: Element, on: Option<string>, a: string, tags: seq<string>)
    requires NoTagsBelow(e, tags)
    ensures NoTagsBelow(StripAttr(e, on, a), tags)
  {
    var f := StripFn(on, a);
    var below := Descendants(e);
    NodesOfRelabel(e.children, f);
    assert Descendants(StripAttr(e, on, a)) == RelabelOf(below, f);
    forall d, t | d in RelabelOf(below, f) && t in tags ensures d.tag != t {
      var i :| 0 <= i < |below| && RelabelOf(below, f)[i] == d;
      assert below[i] in below;
    }
  }

  lemma {:induction false} AttrsKeep(doc: Element, on: Option<string>, attrs: seq<string>, gone: string, tags: seq<string>)
    ensures NoAttr(doc, gone) ==> NoAttr(AttrsSpec(doc, on, attrs).0, gone)
    ensures NoTagsBelow(doc, tags) ==> NoTagsBelow(AttrsSpec(doc, on, attrs).0, tags)
    decreases attrs
  {
    if attrs != [] {
      if NoAttr(doc, gone) { StripKeepsNoAttr(doc, on, attrs[0], gone); }
      if NoTagsBelow(doc, tags) { StripKeepsTagsGone(doc, on, attrs[0], tags); }
      AttrsKeep(StripAttr(doc, on, attrs[0]), on, attrs[1..], gone, tags);
    }
  }

  lemma {:induction false} TagAttrsKeep(doc: Element, scoped: seq<(string, seq<string>)>, gone: string, tags: seq<string>)
    ensures NoAttr(doc, gone) ==> NoAttr(TagAttrsSpec(doc, scoped).0, gone)
    ensures NoTagsBelow(doc, tags) ==> NoTagsBelow(TagAttrsSpec(doc, scoped).0, tags)
    decreases scoped
  {
    if scoped != [] {
      AttrsKeep(doc, Some(scoped[0].0), scoped[0].1, gone, tags);
      TagAttrsKeep(AttrsSpec(doc, Some(scoped[0].0), scoped[0].1).0, scoped[1..], gone, tags);
    }
  }

  lemma {:induction false} GlobalAttrsGone(doc: Element, attrs: seq<string>)
    ensures forall a :: a in attrs ==> NoAttr(AttrsSpec(doc, None, attrs).0, a)
    decreases attrs
  {
    if attrs != [] {
      var stripped := StripAttr(doc, None, attrs[0]);
      StripAttrAt(doc, None, attrs[0]);
      assert NoAttr(stripped, attrs[0]);
      AttrsKeep(stripped, None, attrs[1..], attrs[0], []);
      GlobalAttrsGone(stripped, attrs[1..]);
    }
  }

  lemma {:induction false} TagsGone(doc: Element, tags: seq<string>)
    ensures NoTagsBelow(TagsSpec(doc, tags).0, tags)
    decreases tags
  {
    if tags != [] {
      var pruned := Prune(doc, TagIs(tags[0]));
      var result := TagsSpec(doc, tags).0;
      assert result == TagsSpec(pruned, tags[1..]).0;
      TagGone(doc, tags[0]);
      TagsGone(pruned, tags[1..]);
      TagsKeepGone(pruned, tags[1..], tags[0]);
      forall d, t | d in Descendants(result) && t in tags ensures d.tag != t {
        if t != tags[0] {
          assert t in tags[1..];
        }
      }
    }
  }

  lemma {:induction false} TagsKeepGone(doc: Element, tags: seq<string>, gone: string)
    requires forall d :: d in Descendants(doc) ==> d.tag != gone
    ensures forall d :: d in Descendants(TagsSpec(doc, tags).0) ==> d.tag != gone
    decreases tags
  {
    if tags != [] {
      TagStaysGone(doc, gone, TagIs(tags[0]));
      TagsKeepGone(Prune(doc, TagIs(tags[0])), tags[1..], gone);
    }
  }

  /**
   * After `cleanup_markup` no element carries a globally blacklisted attribute
   * and no element below the root has a blacklisted tag.
   */
  lemma CleanupGuarantees(doc: Element, bl: Blacklist)
    ensures forall a :: a in bl.attributes ==> NoAttr(CleanupSpec(doc, bl).0, a)
    ensures NoTagsBelow(CleanupSpec(doc, bl).0, bl.tags)
  {
    var d1 := TagsSpec(doc, bl.tags).0;
    var d2 := AttrsSpec(d1, None, bl.attributes).0;
    TagsGone(doc, bl.tags);
    AttrsKeep(d1, None, bl.attributes, "", bl.tags);
    TagAttrsKeep(d2, bl.attributesOnTags, "", bl.tags);
    GlobalAttrsGone(d1, bl.attributes);
    forall a | a in bl.attributes ensures NoAttr(CleanupSpec(doc, bl).0, a) {
      TagAttrsKeep(d2, bl.attributesOnTags, a, []);
    }
  }
}
