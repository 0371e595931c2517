/**
 * The content-document side of epub3_upgrade.py. `fix_xhtml_structure_and_title`
 * gives every XHTML document of the manifest one fresh head, titled with
 * the book title. `build_nav_and_landmarks` collects table-of-contents
 * entries from the h1/h2 headings of the spine documents, in spine order. It
 * gives an id to each heading that lacks one, and builds an EPUB 3
 * navigation document with a `toc` nav and a `landmarks` nav.
 */
module Nav {
  import opened Strings
  import opened Wrappers
  import opened Xml
  import opened Files

  const EpubType := "epub:type"

  // ---------------------------------------------------------------------------
  // fix_xhtml_structure_and_title

  /**
   * The stripped text of the first `dc:title` below the first `metadata`.
   * Without a title, or with a title that has no text, it is `Untitled`.
   * Without metadata the lookup raises.
   */
  function UpgradeTitle(opf: Element): (r: Result<string>)
    ensures r.Raised? <==> forall x :: x in Descendants(opf) ==> x.tag != "metadata"
  {
    match FirstTagged(Descendants(opf), "metadata")
    case None => Raised("AttributeError")
    case Some(md) =>
      match FirstTagged(Descendants(md), "dc:title")
      case None => Ok("Untitled")
      case Some(t) => Ok(if t.text != "" then Strip(t.text) else "Untitled")
  }

  predicate IsHead(e: Element) {
    e.tag == "head"
  }

  predicate NotHead(e: Element) {
    !IsHead(e)
  }

  function NewHead(title: string): Element {
    Element("head", map[], "", "", [Element("title", map[], title, "", [])])
  }

  /**
   * `/html/head` matches the head children of an `html` root; each is removed
   * with its tail. The new head is then inserted as the first child.
   */
  function ReplaceHead(root: Element, title: string): Element {
    root.(children := [NewHead(title)] + (if root.tag == "html" then Filter(root.children, NotHead) else root.children))
  }

  /**
   * The new head is the first child. Under an `html` root it is the only
   * head, and the other children are the old non-head children in order.
   * Under any other root nothing is removed.
   */
  lemma ReplaceHeadSpec(root: Element, title: string)
    ensures var r := ReplaceHead(root, title);
      && r.tag == root.tag && r.attrs == root.attrs && r.text == root.text && r.tail == root.tail
      && r.children[0] == NewHead(title)
      && (root.tag == "html" ==> Count(r.children, IsHead) == 1 && r.children[1..] == Filter(root.children, NotHead))
      && (root.tag != "html" ==> r.children[1..] == root.children)
  {
    var r := ReplaceHead(root, title);
    if root.tag == "html" {
      var kept := Filter(root.children, NotHead);
      assert r.children == [NewHead(title)] + kept;
      FilterConcat([NewHead(title)], kept, IsHead);
      assert Filter([NewHead(title)], IsHead) == [NewHead(title)] by {
        assert [NewHead(title)][1..] == [];
      }
      FilterNone(kept, IsHead);
    }
  }

  /** Under an `html` root a second replacement leaves what a single one with the second title would. */
  lemma ReplaceHeadTwice(root: Element, t1: string, t2: string)
    requires root.tag == "html"
    ensures ReplaceHead(ReplaceHead(root, t1), t2) == ReplaceHead(root, t2)
  {
    var kept := Filter(root.children, NotHead);
    FilterConcat([NewHead(t1)], kept, NotHead);
    assert Filter([NewHead(t1)], NotHead) == [] by {
      assert [NewHead(t1)][1..] == [];
    }
    FilterIdempotent(root.children, NotHead);
    assert [] + kept == kept;
  }

  /** One manifest item: a non-empty href naming a file the parser reads is rewritten; anything else is skipped. */
  function FixItem(item: Element, title: string, files: Disk): Disk {
    var href := Get(item, "href");
    if href != "" && IsParsed(files, href) then files[href := Parsed(ReplaceHead(files[href].root, title))] else files
  }

  function FixItems(items: seq<Element>, title: string, files: Disk): Disk
    decreases items
  {
    if items == [] then files else FixItems(items[1..], title, FixItem(items[0], title, files))
  }

  /** `fix_xhtml_structure_and_title(opf_tree, opf_path)`. */
  method FixXhtml(files: Disk, opf: Element) returns (r: Result<Disk>)
    ensures r.Raised? <==> UpgradeTitle(opf).Raised?
    ensures r.Raised? ==> r.error == UpgradeTitle(opf).error
    ensures r.Ok? ==> r.value == FixItems(XhtmlItems(opf), UpgradeTitle(opf).value, files)
  {
    var title := UpgradeTitle(opf);
    if title.Raised? {
      return Raised(title.error);
    }
    var items := XhtmlItems(opf);
    var out := files;
    var i := 0;
    while i < |items|
      invariant 0 <= i <= |items|
      invariant FixItems(items, title.value, files) == FixItems(items[i..], title.value, out)
    {
      assert items[i..][0] == items[i] && items[i..][1..] == items[i + 1..];
      var href := Get(items[i], "href");
      if href != "" && href in out && out[href].Parsed? {
        out := out[href := Parsed(ReplaceHead(out[href].root, title.value))];
      }
      i := i + 1;
    }
    return Ok(out);
  }

  /**
   * No file is added or removed. A file that no item selects, or that the
   * parser cannot read, is left as it was. Every selected document with an
   * `html` root ends up as one head replacement of the original, however
   * often it is listed.
   */
  lemma {:induction false} FixItemsSpec(items: seq<Element>, title: string, files: Disk)
    ensures var r := FixItems(items, title, files);
      && r.Keys == files.Keys
      && (forall p :: p in files && (p !in Selected(items, files.Keys) || !files[p].Parsed?) ==> r[p] == files[p])
      && (forall p :: p in Selected(items, files.Keys) && IsParsed(files, p) && files[p].root.tag == "html" ==>
            r[p] == Parsed(ReplaceHead(files[p].root, title)))
    decreases items
  {
    if items != [] {
      var f1 := FixItem(items[0], title, files);
      FixItemsSpec(items[1..], title, f1);
      var href := Get(items[0], "href");
      assert f1.Keys == files.Keys;
      forall p | p in Selected(items, files.Keys) && IsParsed(files, p) && files[p].root.tag == "html"
        ensures FixItems(items, title, files)[p] == Parsed(ReplaceHead(files[p].root, title))
      {
        if p == href {
          if p in Selected(items[1..], files.Keys) {
            ReplaceHeadSpec(files[p].root, title);
            ReplaceHeadTwice(files[p].root, title, title);
          }
        } else {
          assert p in Selected(items[1..], files.Keys);
        }
      }
    }
  }

  // ---------------------------------------------------------------------------
  // build_nav_and_landmarks: the spine and the manifest map

  /**
   * `//parent/tag`: the elements with tag `tag` whose parent has tag
   * `parent`, in document order; `underParent` says whether the parent of
   * `e` has tag `parent`.
   */
  function ChildrenTagged(e: Element, parent: string, tag: string, underParent: bool): (r: seq<Element>)
    ensures forall x :: x in r ==> x.tag == tag
  {
    (if underParent && e.tag == tag then [e] else []) + ChildrenTaggedOf(e.children, parent, tag, e.tag == parent)
  }

  function ChildrenTaggedOf(cs: seq<Element>, parent: string, tag: string, underParent: bool): (r: seq<Element>)
    ensures forall x :: x in r ==> x.tag == tag
  {
    if cs == [] then [] else ChildrenTagged(cs[0], parent, tag, underParent) + ChildrenTaggedOf(cs[1..], parent, tag, underParent)
  }

  /** The `idref` attribute of each element that has one, in order. */
  function Idrefs(refs: seq<Element>): seq<string> {
    if refs == [] then []
    else (if "idref" in refs[0].attrs then [refs[0].attrs["idref"]] else []) + Idrefs(refs[1..])
  }

  /** `//opf:spine/opf:itemref/@idref`. */
  function SpineIdrefs(opf: Element): seq<string> {
    Idrefs(ChildrenTagged(opf, "spine", "itemref", false))
  }

  /** `//opf:manifest/opf:item`. */
  function ManifestItems(opf: Element): seq<Element> {
    ChildrenTagged(opf, "manifest", "item", false)
  }

  /**
   * `{item.get('id'): item.get('href') for item in items}`, built in item
   * order. An item without id has the key None, which no idref can look up, so it is left out.
   */
  function ManifestMap(items: seq<Element>): map<string, string>
    decreases |items|
  {
    if items == [] then map[]
    else
      var last := items[|items| - 1];
      var m := ManifestMap(items[..|items| - 1]);
      if "id" in last.attrs then m[last.attrs["id"] := Get(last, "href")] else m
  }

  /** The keys are exactly the ids of the items, and each maps to the href of the LAST item with that id. */
  lemma ManifestMapSpec(items: seq<Element>)
    ensures forall k :: k in ManifestMap(items) <==> exists i :: 0 <= i < |items| && HasId(items[i], k)
    ensures forall k, j :: 0 <= j < |items| && HasId(items[j], k) && (forall i :: j < i < |items| ==> !HasId(items[i], k)) ==>
              ManifestMap(items)[k] == Get(items[j], "href")
  {
    ManifestMapKeys(items);
    ManifestMapLast(items);
  }

  lemma {:induction false} ManifestMapKeys(items: seq<Element>)
    ensures forall k :: k in ManifestMap(items) <==> exists i :: 0 <= i < |items| && HasId(items[i], k)
    decreases |items|
  {
    if items != [] {
      var n := |items| - 1;
      var pre := items[..n];
      ManifestMapKeys(pre);
      var m := ManifestMap(items);
      var pm := ManifestMap(pre);
      assert m == if "id" in items[n].attrs then pm[items[n].attrs["id"] := Get(items[n], "href")] else pm;
      forall k ensures k in m <==> exists i :: 0 <= i < |items| && HasId(items[i], k) {
        if HasId(items[n], k) {
          assert k in m;
        } else {
          assert (k in m) == (k in pm);
          if exists i :: 0 <= i < |items| && HasId(items[i], k) {
            var i :| 0 <= i < |items| && HasId(items[i], k);
            assert i < n && pre[i] == items[i];
          }
          if exists i :: 0 <= i < |pre| && HasId(pre[i], k) {
            var i :| 0 <= i < |pre| && HasId(pre[i], k);
            assert items[i] == pre[i];
          }
        }
      }
    }
  }

  lemma {:induction false} ManifestMapLast(items: seq<Element>)
    ensures forall k, j :: 0 <= j < |items| && HasId(items[j], k) && (forall i :: j < i < |items| ==> !HasId(items[i], k)) ==>
              k in ManifestMap(items) && ManifestMap(items)[k] == Get(items[j], "href")
    decreases |items|
  {
    if items != [] {
      var n := |items| - 1;
      var pre := items[..n];
      ManifestMapLast(pre);
      var m := ManifestMap(items);
      var pm := ManifestMap(pre);
      assert m == if "id" in items[n].attrs then pm[items[n].attrs["id"] := Get(items[n], "href")] else pm;
      forall k, j | 0 <= j < |items| && HasId(items[j], k) && (forall i :: j < i < |items| ==> !HasId(items[i], k))
        ensures k in m && m[k] == Get(items[j], "href")
      {
        if j < n {
          assert !HasId(items[n], k);
          assert pre[j] == items[j];
          forall i | j < i < |pre| ensures !HasId(pre[i], k) {
            assert pre[i] == items[i];
          }
          assert k in pm && m[k] == pm[k];
        }
      }
    }
  }

  // ---------------------------------------------------------------------------
  // build_nav_and_landmarks: headings

  /** `' '.join(heading.itertext()).strip()`. */
  function HeadingText(e: Element): string {
    Strip(Join(" ", ItText(e)))
  }

  /** An h1 or h2 whose text is not blank: it yields a TOC entry. */
  predicate IsTocHeading(e: Element) {
    IsHeading(e) && HeadingText(e) != ""
  }

  /** A heading made only of no-break and em spaces strips to nothing, so it yields no entry. */
  lemma BlankHeadingSkipped()
    ensures !IsTocHeading(Element("h1", map[], "\U{A0}\U{2003}", "", []))
  {
    var h := Element("h1", map[], "\U{A0}\U{2003}", "", []);
    assert ItText(h) == ["\U{A0}\U{2003}"];
    assert Join(" ", ItText(h)) == "\U{A0}\U{2003}";
    assert LStrip("\U{A0}\U{2003}") == LStrip("\U{2003}") == LStrip("") == "";
  }

  /** A TOC heading without a usable id: it is given `heading-<uuid>`. */
  predicate NeedsId(e: Element) {
    IsTocHeading(e) && Get(e, "id") == ""
  }

  function HeadingId(uuids: nat -> string, k: nat): string {
    "heading-" + uuids(k)
  }

  /**
   * The heading loop over one document, in document order: each heading
   * that needs an id takes the next fresh one. The second component is the
   * number of fresh ids used so far.
   */
  function Label(e: Element, uuids: nat -> string, k: nat): (Element, nat)
  {
    var self := if NeedsId(e) then e.(attrs := e.attrs["id" := HeadingId(uuids, k)]) else e;
    var rest := LabelOf(e.children, uuids, if NeedsId(e) then k + 1 else k);
    (self.(children := rest.0), rest.1)
  }

  function LabelOf(cs: seq<Element>, uuids: nat -> string, k: nat): (seq<Element>, nat)
  {
    if cs == [] then ([], k)
    else
      var first := Label(cs[0], uuids, k);
      var rest := LabelOf(cs[1..], uuids, first.1);
      ([first.0] + rest.0, rest.1)
  }

  /** The tree with every `id` attribute dropped: what labelling must leave alone. */
  function NoIdFn(): Element -> map<string, string> {
    (x: Element) => x.attrs - {"id"}
  }

  function Erase(e: Element): Element {
    Relabel(e, NoIdFn())
  }

  /** Apart from ids the labelled tree is the original one, with the same tag, text pieces and tail. */
  lemma {:induction false} LabelKeeps(e: Element, uuids: nat -> string, k: nat)
    ensures var r := Label(e, uuids, k).0;
      r.tag == e.tag && r.tail == e.tail && ItText(r) == ItText(e) && Erase(r) == Erase(e)
    decreases e, 1
  {
    var k1 := if NeedsId(e) then k + 1 else k;
    LabelOfKeeps(e.children, uuids, k1);
    var r := Label(e, uuids, k).0;
    assert r.children == LabelOf(e.children, uuids, k1).0;
    if NeedsId(e) {
      UpdateThenDrop(e.attrs, "id", HeadingId(uuids, k));
    }
    assert r.attrs - {"id"} == e.attrs - {"id"};
  }

  /** Setting a key and then dropping it is dropping it. */
  lemma UpdateThenDrop(m: map<string, string>, key: string, v: string)
    ensures m[key := v] - {key} == m - {key}
  {
    var a, b := m[key := v] - {key}, m - {key};
    assert a.Keys == b.Keys;
    forall x | x in a ensures a[x] == b[x] {}
  }

  lemma {:induction false} LabelOfKeeps(cs: seq<Element>, uuids: nat -> string, k: nat)
    ensures var r := LabelOf(cs, uuids, k).0;
      ItTextOf(r) == ItTextOf(cs) && RelabelOf(r, NoIdFn()) == RelabelOf(cs, NoIdFn())
    decreases cs, 0
  {
    if cs != [] {
      var first := Label(cs[0], uuids, k);
      var rest := LabelOf(cs[1..], uuids, first.1);
      LabelKeeps(cs[0], uuids, k);
      LabelOfKeeps(cs[1..], uuids, first.1);
      var r := [first.0] + rest.0;
      assert r[0] == first.0 && r[1..] == rest.0;
      assert [cs[0]] + cs[1..] == cs;
      RelabelOfConcat([first.0], rest.0, NoIdFn());
      RelabelOfConcat([cs[0]], cs[1..], NoIdFn());
    }
  }

  /** Labelling uses one fresh id per heading that needs one, and afterwards no heading needs one. */
  lemma {:induction false} LabelSpec(e: Element, uuids: nat -> string, k: nat)
    ensures Label(e, uuids, k).1 == k + Count(Nodes(e), NeedsId)
    ensures Count(Nodes(Label(e, uuids, k).0), NeedsId) == 0
    decreases e, 1
  {
    var r := Label(e, uuids, k).0;
    var k1 := if NeedsId(e) then k + 1 else k;
    LabelOfSpec(e.children, uuids, k1);
    LabelKeeps(e, uuids, k);
    assert r.children == LabelOf(e.children, uuids, k1).0;
    assert HeadingText(r) == HeadingText(e);
    assert !NeedsId(r);
    FilterConcat([r], NodesOf(r.children), NeedsId);
    FilterConcat([e], NodesOf(e.children), NeedsId);
    assert Filter([r], NeedsId) == [] by {
      assert [r][1..] == [];
    }
    assert Filter([e], NeedsId) == (if NeedsId(e) then [e] else []) by {
      assert [e][1..] == [];
    }
  }

  lemma {:induction false} LabelOfSpec(cs: seq<Element>, uuids: nat -> string, k: nat)
    ensures LabelOf(cs, uuids, k).1 == k + Count(NodesOf(cs), NeedsId)
    ensures Count(NodesOf(LabelOf(cs, uuids, k).0), NeedsId) == 0
    decreases cs, 0
  {
    if cs != [] {
      var first := Label(cs[0], uuids, k);
      var rest := LabelOf(cs[1..], uuids, first.1);
      LabelSpec(cs[0], uuids, k);
      LabelOfSpec(cs[1..], uuids, first.1);
      var r := [first.0] + rest.0;
      assert r[1..] == rest.0;
      CountNodesOf(first.0, rest.0, NeedsId);
      CountNodesOf(cs[0], cs[1..], NeedsId);
      assert [cs[0]] + cs[1..] == cs;
    }
  }

  /** A tree in which no heading needs an id is left exactly as it is, and no fresh id is used. */
  lemma {:induction false} LabelNothing(e: Element, uuids: nat -> string, k: nat)
    requires Count(Nodes(e), NeedsId) == 0
    ensures Label(e, uuids, k) == (e, k)
    decreases e, 1
  {
    FilterConcat([e], NodesOf(e.children), NeedsId);
    assert Filter([e], NeedsId) == (if NeedsId(e) then [e] else []) by {
      assert [e][1..] == [];
    }
    LabelOfNothing(e.children, uuids, k);
  }

  lemma {:induction false} LabelOfNothing(cs: seq<Element>, uuids: nat -> string, k: nat)
    requires Count(NodesOf(cs), NeedsId) == 0
    ensures LabelOf(cs, uuids, k) == (cs, k)
    decreases cs, 0
  {
    if cs != [] {
      CountNodesOf(cs[0], cs[1..], NeedsId);
      assert [cs[0]] + cs[1..] == cs;
      LabelNothing(cs[0], uuids, k);
      LabelOfNothing(cs[1..], uuids, k);
    }
  }

  /** Labelling a labelled document again changes nothing and uses no fresh id. */
  lemma LabelTwice(e: Element, uuids: nat -> string, k: nat, uuids2: nat -> string, k2: nat)
    ensures Label(Label(e, uuids, k).0, uuids2, k2) == (Label(e, uuids, k).0, k2)
  {
    LabelSpec(e, uuids, k);
    LabelNothing(Label(e, uuids, k).0, uuids2, k2);
  }

  /** A TOC entry: `{'href': ..., 'text': ...}`. */
  datatype Entry = Entry(href: string, text: string)

  function EntriesOf(href: string, hs: seq<Element>): seq<Entry> {
    if hs == [] then [] else [Entry(href + "#" + Get(hs[0], "id"), HeadingText(hs[0]))] + EntriesOf(href, hs[1..])
  }

  /** The entries of a labelled document at `href`, one per TOC heading in document order. */
  function DocEntries(href: string, root: Element): seq<Entry> {
    EntriesOf(href, Filter(Nodes(root), IsTocHeading))
  }

  /** An entry has non-empty text and an href `<doc>#<id>` with a non-empty id. */
  predicate EntryFor(href: string, e: Entry) {
    e.text != "" && |e.href| > |href| + 1 && e.href[..|href| + 1] == href + "#"
  }

  lemma EntryForHeading(href: string, h: Element)
    requires IsTocHeading(h) && Get(h, "id") != ""
    ensures EntryFor(href, Entry(href + "#" + Get(h, "id"), HeadingText(h)))
  {
    var u := href + "#" + Get(h, "id");
    assert u[..|href| + 1] == href + "#";
  }

  /** An entry that points into a document has text and a `#` in its href. */
  lemma EntryForHash(href: string, e: Entry)
    requires EntryFor(href, e)
    ensures e.text != "" && '#' in e.href
  {
    assert e.href[|href|] == (href + "#")[|href|];
  }

  lemma {:induction false} EntriesOfSpec(href: string, hs: seq<Element>)
    requires forall i :: 0 <= i < |hs| ==> IsTocHeading(hs[i]) && Get(hs[i], "id") != ""
    ensures |EntriesOf(href, hs)| == |hs|
    ensures forall i :: 0 <= i < |hs| ==> EntryFor(href, EntriesOf(href, hs)[i])
  {
    if hs != [] {
      var tail := hs[1..];
      assert forall i :: 0 <= i < |tail| ==> tail[i] == hs[i + 1];
      EntriesOfSpec(href, tail);
      EntryForHeading(href, hs[0]);
      var first := Entry(href + "#" + Get(hs[0], "id"), HeadingText(hs[0]));
      var rest := EntriesOf(href, tail);
      var e := EntriesOf(href, hs);
      assert e == [first] + rest;
      forall i | 0 <= i < |hs| ensures EntryFor(href, e[i]) {
        if i > 0 {
          assert e[i] == rest[i - 1];
        } else {
          assert e[0] == first;
        }
      }
    }
  }

  /**
   * Once no heading needs an id, a document yields exactly one entry per TOC
   * heading, and each entry points into that document.
   */
  lemma DocEntriesSpec(href: string, root: Element)
    requires Count(Nodes(root), NeedsId) == 0
    ensures |DocEntries(href, root)| == Count(Nodes(root), IsTocHeading)
    ensures forall i :: 0 <= i < |DocEntries(href, root)| ==> EntryFor(href, DocEntries(href, root)[i])
  {
    var hs := Filter(Nodes(root), IsTocHeading);
    forall i | 0 <= i < |hs| ensures IsTocHeading(hs[i]) && Get(hs[i], "id") != "" {
      var h := hs[i];
      assert h in hs;
      if NeedsId(h) {
        FilterKeeps(Nodes(root), NeedsId, h);
      }
    }
    EntriesOfSpec(href, hs);
  }

  // ---------------------------------------------------------------------------
  // build_nav_and_landmarks: the loop over the spine

  /** `href.endswith(('.xhtml', '.html'))` for a non-empty href. */
  predicate IsContentHref(href: string) {
    href != "" && (EndsWith(href, ".xhtml") || EndsWith(href, ".html"))
  }

  /** `manifest_map.get(idref)`, with None read as the empty string. */
  function HrefOf(m: map<string, string>, idref: string): string {
    if idref in m then m[idref] else ""
  }

  /** The hrefs of the spine items that pass the extension filter, in spine order. */
  function ContentHrefs(idrefs: seq<string>, m: map<string, string>): seq<string>
    decreases idrefs
  {
    if idrefs == [] then []
    else (if IsContentHref(HrefOf(m, idrefs[0])) then [HrefOf(m, idrefs[0])] else []) + ContentHrefs(idrefs[1..], m)
  }

  /** The loop state: the files, `toc_entries`, `start_of_content_href`, and the fresh ids used. */
  datatype Toc = Toc(files: Disk, entries: seq<Entry>, start: Option<string>, used: nat)

  /**
   * One spine idref. A passing href becomes the start if there is none yet,
   * even when its file is missing. A parsed document is labelled. It is
   * written only if some heading got a fresh id, and its entries are appended.
   */
  function TocStep(idref: string, m: map<string, string>, uuids: nat -> string, st: Toc): Toc {
    var href := HrefOf(m, idref);
    if !IsContentHref(href) then st
    else
      var st1 := if st.start.None? then st.(start := Some(href)) else st;
      if !IsParsed(st.files, href) then st1
      else
        var l := Label(st.files[href].root, uuids, st.used);
        st1.(files := if l.1 > st.used then st.files[href := Parsed(l.0)] else st.files,
             entries := st.entries + DocEntries(href, l.0),
             used := l.1)
  }

  function TocSteps(idrefs: seq<string>, m: map<string, string>, uuids: nat -> string, st: Toc): Toc
    decreases idrefs
  {
    if idrefs == [] then st else TocSteps(idrefs[1..], m, uuids, TocStep(idrefs[0], m, uuids, st))
  }

  /** The state after the loop over the spine of `opf`. */
  function TocOf(files: Disk, opf: Element, uuids: nat -> string): Toc {
    TocSteps(SpineIdrefs(opf), ManifestMap(ManifestItems(opf)), uuids, Toc(files, [], None, 0))
  }

  /** The body of the loop over the spine, for one idref. */
  method TocDocument(idref: string, m: map<string, string>, uuids: nat -> string, st: Toc) returns (st': Toc)
    ensures st' == TocStep(idref, m, uuids, st)
  {
    st' := st;
    var href := if idref in m then m[idref] else "";
    assert href == HrefOf(m, idref);
    if href != "" && (EndsWith(href, ".xhtml") || EndsWith(href, ".html")) {
      if st'.start.None? {
        st' := st'.(start := Some(href));
      }
      ghost var st1 := st';
      if href in st.files && st.files[href].Parsed? {
        var labelled := Label(st.files[href].root, uuids, st.used);
        if labelled.1 > st.used {
          st' := st'.(files := st.files[href := Parsed(labelled.0)]);
        }
        st' := st'.(entries := st.entries + DocEntries(href, labelled.0), used := labelled.1);
        assert st' == st1.(files := if labelled.1 > st.used then st.files[href := Parsed(labelled.0)] else st.files,
                           entries := st.entries + DocEntries(href, labelled.0), used := labelled.1);
      }
    }
  }

  /** The loop over the spine idrefs. */
  method CollectToc(files: Disk, opf: Element, uuids: nat -> string) returns (st: Toc)
    ensures st == TocOf(files, opf, uuids)
  {
    var idrefs := SpineIdrefs(opf);
    var m := ManifestMap(ManifestItems(opf));
    st := Toc(files, [], None, 0);
    var i := 0;
    while i < |idrefs|
      invariant 0 <= i <= |idrefs|
      invariant TocOf(files, opf, uuids) == TocSteps(idrefs[i..], m, uuids, st)
    {
      assert idrefs[i..][0] == idrefs[i] && idrefs[i..][1..] == idrefs[i + 1..];
      st := TocDocument(idrefs[i], m, uuids, st);
      i := i + 1;
    }
  }

  /** The start is the first passing spine href, unless one was already set. */
  lemma {:induction false} TocStepsStart(idrefs: seq<string>, m: map<string, string>, uuids: nat -> string, st: Toc)
    ensures TocSteps(idrefs, m, uuids, st).start ==
      if st.start.Some? || ContentHrefs(idrefs, m) == [] then st.start else Some(ContentHrefs(idrefs, m)[0])
    decreases idrefs
  {
    if idrefs != [] {
      TocStepsStart(idrefs[1..], m, uuids, TocStep(idrefs[0], m, uuids, st));
    }
  }

  /**
   * No file is added or removed, and only passing spine documents can change.
   * Entries are only appended, each with non-empty text and a `#` fragment, and
   * only once some spine href passes.
   */
  lemma {:induction false} TocStepsFrame(idrefs: seq<string>, m: map<string, string>, uuids: nat -> string, st: Toc)
    ensures var r := TocSteps(idrefs, m, uuids, st);
      && r.files.Keys == st.files.Keys
      && (forall p :: p in st.files && p !in ContentHrefs(idrefs, m) ==> r.files[p] == st.files[p])
      && |r.entries| >= |st.entries| && r.entries[..|st.entries|] == st.entries
      && (forall i :: |st.entries| <= i < |r.entries| ==> r.entries[i].text != "" && '#' in r.entries[i].href)
      && (|r.entries| > |st.entries| ==> ContentHrefs(idrefs, m) != [])
    decreases idrefs
  {
    if idrefs != [] {
      var st1 := TocStep(idrefs[0], m, uuids, st);
      TocStepEntries(idrefs[0], m, uuids, st);
      TocStepFiles(idrefs[0], m, uuids, st);
      TocStepsFrame(idrefs[1..], m, uuids, st1);
      var r := TocSteps(idrefs, m, uuids, st);
      assert r.entries[..|st1.entries|][..|st.entries|] == r.entries[..|st.entries|];
      forall i | |st.entries| <= i < |r.entries| ensures r.entries[i].text != "" && '#' in r.entries[i].href {
        if i < |st1.entries| {
          assert r.entries[i] == st1.entries[i];
        }
      }
    }
  }

  /** What one step adds to the entries. */
  lemma TocStepEntries(idref: string, m: map<string, string>, uuids: nat -> string, st: Toc)
    ensures var r := TocStep(idref, m, uuids, st);
      && |r.entries| >= |st.entries| && r.entries[..|st.entries|] == st.entries
      && (forall i :: |st.entries| <= i < |r.entries| ==> r.entries[i].text != "" && '#' in r.entries[i].href)
      && (|r.entries| > |st.entries| ==> IsContentHref(HrefOf(m, idref)))
  {
    var href := HrefOf(m, idref);
    if IsContentHref(href) && IsParsed(st.files, href) {
      var l := Label(st.files[href].root, uuids, st.used);
      LabelSpec(st.files[href].root, uuids, st.used);
      DocEntriesSpec(href, l.0);
      var r := TocStep(idref, m, uuids, st);
      var d := DocEntries(href, l.0);
      assert r.entries == st.entries + d;
      forall i | |st.entries| <= i < |r.entries| ensures r.entries[i].text != "" && '#' in r.entries[i].href {
        assert r.entries[i] == d[i - |st.entries|];
        EntryForHash(href, d[i - |st.entries|]);
      }
    }
  }

  /** One step changes at most the document its idref names, and writes only parsed documents. */
  lemma TocStepFiles(idref: string, m: map<string, string>, uuids: nat -> string, st: Toc)
    ensures var r := TocStep(idref, m, uuids, st);
      && r.files.Keys == st.files.Keys
      && (forall p :: p in st.files && p != HrefOf(m, idref) ==> r.files[p] == st.files[p])
      && (forall p :: IsParsed(st.files, p) ==> IsParsed(r.files, p))
  {
    var href := HrefOf(m, idref);
    var r := TocStep(idref, m, uuids, st);
    if IsContentHref(href) && IsParsed(st.files, href) {
      var l := Label(st.files[href].root, uuids, st.used);
      assert r.files == if l.1 > st.used then st.files[href := Parsed(l.0)] else st.files;
    } else {
      assert r.files == st.files;
    }
  }

  /** After the loop no heading of a parsed, passing spine document lacks an id. */
  lemma {:induction false} TocStepsLabelled(idrefs: seq<string>, m: map<string, string>, uuids: nat -> string, st: Toc)
    ensures var r := TocSteps(idrefs, m, uuids, st);
      forall p :: p in ContentHrefs(idrefs, m) && IsParsed(st.files, p) ==>
        IsParsed(r.files, p) && Count(Nodes(r.files[p].root), NeedsId) == 0
    decreases idrefs
  {
    if idrefs != [] {
      var st1 := TocStep(idrefs[0], m, uuids, st);
      var href := HrefOf(m, idrefs[0]);
      TocStepsLabelled(idrefs[1..], m, uuids, st1);
      TocStepsKeepLabelled(idrefs[1..], m, uuids, st1);
      TocStepFiles(idrefs[0], m, uuids, st);
      if IsContentHref(href) && IsParsed(st.files, href) {
        StepLabels(href, uuids, st);
      }
      var r := TocSteps(idrefs, m, uuids, st);
      forall p | p in ContentHrefs(idrefs, m) && IsParsed(st.files, p)
        ensures IsParsed(r.files, p) && Count(Nodes(r.files[p].root), NeedsId) == 0
      {
        if p !in ContentHrefs(idrefs[1..], m) {
          assert p == href;
        }
      }
    }
  }

  /** A passing, parsed document is left with no heading that needs an id. */
  lemma StepLabels(href: string, uuids: nat -> string, st: Toc)
    requires IsParsed(st.files, href)
    ensures var l := Label(st.files[href].root, uuids, st.used);
      var files := if l.1 > st.used then st.files[href := Parsed(l.0)] else st.files;
      IsParsed(files, href) && Count(Nodes(files[href].root), NeedsId) == 0
  {
    var l := Label(st.files[href].root, uuids, st.used);
    LabelSpec(st.files[href].root, uuids, st.used);
    if l.1 == st.used {
      LabelNothing(st.files[href].root, uuids, st.used);
    }
  }

  /** A parsed document in which no heading needs an id stays that way through later steps. */
  lemma {:induction false} TocStepsKeepLabelled(idrefs: seq<string>, m: map<string, string>, uuids: nat -> string, st: Toc)
    ensures var r := TocSteps(idrefs, m, uuids, st);
      forall p :: IsParsed(st.files, p) && Count(Nodes(st.files[p].root), NeedsId) == 0 ==>
        p in r.files && r.files[p] == st.files[p]
    decreases idrefs
  {
    if idrefs != [] {
      var st1 := TocStep(idrefs[0], m, uuids, st);
      var href := HrefOf(m, idrefs[0]);
      TocStepFiles(idrefs[0], m, uuids, st);
      if IsContentHref(href) && IsParsed(st.files, href) && Count(Nodes(st.files[href].root), NeedsId) == 0 {
        LabelNothing(st.files[href].root, uuids, st.used);
      }
      TocStepsKeepLabelled(idrefs[1..], m, uuids, st1);
    }
  }

  /** `if not toc_entries and start_of_content_href`: the default entry. */
  function FinalEntries(st: Toc): seq<Entry> {
    if st.entries == [] && st.start.Some? then [Entry(st.start.value, "Start of Content")] else st.entries
  }

  /**
   * The table of contents is empty exactly when no spine href passes the
   * extension filter. Without headings it holds the one default entry for
   * the start document.
   */
  lemma TocNonEmpty(files: Disk, opf: Element, uuids: nat -> string)
    ensures var m := ManifestMap(ManifestItems(opf));
      var st := TocOf(files, opf, uuids);
      && (FinalEntries(st) != [] <==> ContentHrefs(SpineIdrefs(opf), m) != [])
      && (st.entries == [] && ContentHrefs(SpineIdrefs(opf), m) != [] ==>
            FinalEntries(st) == [Entry(ContentHrefs(SpineIdrefs(opf), m)[0], "Start of Content")])
  {
    var m := ManifestMap(ManifestItems(opf));
    TocStepsStart(SpineIdrefs(opf), m, uuids, Toc(files, [], None, 0));
    TocStepsFrame(SpineIdrefs(opf), m, uuids, Toc(files, [], None, 0));
  }

  // ---------------------------------------------------------------------------
  // build_nav_and_landmarks: the navigation document

  function TocItem(e: Entry): Element {
    Element("li", map[], "", "", [Element("a", map["href" := e.href], e.text, "", [])])
  }

  function TocItems(entries: seq<Entry>): seq<Element> {
    if entries == [] then [] else [TocItem(entries[0])] + TocItems(entries[1..])
  }

  /** The TOC list: one `li` holding one `a` per entry. */
  function TocOl(entries: seq<Entry>): Element {
    Element("ol", map[], "", "", TocItems(entries))
  }

  /** `for entry in toc_entries: li = SubElement(toc_ol, 'li'); ...`. */
  method TocList(entries: seq<Entry>) returns (ol: Element)
    ensures ol == TocOl(entries)
  {
    ol := Element("ol", map[], "", "", []);
    var i := 0;
    while i < |entries|
      invariant 0 <= i <= |entries|
      invariant ol == Element("ol", map[], "", "", TocItems(entries[..i]))
    {
      TocItemsConcat(entries[..i], [entries[i]]);
      assert entries[..i + 1] == entries[..i] + [entries[i]];
      assert TocItems([entries[i]]) == [TocItem(entries[i])] by {
        assert [entries[i]][1..] == [];
      }
      ol := ol.(children := ol.children + [TocItem(entries[i])]);
      i := i + 1;
    }
    assert entries[..i] == entries;
  }

  lemma {:induction false} TocItemsConcat(a: seq<Entry>, b: seq<Entry>)
    ensures TocItems(a + b) == TocItems(a) + TocItems(b)
  {
    if a != [] {
      assert (a + b)[1..] == a[1..] + b;
      TocItemsConcat(a[1..], b);
    } else {
      assert a + b == b;
    }
  }

  function LandmarkItem(href: string, kind: string, text: string): Element {
    Element("li", map[], "", "", [Element("a", map["href" := href, EpubType := kind], text, "", [])])
  }

  /** The landmarks list: the TOC itself, then the start of content if there is one. */
  function LandmarksOl(start: Option<string>): Element {
    Element("ol", map[], "", "",
      [LandmarkItem("nav.xhtml", "toc", "Table of Contents")]
      + (if start.Some? then [LandmarkItem(start.value, "bodymatter", "Start of Content")] else []))
  }

  function NavElement(kind: string, heading: string, ol: Element): Element {
    Element("nav", map[EpubType := kind], "", "", [Element("h1", map[], heading, "", []), ol])
  }

  /** The navigation document around a given TOC list. */
  function NavDocument(toc: Element, start: Option<string>): Element {
    Element("html", map[], "", "", [
      Element("head", map[], "", "", [Element("title", map[], "Navigation", "", [])]),
      Element("body", map[], "", "", [
        NavElement("toc", "Table of Contents", toc),
        NavElement("landmarks", "Landmarks", LandmarksOl(start))])])
  }

  /** `build_nav_and_landmarks(opf_tree, opf_path)`, returning the navigation document and the files as the loop left them. */
  method BuildNav(files: Disk, opf: Element, uuids: nat -> string) returns (nav: Element, files': Disk)
    ensures var st := TocOf(files, opf, uuids);
      nav == NavDocument(TocOl(FinalEntries(st)), st.start) && files' == st.files
  {
    var st := CollectToc(files, opf, uuids);
    var ol := TocList(FinalEntries(st));
    nav := NavDocument(ol, st.start);
    files' := st.files;
  }

  // ---------------------------------------------------------------------------
  // Reading a navigation document back

  /** The links of a list: each item's first child read as href and text. */
  function ReadLinks(items: seq<Element>): seq<Entry> {
    if items == [] then []
    else
      var first := if items[0].children != [] then [Entry(Get(items[0].children[0], "href"), items[0].children[0].text)] else [];
      first + ReadLinks(items[1..])
  }

  /** The `epub:type` of each item's link. */
  function LinkKinds(items: seq<Element>): seq<string> {
    if items == [] then []
    else (if items[0].children != [] then [Get(items[0].children[0], EpubType)] else []) + LinkKinds(items[1..])
  }

  /** The first child of `cs` that is a `nav` of the given type. */
  function FindNav(cs: seq<Element>, kind: string): Option<Element> {
    if cs == [] then None
    else if cs[0].tag == "nav" && Get(cs[0], EpubType) == kind then Some(cs[0])
    else FindNav(cs[1..], kind)
  }

  /** The list inside `body > nav[epub:type=kind] > ol` of a navigation document. */
  function NavList(doc: Element, kind: string): Option<seq<Element>> {
    match FirstTagged(doc.children, "body")
    case None => None
    case Some(body) =>
      match FindNav(body.children, kind)
      case None => None
      case Some(nav) =>
        match FirstTagged(nav.children, "ol")
        case None => None
        case Some(ol) => Some(ol.children)
  }

  lemma {:induction false} ReadTocItems(entries: seq<Entry>)
    ensures ReadLinks(TocItems(entries)) == entries
  {
    if entries != [] {
      ReadTocItems(entries[1..]);
      assert TocItems(entries)[0] == TocItem(entries[0]);
      assert TocItems(entries)[1..] == TocItems(entries[1..]);
    }
  }

  /**
   * Read back, the `toc` nav lists exactly the entries, in order. The
   * `landmarks` nav links the TOC at `nav.xhtml`, then the start of content
   * if and only if there is one.
   */
  lemma NavDocumentSpec(entries: seq<Entry>, start: Option<string>)
    ensures var doc := NavDocument(TocOl(entries), start);
      && NavList(doc, "toc") == Some(TocItems(entries))
      && ReadLinks(TocItems(entries)) == entries
    ensures var doc := NavDocument(TocOl(entries), start);
      NavList(doc, "landmarks").Some? &&
      var l := NavList(doc, "landmarks").value;
      && ReadLinks(l) == [Entry("nav.xhtml", "Table of Contents")] + (if start.Some? then [Entry(start.value, "Start of Content")] else [])
      && LinkKinds(l) == ["toc"] + (if start.Some? then ["bodymatter"] else [])
      && ("bodymatter" in LinkKinds(l) <==> start.Some?)
  {
    ReadTocItems(entries);
    NavLists(entries, start);
    LandmarksSpec(start);
  }

  /** The two lists sit where a reader looks for them. */
  lemma NavLists(entries: seq<Entry>, start: Option<string>)
    ensures var doc := NavDocument(TocOl(entries), start);
      && NavList(doc, "toc") == Some(TocItems(entries))
      && NavList(doc, "landmarks") == Some(LandmarksOl(start).children)
  {
    var doc := NavDocument(TocOl(entries), start);
    var body := doc.children[1];
    assert FirstTagged(doc.children, "body") == Some(body);
    assert FindNav(body.children, "toc") == Some(body.children[0]);
    assert FindNav(body.children, "landmarks") == Some(body.children[1]);
  }

  lemma LandmarksSpec(start: Option<string>)
    ensures var l := LandmarksOl(start).children;
      && ReadLinks(l) == [Entry("nav.xhtml", "Table of Contents")] + (if start.Some? then [Entry(start.value, "Start of Content")] else [])
      && LinkKinds(l) == ["toc"] + (if start.Some? then ["bodymatter"] else [])
  {
    var l := LandmarksOl(start).children;
    var toc := LandmarkItem("nav.xhtml", "toc", "Table of Contents");
    assert Get(toc.children[0], EpubType) == "toc";
    assert LinkKinds(l) == ["toc"] + LinkKinds(l[1..]);
    assert ReadLinks(l) == [Entry("nav.xhtml", "Table of Contents")] + ReadLinks(l[1..]);
    if start.Some? {
      var bm := LandmarkItem(start.value, "bodymatter", "Start of Content");
      assert l[1..] == [bm];
      assert Get(bm.children[0], EpubType) == "bodymatter";
      assert [bm][1..] == [];
    } else {
      assert l[1..] == [];
    }
  }
}
