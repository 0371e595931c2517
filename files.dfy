/**
 * The unpacked book as the core sees it: file contents keyed by path, and
 * the package document's manifest entries for XHTML content.
 */
module Files {
  import opened Xml

  /** A file as the recovering parser reads it: a tree, or something it cannot parse at all. */
  datatype File = Parsed(root: Element) | Unparsable

  type Disk = map<string, File>

  predicate IsParsed(files: Disk, path: string) {
    path in files && files[path].Parsed?
  }

  /** `//opf:item[@media-type='application/xhtml+xml']`. */
  predicate IsXhtmlItem(e: Element) {
    e.tag == "item" && Get(e, "media-type") == "application/xhtml+xml"
  }

  function XhtmlItems(opf: Element): seq<Element> {
    Filter(Nodes(opf), IsXhtmlItem)
  }

  /** The hrefs of the items that name an existing file, in manifest order. */
  function Selected(items: seq<Element>, present: set<string>): seq<string>
  {
    if items == [] then []
    else
      var href := Get(items[0], "href");
      (if href != "" && href in present then [href] else []) + Selected(items[1..], present)
  }

  /** One turn of a loop over the items, from position `i`. */
  lemma SelectedAt(items: seq<Element>, i: nat, present: set<string>)
    requires i < |items|
    ensures Selected(items[i..], present) ==
      (if Get(items[i], "href") != "" && Get(items[i], "href") in present then [Get(items[i], "href")] else []) + Selected(items[i + 1..], present)
  {
    assert items[i..][0] == items[i] && items[i..][1..] == items[i + 1..];
  }

  /** Every selected path is a non-empty href of an item naming an existing file. */
  lemma {:induction false} SelectedSpec(items: seq<Element>, present: set<string>)
    ensures |Selected(items, present)| <= |items|
    ensures forall h :: h in Selected(items, present) ==> h != "" && h in present
  {
    if items != [] {
      SelectedSpec(items[1..], present);
    }
  }
}
