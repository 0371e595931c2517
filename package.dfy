/**
 * The package-document edits of epub3_upgrade.py: the unique identifier,
 * the single `dcterms:modified` stamp, and the manifest cleanup that makes
 * room for the new navigation document. Elements of the Dublin Core
 * namespace carry the tag prefix `dc:`; package elements are unprefixed.
 */
module Package {
  import opened Strings
  import opened Wrappers
  import opened Xml
  import opened Cleanup

  const UidRef := "book-id"

  // ---------------------------------------------------------------------------
  // ensure_unique_identifier

  predicate IsIdentifier(e: Element) {
    e.tag == "dc:identifier"
  }

  /** `./dc:identifier[@id='book-id']`. */
  predicate IsUidIdentifier(e: Element) {
    IsIdentifier(e) && HasId(e, UidRef)
  }

  /** The index of the first element of `s` satisfying `p`. */
  function FirstIndex(s: seq<Element>, p: Element -> bool): (r: Option<nat>)
    ensures r.Some? ==> r.value < |s| && p(s[r.value]) && forall j :: 0 <= j < r.value ==> !p(s[j])
    ensures r.None? ==> forall j :: 0 <= j < |s| ==> !p(s[j])
  {
    if s == [] then None
    else if p(s[0]) then Some(0)
    else match FirstIndex(s[1..], p)
      case None => None
      case Some(i) => Some(i + 1)
  }

  /** `package.set('unique-identifier', 'book-id')`. */
  function SetUniqueIdentifier(package: Element): Element {
    package.(attrs := package.attrs["unique-identifier" := UidRef])
  }

  /**
   * The metadata part of `ensure_unique_identifier`: nothing changes when a
   * child identifier already has id `book-id`; otherwise the first child
   * identifier gets that id, or a `urn:uuid:` identifier is appended.
   */
  function UniqueIdentifier(md: Element, uuid: string): Element
  {
    if FirstIndex(md.children, IsUidIdentifier).Some? then md
    else match FirstIndex(md.children, IsIdentifier)
      case Some(i) => md.(children := md.children[i := md.children[i].(attrs := md.children[i].attrs["id" := UidRef])])
      case None => md.(children := md.children + [Element("dc:identifier", map["id" := UidRef], "urn:uuid:" + uuid, "", [])])
  }

  /** The package now names `book-id` as its unique identifier. */
  lemma SetUniqueIdentifierSpec(package: Element)
    ensures Get(SetUniqueIdentifier(package), "unique-identifier") == UidRef
    ensures SetUniqueIdentifier(package).children == package.children
  {
  }

  /**
   * Afterwards a child identifier has id `book-id`. An existing one means no
   * change; else only the first identifier gains the id; else exactly one
   * new identifier is appended after the other children.
   */
  lemma UniqueIdentifierSpec(md: Element, uuid: string)
    ensures var r := UniqueIdentifier(md, uuid);
      && FirstIndex(r.children, IsUidIdentifier).Some?
      && (FirstIndex(md.children, IsUidIdentifier).Some? ==> r == md)
      && (FirstIndex(md.children, IsUidIdentifier).None? && FirstIndex(md.children, IsIdentifier).Some? ==>
            var i := FirstIndex(md.children, IsIdentifier).value;
            && |r.children| == |md.children|
            && (forall j :: 0 <= j < |md.children| && j != i ==> r.children[j] == md.children[j])
            && r.children[i].(attrs := md.children[i].attrs) == md.children[i]
            && r.children[i].attrs == md.children[i].attrs["id" := UidRef])
      && (FirstIndex(md.children, IsIdentifier).None? ==>
            && r.children[..|md.children|] == md.children
            && r.children[|md.children|..] == [Element("dc:identifier", map["id" := UidRef], "urn:uuid:" + uuid, "", [])])
  {
    var r := UniqueIdentifier(md, uuid);
    if FirstIndex(md.children, IsUidIdentifier).None? {
      match FirstIndex(md.children, IsIdentifier)
      case Some(i) =>
        assert IsUidIdentifier(r.children[i]);
      case None =>
        assert IsUidIdentifier(r.children[|md.children|]);
    }
  }

  /** Running it again changes nothing. */
  lemma UniqueIdentifierTwice(md: Element, uuid: string, uuid2: string)
    ensures UniqueIdentifier(UniqueIdentifier(md, uuid), uuid2) == UniqueIdentifier(md, uuid)
  {
    UniqueIdentifierSpec(md, uuid);
  }

  // ---------------------------------------------------------------------------
  // ensure_single_modified_date

  /** A UTC time as `datetime.utcnow()` gives it. */
  datatype DateTime = DateTime(year: nat, month: nat, day: nat, hour: nat, minute: nat, second: nat)

  /** The ranges of Python's `datetime` fields. */
  predicate ValidDateTime(t: DateTime) {
    1 <= t.year <= 9999 && 1 <= t.month <= 12 && 1 <= t.day <= 31
    && t.hour < 24 && t.minute < 60 && t.second < 60
  }

  /** `strftime('%Y-%m-%dT%H:%M:%SZ')`. */
  function FormatStamp(t: DateTime): string {
    PadNat(t.year, 4) + "-" + PadNat(t.month, 2) + "-" + PadNat(t.day, 2) + "T"
    + PadNat(t.hour, 2) + ":" + PadNat(t.minute, 2) + ":" + PadNat(t.second, 2) + "Z"
  }

  predicate AllDigits(s: string) {
    forall i :: 0 <= i < |s| ==> IsDigit(s[i])
  }

  /** Reads a stamp of the form `YYYY-MM-DDTHH:MM:SSZ` back into its fields. */
  function ParseStamp(s: string): Option<DateTime> {
    if |s| == 20 && s[4] == '-' && s[7] == '-' && s[10] == 'T' && s[13] == ':' && s[16] == ':' && s[19] == 'Z'
       && AllDigits(s[0..4]) && AllDigits(s[5..7]) && AllDigits(s[8..10])
       && AllDigits(s[11..13]) && AllDigits(s[14..16]) && AllDigits(s[17..19])
    then Some(DateTime(DigitsValue(s[0..4]), DigitsValue(s[5..7]), DigitsValue(s[8..10]),
                       DigitsValue(s[11..13]), DigitsValue(s[14..16]), DigitsValue(s[17..19])))
    else None
  }

  /** The stamp is 20 characters in the fixed layout, and reads back as the time it was made from. */
  lemma StampRoundTrip(t: DateTime)
    requires ValidDateTime(t)
    ensures |FormatStamp(t)| == 20
    ensures ParseStamp(FormatStamp(t)) == Some(t)
  {
    var y, mo, d := PadNat(t.year, 4), PadNat(t.month, 2), PadNat(t.day, 2);
    var h, mi, se := PadNat(t.hour, 2), PadNat(t.minute, 2), PadNat(t.second, 2);
    StampLayout(y, mo, d, h, mi, se);
    assert Pow10(2) == 100 && Pow10(4) == 10000;
    PadNatRoundTrip(t.year, 4);
    PadNatRoundTrip(t.month, 2);
    PadNatRoundTrip(t.day, 2);
    PadNatRoundTrip(t.hour, 2);
    PadNatRoundTrip(t.minute, 2);
    PadNatRoundTrip(t.second, 2);
  }

  /** Where the fields and the separators sit in a stamp. */
  lemma StampLayout(y: string, mo: string, d: string, h: string, mi: string, se: string)
    requires |y| == 4 && |mo| == 2 && |d| == 2 && |h| == 2 && |mi| == 2 && |se| == 2
    ensures var s := y + "-" + mo + "-" + d + "T" + h + ":" + mi + ":" + se + "Z";
      && |s| == 20 && s[4] == '-' && s[7] == '-' && s[10] == 'T' && s[13] == ':' && s[16] == ':' && s[19] == 'Z'
      && s[0..4] == y && s[5..7] == mo && s[8..10] == d && s[11..13] == h && s[14..16] == mi && s[17..19] == se
  {
    var s := y + "-" + mo + "-" + d + "T" + h + ":" + mi + ":" + se + "Z";
    forall k | 0 <= k < 4 ensures s[k] == y[k] {}
    forall k | 0 <= k < 2 ensures s[5 + k] == mo[k] && s[8 + k] == d[k] && s[11 + k] == h[k] && s[14 + k] == mi[k] && s[17 + k] == se[k] {}
    assert s[0..4] == y;
    assert s[5..7] == mo;
    assert s[8..10] == d;
    assert s[11..13] == h;
    assert s[14..16] == mi;
    assert s[17..19] == se;
  }

  /** `./opf:meta[@property="dcterms:modified"]`. */
  predicate IsModifiedMeta(e: Element) {
    e.tag == "meta" && "property" in e.attrs && e.attrs["property"] == "dcterms:modified"
  }

  predicate NotModifiedMeta(e: Element) {
    !IsModifiedMeta(e)
  }

  function ModifiedMeta(t: DateTime): Element {
    Element("meta", map["property" := "dcterms:modified"], FormatStamp(t), "", [])
  }

  /** `ensure_single_modified_date`: drop every modified stamp among the children, append the new one. */
  function SingleModified(md: Element, t: DateTime): Element {
    md.(children := Filter(md.children, NotModifiedMeta) + [ModifiedMeta(t)])
  }

  /**
   * Afterwards exactly one child is a modified stamp: the last, holding the
   * formatted time; the other children are the old ones that were not stamps, in order.
   */
  lemma SingleModifiedSpec(md: Element, t: DateTime)
    ensures var r := SingleModified(md, t);
      && Count(r.children, IsModifiedMeta) == 1
      && r.children[|r.children| - 1].text == FormatStamp(t)
      && r.children[..|r.children| - 1] == Filter(md.children, NotModifiedMeta)
      && r.tag == md.tag && r.attrs == md.attrs && r.text == md.text && r.tail == md.tail
  {
    var k := Filter(md.children, NotModifiedMeta);
    var r := SingleModified(md, t);
    FilterNone(k, IsModifiedMeta);
    FilterConcat(k, [ModifiedMeta(t)], IsModifiedMeta);
    assert Filter([ModifiedMeta(t)], IsModifiedMeta) == [ModifiedMeta(t)] by {
      assert [ModifiedMeta(t)][1..] == [];
    }
    assert r.children[..|r.children| - 1] == k;
  }

  /** A second run replaces the stamp: the result is as if only the second run happened. */
  lemma SingleModifiedTwice(md: Element, t1: DateTime, t2: DateTime)
    ensures SingleModified(SingleModified(md, t1), t2) == SingleModified(md, t2)
  {
    var k := Filter(md.children, NotModifiedMeta);
    FilterConcat(k, [ModifiedMeta(t1)], NotModifiedMeta);
    FilterIdempotent(md.children, NotModifiedMeta);
    assert Filter([ModifiedMeta(t1)], NotModifiedMeta) == [] by {
      assert [ModifiedMeta(t1)][1..] == [];
    }
    assert k + [] == k;
  }

  // ---------------------------------------------------------------------------
  // Manifest cleanup in run_upgrade

  /** `.//opf:item[contains(@href, ".ncx") or contains(@href, "nav.xhtml") or contains(@href, "navigation.xhtml")]`. */
  predicate IsOldNav(e: Element) {
    var href := Get(e, "href");
    e.tag == "item" && (Contains(href, ".ncx") || Contains(href, "nav.xhtml") || Contains(href, "navigation.xhtml"))
  }

  /** The properties string with every `nav` deleted and the ends stripped. */
  function DropNav(props: string): string {
    Strip(Replace(props, "nav", ""))
  }

  /** `.//opf:item[@properties]` whose properties hold `nav`: rewrite them, or drop the attribute if nothing is left. */
  function Props(e: Element): map<string, string> {
    if e.tag == "item" && "properties" in e.attrs && Contains(e.attrs["properties"], "nav") then
      SetProps(e.attrs, DropNav(e.attrs["properties"]))
    else e.attrs
  }

  /** Store what is left of the properties, or drop the attribute when nothing is. */
  function SetProps(m: map<string, string>, left: string): map<string, string> {
    if left != "" then m["properties" := left] else m - {"properties"}
  }

  function PropsFn(): Element -> map<string, string> {
    (e: Element) => Props(e)
  }

  /** The item `run_upgrade` registers for the new navigation document. */
  const NavItem := Element("item", map["id" := "nav", "href" := "nav.xhtml", "media-type" := "application/xhtml+xml", "properties" := "nav"], "", "", [])

  /** The manifest cleaned of old navigation items and `nav` properties. */
  function CleanManifest(manifest: Element): Element {
    var pruned := Prune(manifest, IsOldNav);
    pruned.(children := RelabelOf(pruned.children, PropsFn()))
  }

  /** `etree.SubElement(manifest, 'item', id="nav", ...)`: the navigation document is registered last. */
  function RegisterNav(manifest: Element): Element {
    manifest.(children := manifest.children + [NavItem])
  }

  /** The hrefs of the removed items, whose files are deleted. */
  function OldNavFiles(manifest: Element): set<string> {
    set d | d in Descendants(manifest) && IsOldNav(d) :: Get(d, "href")
  }

  /**
   * After the cleanup no element below the manifest is an old navigation
   * item; the manifest element itself keeps its tag and attributes. Once
   * registered, the new item is the last child and the rest is the cleaned manifest.
   */
  lemma CleanManifestSpec(manifest: Element)
    ensures var c := CleanManifest(manifest);
      && c.tag == manifest.tag && c.attrs == manifest.attrs
      && (forall d :: d in Descendants(c) ==> !IsOldNav(d))
    ensures var r := RegisterNav(CleanManifest(manifest));
      && |r.children| >= 1 && r.children[|r.children| - 1] == NavItem
      && r.children[..|r.children| - 1] == CleanManifest(manifest).children
  {
    var r := RegisterNav(CleanManifest(manifest));
    assert r.children[..|r.children| - 1] == CleanManifest(manifest).children;
    NoOldNavLeft(manifest);
  }

  lemma NoOldNavLeft(manifest: Element)
    ensures forall d :: d in NodesOf(RelabelOf(Prune(manifest, IsOldNav).children, PropsFn())) ==> !IsOldNav(d)
  {
    var pruned := Prune(manifest, IsOldNav);
    NodesOfRelabel(pruned.children, PropsFn());
    var list := NodesOf(pruned.children);
    forall d | d in RelabelOf(list, PropsFn()) ensures !IsOldNav(d) {
      var j :| 0 <= j < |list| && RelabelOf(list, PropsFn())[j] == d;
      NotOldNavAfter(manifest, list[j]);
    }
  }

  /** A survivor of the pruning is still no old navigation item once its properties are rewritten. */
  lemma NotOldNavAfter(manifest: Element, o: Element)
    requires o in Descendants(Prune(manifest, IsOldNav))
    ensures !IsOldNav(Relabel(o, PropsFn()))
  {
    PruneOrigin(manifest, IsOldNav, o);
    var o' :| o' in Descendants(manifest) && !IsOldNav(o') && o == Prune(o', IsOldNav);
    PropsKeepHref(o);
  }

  /** Rewriting the properties leaves the tag and the href alone. */
  lemma PropsKeepHref(e: Element)
    ensures Relabel(e, PropsFn()).tag == e.tag
    ensures Get(Relabel(e, PropsFn()), "href") == Get(e, "href")
  {
    assert Relabel(e, PropsFn()).attrs == Props(e);
    PropsHref(e);
  }

  lemma PropsHref(e: Element)
    ensures ("href" in Props(e)) == ("href" in e.attrs)
    ensures "href" in e.attrs ==> Props(e)["href"] == e.attrs["href"]
  {
    if e.tag == "item" && "properties" in e.attrs && Contains(e.attrs["properties"], "nav") {
      SetPropsHref(e.attrs, DropNav(e.attrs["properties"]));
    }
  }

  lemma SetPropsHref(m: map<string, string>, left: string)
    ensures ("href" in SetProps(m, left)) == ("href" in m)
    ensures "href" in m ==> SetProps(m, left)["href"] == m["href"]
  {
    assert "href" != "properties" by { assert "href"[0] != "properties"[0]; }
  }

  /**
   * Deleting `nav` from a properties value that holds it removes at least
   * three characters, and what is left has no blank at either end.
   */
  lemma DropNavSpec(props: string)
    requires Contains(props, "nav")
    ensures |DropNav(props)| <= |props| - 3
    ensures DropNav(props) == [] || (!IsSpace(DropNav(props)[0]) && !IsSpace(DropNav(props)[|DropNav(props)| - 1]))
  {
    ReplaceRemoves(props, "nav");
    var l := LStrip(Replace(props, "nav", ""));
    var r := RStrip(l);
    LStripSpec(Replace(props, "nav", ""));
    RStripSpec(l);
    assert r == [] || r[0] == l[0];
  }
}
