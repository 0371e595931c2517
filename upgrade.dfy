/**
 * `run_upgrade` in epub3_upgrade.py: the order in which the package edits,
 * the manifest cleanup, the head fix and the navigation build are applied
 * to an unpacked book, and what the book holds afterwards. Finding the
 * package document and unpacking or repacking the archive happen outside
 * this model: the package tree, if one was found, is an input.
 */
module Upgrade {
  import opened Wrappers
  import opened Xml
  import opened Files
  import opened Package
  import opened Nav

  // ---------------------------------------------------------------------------
  // `tree.find('.//tag')` followed by an in-place edit of what it found

  /**
   * Rewrite with `f` the first element with tag `tag` in document order,
   * starting at `e` itself. The flag says whether one was found.
   */
  function OnFirstAt(e: Element, tag: string, f: Element -> Element): (Element, bool)
  {
    if e.tag == tag then (f(e), true)
    else
      var r := OnFirstAmong(e.children, tag, f);
      (e.(children := r.0), r.1)
  }

  function OnFirstAmong(cs: seq<Element>, tag: string, f: Element -> Element): (seq<Element>, bool)
  {
    if cs == [] then ([], false)
    else
      var first := OnFirstAt(cs[0], tag, f);
      if first.1 then ([first.0] + cs[1..], true)
      else
        var rest := OnFirstAmong(cs[1..], tag, f);
        ([cs[0]] + rest.0, rest.1)
  }

  /** The first descendant of `root` with tag `tag`, rewritten by `f`. */
  function OnFirst(root: Element, tag: string, f: Element -> Element): Element {
    root.(children := OnFirstAmong(root.children, tag, f).0)
  }

  /**
   * The rewrite happens exactly when the query finds an element. Nothing
   * changes otherwise. When `f` keeps tags, the query on the result finds
   * the rewritten element.
   */
  lemma {:induction false} OnFirstAtSpec(e: Element, tag: string, f: Element -> Element)
    requires forall x :: f(x).tag == x.tag
    ensures var r := OnFirstAt(e, tag, f);
      && (r.1 <==> FirstTagged(Nodes(e), tag).Some?)
      && (!r.1 ==> r.0 == e)
      && (r.1 ==> FirstTagged(Nodes(r.0), tag) == Some(f(FirstTagged(Nodes(e), tag).value)))
    decreases e, 1
  {
    var r := OnFirstAt(e, tag, f);
    assert Nodes(e)[1..] == NodesOf(e.children);
    if e.tag != tag {
      OnFirstAmongSpec(e.children, tag, f);
      assert Nodes(r.0)[1..] == NodesOf(r.0.children);
    }
  }

  lemma {:induction false} OnFirstAmongSpec(cs: seq<Element>, tag: string, f: Element -> Element)
    requires forall x :: f(x).tag == x.tag
    ensures var r := OnFirstAmong(cs, tag, f);
      && (r.1 <==> FirstTagged(NodesOf(cs), tag).Some?)
      && (!r.1 ==> r.0 == cs)
      && (r.1 ==> FirstTagged(NodesOf(r.0), tag) == Some(f(FirstTagged(NodesOf(cs), tag).value)))
    decreases cs, 0
  {
    if cs != [] {
      var first := OnFirstAt(cs[0], tag, f);
      OnFirstAtSpec(cs[0], tag, f);
      FirstTaggedConcat(Nodes(cs[0]), NodesOf(cs[1..]), tag);
      if first.1 {
        var r := [first.0] + cs[1..];
        assert r[1..] == cs[1..];
        FirstTaggedConcat(Nodes(first.0), NodesOf(cs[1..]), tag);
      } else {
        var rest := OnFirstAmong(cs[1..], tag, f);
        OnFirstAmongSpec(cs[1..], tag, f);
        var r := [cs[0]] + rest.0;
        assert r[1..] == rest.0;
        assert [cs[0]] + cs[1..] == cs;
        FirstTaggedConcat(Nodes(cs[0]), NodesOf(rest.0), tag);
      }
    }
  }

  /** The root-level form: the rewrite is below the root, whose own attributes stay. */
  lemma OnFirstSpec(root: Element, tag: string, f: Element -> Element)
    requires forall x :: f(x).tag == x.tag
    ensures var r := OnFirst(root, tag, f);
      && r.attrs == root.attrs && r.tag == root.tag
      && (FirstTagged(Descendants(root), tag).None? ==> r == root)
      && (FirstTagged(Descendants(root), tag).Some? ==>
            FirstTagged(Descendants(r), tag) == Some(f(FirstTagged(Descendants(root), tag).value)))
  {
    OnFirstAmongSpec(root.children, tag, f);
  }

  // ---------------------------------------------------------------------------
  // run_upgrade

  /** `ensure_unique_identifier` then `ensure_single_modified_date` on one metadata element. */
  function FixMetadata(md: Element, bookUuid: string, now: DateTime): Element {
    SingleModified(UniqueIdentifier(md, bookUuid), now)
  }

  function MetadataFix(bookUuid: string, now: DateTime): Element -> Element {
    (md: Element) => FixMetadata(md, bookUuid, now)
  }

  function CleanManifestFn(): Element -> Element {
    (m: Element) => CleanManifest(m)
  }

  function RegisterNavFn(): Element -> Element {
    (m: Element) => RegisterNav(m)
  }

  /**
   * The package edits: `version` 3.0, `unique-identifier` book-id, and the
   * metadata fixes on the first metadata element. One is appended to the
   * root when there is none.
   */
  function UpgradePackage(root: Element, bookUuid: string, now: DateTime): Element {
    var p := SetUniqueIdentifier(root.(attrs := root.attrs["version" := "3.0"]));
    if FirstTagged(Descendants(p), "metadata").Some? then OnFirst(p, "metadata", MetadataFix(bookUuid, now))
    else p.(children := p.children + [MetadataFix(bookUuid, now)(Element("metadata", map[], "", "", []))])
  }

  /** How `run_upgrade` ends: `return False`, an exception, or `return True` with the rewritten book. */
  datatype Outcome = NoPackage | Failed(error: string) | Upgraded(opf: Element, files: Disk)

  /** The whole upgrade as one function of its inputs. */
  function UpgradeSpec(opf: Option<Element>, files: Disk, bookUuid: string, now: DateTime, uuids: nat -> string): Outcome {
    match opf
    case None => NoPackage
    case Some(root) =>
      var p := UpgradePackage(root, bookUuid, now);
      match FirstTagged(Descendants(p), "manifest")
      case None => Failed("AttributeError")
      case Some(manifest) =>
        if !HasMetadata(root) then Failed("AttributeError")
        else Finish(OnFirst(p, "manifest", CleanManifestFn()), files - OldNavFiles(manifest), uuids)
  }

  /**
   * The package has a metadata element of its own. The one `run_upgrade`
   * appends when there is none is created without the OPF namespace, so the
   * `opf:metadata` query of `fix_xhtml_structure_and_title` does not find it
   * and `metadata.find` on `None` raises AttributeError.
   */
  predicate HasMetadata(root: Element) {
    FirstTagged(Descendants(root), "metadata").Some?
  }

  /** From the cleaned package on: the head fix, the navigation build, and the registration of `nav.xhtml`. */
  function Finish(opf: Element, files: Disk, uuids: nat -> string): Outcome {
    match UpgradeTitle(opf)
    case Raised(e) => Failed(e)
    case Ok(title) =>
      var st := TocOf(FixItems(XhtmlItems(opf), title, files), opf, uuids);
      var nav := NavDocument(TocOl(FinalEntries(st)), st.start);
      Upgraded(OnFirst(opf, "manifest", RegisterNavFn()), st.files["nav.xhtml" := Parsed(nav)])
  }

  /**
   * `run_upgrade(epub_path, output_path)` from the found package tree on:
   * `bookUuid` is the uuid a new identifier gets, `now` the current UTC
   * time, `uuids` the fresh heading ids.
   */
  method RunUpgrade(opf: Option<Element>, files: Disk, bookUuid: string, now: DateTime, uuids: nat -> string)
    returns (out: Outcome)
    ensures out == UpgradeSpec(opf, files, bookUuid, now, uuids)
  {
    if opf.None? {
      return NoPackage;
    }
    var p := UpgradePackage(opf.value, bookUuid, now);
    var manifest := FirstTagged(Descendants(p), "manifest");
    if manifest.None? {
      return Failed("AttributeError");
    }
    var disk := files - OldNavFiles(manifest.value);
    if !HasMetadata(opf.value) {
      return Failed("AttributeError");
    }
    out := FinishUpgrade(OnFirst(p, "manifest", CleanManifestFn()), disk, uuids);
  }

  /** The steps after the manifest cleanup, on the cleaned package and the remaining files. */
  method FinishUpgrade(opf: Element, files: Disk, uuids: nat -> string) returns (out: Outcome)
    ensures out == Finish(opf, files, uuids)
  {
    var fixed := FixXhtml(files, opf);
    if fixed.Raised? {
      return Failed(fixed.error);
    }
    var nav, files' := BuildNav(fixed.value, opf, uuids);
    out := Upgraded(OnFirst(opf, "manifest", RegisterNavFn()), files'["nav.xhtml" := Parsed(nav)]);
  }

  /** The metadata fixes keep the tag, so the fixed element is found where the old one was. */
  lemma MetadataFixTag(bookUuid: string, now: DateTime)
    ensures forall x :: MetadataFix(bookUuid, now)(x).tag == x.tag
  {
    forall x ensures FixMetadata(x, bookUuid, now).tag == x.tag {
      var u := UniqueIdentifier(x, bookUuid);
      assert u.tag == x.tag;
      assert SingleModified(u, now).tag == u.tag;
    }
  }

  /**
   * Whatever the package held, afterwards it has version 3.0, names
   * `book-id` as its unique identifier, and its first metadata element has an
   * identifier with id `book-id` and exactly one modified stamp.
   */
  lemma UpgradePackageSpec(root: Element, bookUuid: string, now: DateTime)
    ensures var p := UpgradePackage(root, bookUuid, now);
      && Get(p, "version") == "3.0" && Get(p, "unique-identifier") == UidRef
      && FirstTagged(Descendants(p), "metadata").Some?
      && var md := FirstTagged(Descendants(p), "metadata").value;
         FirstIndex(md.children, IsUidIdentifier).Some? && Count(md.children, IsModifiedMeta) == 1
  {
    var p0 := SetUniqueIdentifier(root.(attrs := root.attrs["version" := "3.0"]));
    var md0 := PackageMetadata(p0, bookUuid, now);
    MetadataFixSpec(md0, bookUuid, now);
  }

  /** The metadata element found after the edits is the fixed form of the one found before, or of a new one. */
  lemma PackageMetadata(p0: Element, bookUuid: string, now: DateTime) returns (md0: Element)
    ensures var p := if FirstTagged(Descendants(p0), "metadata").Some? then OnFirst(p0, "metadata", MetadataFix(bookUuid, now))
                     else p0.(children := p0.children + [MetadataFix(bookUuid, now)(Element("metadata", map[], "", "", []))]);
      && p.attrs == p0.attrs
      && FirstTagged(Descendants(p), "metadata") == Some(MetadataFix(bookUuid, now)(md0))
  {
    var fix := MetadataFix(bookUuid, now);
    MetadataFixTag(bookUuid, now);
    if FirstTagged(Descendants(p0), "metadata").Some? {
      md0 := FirstTagged(Descendants(p0), "metadata").value;
      OnFirstSpec(p0, "metadata", fix);
    } else {
      md0 := Element("metadata", map[], "", "", []);
      var made := fix(md0);
      assert made.tag == "metadata";
      NodesOfConcat(p0.children, [made]);
      assert NodesOf([made]) == Nodes(made) by {
        assert [made][1..] == [];
      }
      FirstTaggedConcat(NodesOf(p0.children), Nodes(made), "metadata");
    }
  }

  /** The two metadata fixes together leave a book-id identifier and one modified stamp. */
  lemma MetadataFixSpec(md: Element, bookUuid: string, now: DateTime)
    ensures var r := MetadataFix(bookUuid, now)(md);
      FirstIndex(r.children, IsUidIdentifier).Some? && Count(r.children, IsModifiedMeta) == 1
  {
    var u := UniqueIdentifier(md, bookUuid);
    UniqueIdentifierSpec(md, bookUuid);
    SingleModifiedSpec(u, now);
    var r := SingleModified(u, now);
    var i := FirstIndex(u.children, IsUidIdentifier).value;
    var x := u.children[i];
    FilterKeeps(u.children, NotModifiedMeta, x);
    assert x in r.children;
  }

  /**
   * After an upgrade the book has a navigation document at `nav.xhtml`. The
   * old navigation files are gone and no other file is added or removed. The
   * manifest the package names first is the cleaned one, with the new item
   * last. Without a package tree the upgrade returns False.
   */
  lemma UpgradeSpecResult(opf: Option<Element>, files: Disk, bookUuid: string, now: DateTime, uuids: nat -> string)
    ensures opf.None? <==> UpgradeSpec(opf, files, bookUuid, now, uuids).NoPackage?
    ensures UpgradeSpec(opf, files, bookUuid, now, uuids).Upgraded? ==>
      var p := UpgradePackage(opf.value, bookUuid, now);
      var manifest := FirstTagged(Descendants(p), "manifest").value;
      var out := UpgradeSpec(opf, files, bookUuid, now, uuids);
      && out.files.Keys == (files.Keys - OldNavFiles(manifest)) + {"nav.xhtml"}
      && IsParsed(out.files, "nav.xhtml")
      && NavList(out.files["nav.xhtml"].root, "toc").Some?
      && FirstTagged(Descendants(out.opf), "manifest") == Some(RegisterNav(CleanManifest(manifest)))
      && Get(out.opf, "version") == "3.0" && Get(out.opf, "unique-identifier") == UidRef
  {
    if UpgradeSpec(opf, files, bookUuid, now, uuids).Upgraded? {
      var p := UpgradePackage(opf.value, bookUuid, now);
      UpgradePackageSpec(opf.value, bookUuid, now);
      var manifest := FirstTagged(Descendants(p), "manifest").value;
      var opf1 := OnFirst(p, "manifest", CleanManifestFn());
      CleanManifestTag();
      OnFirstSpec(p, "manifest", CleanManifestFn());
      FinishSpec(opf1, files - OldNavFiles(manifest), uuids);
      FinishOpf(opf1, files - OldNavFiles(manifest), uuids);
      FinishNav(opf1, files - OldNavFiles(manifest), uuids);
      RegisteredManifest(opf1, CleanManifest(manifest));
    }
  }

  /**
   * A package without a metadata element of its own is never upgraded: once
   * a manifest is found, the head fix raises AttributeError. An upgraded book
   * therefore always had metadata.
   */
  lemma MissingMetadataRaises(opf: Option<Element>, files: Disk, bookUuid: string, now: DateTime, uuids: nat -> string)
    ensures opf.Some? && !HasMetadata(opf.value) ==> UpgradeSpec(opf, files, bookUuid, now, uuids) == Failed("AttributeError")
    ensures UpgradeSpec(opf, files, bookUuid, now, uuids).Upgraded? ==> opf.Some? && HasMetadata(opf.value)
  {
  }

  /** What the last steps leave: the files as they were plus `nav.xhtml`. */
  lemma FinishSpec(opf: Element, files: Disk, uuids: nat -> string)
    ensures Finish(opf, files, uuids).Upgraded? ==> Finish(opf, files, uuids).files.Keys == files.Keys + {"nav.xhtml"}
  {
    if UpgradeTitle(opf).Ok? {
      var title := UpgradeTitle(opf).value;
      var files2 := FixItems(XhtmlItems(opf), title, files);
      FixItemsSpec(XhtmlItems(opf), title, files);
      TocStepsFrame(SpineIdrefs(opf), ManifestMap(ManifestItems(opf)), uuids, Toc(files2, [], None, 0));
    }
  }

  /** `nav.xhtml` holds a navigation document with a `toc` list. */
  lemma FinishNav(opf: Element, files: Disk, uuids: nat -> string)
    ensures var out := Finish(opf, files, uuids);
      out.Upgraded? ==> IsParsed(out.files, "nav.xhtml") && NavList(out.files["nav.xhtml"].root, "toc").Some?
  {
    if UpgradeTitle(opf).Ok? {
      var title := UpgradeTitle(opf).value;
      var st := TocOf(FixItems(XhtmlItems(opf), title, files), opf, uuids);
      NavDocumentSpec(FinalEntries(st), st.start);
    }
  }

  /** The package that comes out is the cleaned one with the navigation document registered. */
  lemma FinishOpf(opf: Element, files: Disk, uuids: nat -> string)
    ensures Finish(opf, files, uuids).Upgraded? ==> Finish(opf, files, uuids).opf == OnFirst(opf, "manifest", RegisterNavFn())
  {
  }

  /** Registering keeps the cleaned manifest where the query finds it. */
  lemma RegisteredManifest(opf1: Element, cleaned: Element)
    requires FirstTagged(Descendants(opf1), "manifest") == Some(cleaned)
    ensures FirstTagged(Descendants(OnFirst(opf1, "manifest", RegisterNavFn())), "manifest") == Some(RegisterNav(cleaned))
    ensures OnFirst(opf1, "manifest", RegisterNavFn()).attrs == opf1.attrs
  {
    RegisterNavTag();
    OnFirstSpec(opf1, "manifest", RegisterNavFn());
  }

  lemma CleanManifestTag()
    ensures forall x :: CleanManifestFn()(x).tag == x.tag
  {
  }

  lemma RegisterNavTag()
    ensures forall x :: RegisterNavFn()(x).tag == x.tag
  {
  }
}
