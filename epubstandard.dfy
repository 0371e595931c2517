/**
 * `process_epub` in epubstandard.py: pick the XHTML documents the manifest
 * lists, run the banner, blacklist and semantic passes on each one and write
 * it back, then run the footnote linker over the documents picked.
 * Manifest hrefs stand for the paths they resolve to, relative to the
 * package document's directory.
 */
module EpubStandard {
  import opened Strings
  import opened Wrappers
  import opened Xml
  import opened Files
  import opened Cleanup
  import opened Semantics
  import opened Footnotes

  datatype Config = Config(banners: seq<Banner>, blacklist: Blacklist)

  /** The `total_metrics` dictionary. */
  datatype Metrics = Metrics(
    bannersRemoved: nat,
    blacklistRemoved: nat,
    footnotesProcessed: nat,
    backlinksAdded: nat,
    semanticsAdded: nat)

  /** The stripped text of the first `dc:title` inside the first `metadata`, or `""`. */
  function BookTitle(opf: Element): string
  {
    match FirstTagged(Descendants(opf), "metadata")
    case None => ""
    case Some(md) =>
      match FirstTagged(Descendants(md), "dc:title")
      case None => ""
      case Some(t) => if t.text != "" then Strip(t.text) else ""
  }

  /** What the cleanup loop has done so far. */
  datatype Cleaning = Cleaning(files: Disk, docs: seq<string>, banners: nat, blacklist: nat, semantics: nat)

  /**
   * One manifest item. An item without href, or whose file is missing, is
   * skipped. Otherwise its path joins the document list before anything can
   * fail. An unparsable file or a raising banner pass adds nothing; a raising
   * semantic pass keeps the banner and blacklist counts already added but
   * the document is not written; else the rewritten document is written.
   */
  function CleanItem(item: Element, cfg: Config, title: string, st: Cleaning): Cleaning
  {
    var href := Get(item, "href");
    if href == "" || href !in st.files then st
    else
      var st1 := st.(docs := st.docs + [href]);
      if !st.files[href].Parsed? then st1
      else
        match BannersSpec(st.files[href].root, cfg.banners)
        case Raised(_) => st1
        case Ok(b) =>
          var c := CleanupSpec(b.0, cfg.blacklist);
          var st2 := st1.(banners := st.banners + b.1, blacklist := st.blacklist + c.1);
          match SemanticAsWritten(c.0, title)
          case Raised(_) => st2
          case Ok(s) => st2.(files := st.files[href := Parsed(s.0)], semantics := st.semantics + s.1)
  }

  function CleanItems(items: seq<Element>, cfg: Config, title: string, st: Cleaning): Cleaning
    decreases items
  {
    if items == [] then st else CleanItems(items[1..], cfg, title, CleanItem(items[0], cfg, title, st))
  }

  /** The body of the loop over the manifest items, for one item. */
  method CleanDocument(item: Element, cfg: Config, title: string, st: Cleaning) returns (st': Cleaning)
    ensures st' == CleanItem(item, cfg, title, st)
  {
    st' := st;
    var href := Get(item, "href");
    if href != "" && href in st.files {
      st' := st'.(docs := st.docs + [href]);
      if st.files[href].Parsed? {
        var b := RemoveBanners(st.files[href].root, cfg.banners);
        if b.Ok? {
          var d, nc := CleanupMarkup(b.value.0, cfg.blacklist);
          st' := st'.(banners := st.banners + b.value.1, blacklist := st.blacklist + nc);
          var s := SemanticAsWritten(d, title);
          if s.Ok? {
            st' := st'.(files := st.files[href := Parsed(s.value.0)], semantics := st.semantics + s.value.1);
          }
        }
      }
    }
  }

  /** The loop over the XHTML manifest items. */
  method CleanAll(files: Disk, items: seq<Element>, cfg: Config, title: string) returns (st: Cleaning)
    ensures st == CleanItems(items, cfg, title, Cleaning(files, [], 0, 0, 0))
  {
    st := Cleaning(files, [], 0, 0, 0);
    var i := 0;
    while i < |items|
      invariant 0 <= i <= |items|
      invariant CleanItems(items, cfg, title, Cleaning(files, [], 0, 0, 0)) == CleanItems(items[i..], cfg, title, st)
    {
      assert items[i..][0] == items[i] && items[i..][1..] == items[i + 1..];
      st := CleanDocument(items[i], cfg, title, st);
      i := i + 1;
    }
  }

  /** `process_epub(unzip_dir, opf_tree, opf_path, config)`; `uuids` supplies the footnote ids. */
  method ProcessEpub(files: Disk, opf: Element, cfg: Config, uuids: nat -> string)
    returns (out: Disk, docs: seq<string>, metrics: Metrics)
    ensures var c := CleanItems(XhtmlItems(opf), cfg, BookTitle(opf), Cleaning(files, [], 0, 0, 0));
      && docs == c.docs
      && (docs == [] ==> out == c.files && metrics == Metrics(c.banners, c.blacklist, 0, 0, c.semantics))
      && (docs != [] ==>
           var p1 := StampDocs(docs, uuids, Stamping(c.files, [], []));
           var p2 := LinkDocs(docs, AddCalls([], p1.calls), Linking(p1.files, 0, []));
           out == p2.files && metrics == Metrics(c.banners, c.blacklist, |p1.calls|, p2.added, c.semantics))
  {
    var st := CleanAll(files, XhtmlItems(opf), cfg, BookTitle(opf));
    docs := st.docs;
    out := st.files;
    metrics := Metrics(st.banners, st.blacklist, 0, 0, st.semantics);
    if docs != [] {
      var fm;
      out, fm := ProcessFootnotes(st.files, docs, uuids);
      metrics := metrics.(footnotesProcessed := fm.processed, backlinksAdded := fm.added);
    }
  }

  /**
   * The documents processed are exactly the XHTML manifest items with a
   * non-empty href naming an existing file, in manifest order; no file is
   * added or removed, and a file that is not processed is left as it was.
   */
  lemma CleanItemsSelect(items: seq<Element>, cfg: Config, title: string, st: Cleaning)
    ensures var c := CleanItems(items, cfg, title, st);
      && c.files.Keys == st.files.Keys
      && c.docs == st.docs + Selected(items, st.files.Keys)
      && (forall p :: p in st.files && p !in c.docs[|st.docs|..] ==> c.files[p] == st.files[p])
  {
    CleanItemsDocs(items, cfg, title, st);
    CleanItemsFrame(items, cfg, title, st);
  }

  lemma {:induction false} CleanItemsDocs(items: seq<Element>, cfg: Config, title: string, st: Cleaning)
    ensures var c := CleanItems(items, cfg, title, st);
      c.files.Keys == st.files.Keys && c.docs == st.docs + Selected(items, st.files.Keys)
    decreases items
  {
    if items != [] {
      var st1 := CleanItem(items[0], cfg, title, st);
      CleanItemStep(items[0], cfg, title, st);
      CleanItemsDocs(items[1..], cfg, title, st1);
      var href := Get(items[0], "href");
      assert Selected(items, st.files.Keys) == (if href != "" && href in st.files then [href] else []) + Selected(items[1..], st.files.Keys);
    }
  }

  /** `c` extends the document list of `st` and leaves every file it does not list as it was. */
  predicate Untouched(st: Cleaning, c: Cleaning) {
    && |c.docs| >= |st.docs| && c.docs[..|st.docs|] == st.docs
    && forall p :: p in st.files && p !in c.docs[|st.docs|..] ==> p in c.files && c.files[p] == st.files[p]
  }

  lemma UntouchedTrans(a: Cleaning, b: Cleaning, c: Cleaning)
    requires Untouched(a, b) && Untouched(b, c)
    ensures Untouched(a, c)
  {
    assert c.docs[..|a.docs|] == c.docs[..|b.docs|][..|a.docs|];
    forall p | p in a.files && p !in c.docs[|a.docs|..] ensures p in c.files && c.files[p] == a.files[p] {
      assert c.docs[|a.docs|..] == c.docs[|a.docs|..|b.docs|] + c.docs[|b.docs|..];
      assert c.docs[|a.docs|..|b.docs|] == b.docs[|a.docs|..];
    }
  }

  lemma {:induction false} CleanItemsFrame(items: seq<Element>, cfg: Config, title: string, st: Cleaning)
    ensures Untouched(st, CleanItems(items, cfg, title, st))
    decreases items
  {
    if items != [] {
      var st1 := CleanItem(items[0], cfg, title, st);
      CleanItemStep(items[0], cfg, title, st);
      assert Untouched(st, st1);
      CleanItemsFrame(items[1..], cfg, title, st1);
      UntouchedTrans(st, st1, CleanItems(items[1..], cfg, title, st1));
    }
  }

  /** One item lists at most its own path, and changes at most the file it names. */
  lemma CleanItemStep(item: Element, cfg: Config, title: string, st: Cleaning)
    ensures var st1 := CleanItem(item, cfg, title, st);
      var href := Get(item, "href");
      && st1.files.Keys == st.files.Keys
      && st1.docs == st.docs + (if href != "" && href in st.files then [href] else [])
      && (forall p :: p in st.files && p != href ==> st1.files[p] == st.files[p])
      && (!(href != "" && href in st.files) ==> st1 == st)
  {
  }

  /** A parsed document whose banner pass raises is listed but neither counted nor written. */
  lemma CleanItemBannerError(item: Element, cfg: Config, title: string, st: Cleaning)
    requires Get(item, "href") != "" && IsParsed(st.files, Get(item, "href"))
    requires BannersSpec(st.files[Get(item, "href")].root, cfg.banners).Raised?
    ensures CleanItem(item, cfg, title, st) == st.(docs := st.docs + [Get(item, "href")])
  {
  }

  /**
   * A parsed document on which no pass raises is written as the semantic
   * pass's result on the cleaned tree, and each count grows by its pass's count.
   */
  lemma CleanItemWrites(item: Element, cfg: Config, title: string, st: Cleaning)
    requires Get(item, "href") != "" && IsParsed(st.files, Get(item, "href"))
    requires BannersSpec(st.files[Get(item, "href")].root, cfg.banners).Ok?
    requires SemanticAsWritten(CleanupSpec(BannersSpec(st.files[Get(item, "href")].root, cfg.banners).value.0, cfg.blacklist).0, title).Ok?
    ensures var href := Get(item, "href");
      var b := BannersSpec(st.files[href].root, cfg.banners).value;
      var c := CleanupSpec(b.0, cfg.blacklist);
      var s := SemanticAsWritten(c.0, title).value;
      CleanItem(item, cfg, title, st)
        == Cleaning(st.files[href := Parsed(s.0)], st.docs + [href], st.banners + b.1, st.blacklist + c.1, st.semantics + s.1)
  {
  }
}
