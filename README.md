# epubstandard, modelled in Dafny

epubstandard is a set of Python scripts that tidy EPUB books. This project
models their core in Dafny and proves properties of that model:

- **epubstandard.py**: the cleanup pipeline. It removes configured banners
  and blacklisted tags and attributes, tags the title page, copyright
  paragraphs and chapter headings, and links footnote calls to their notes
  and back, in two passes over the documents.
- **epubstandard-supplemental.py**: two link repairs. Nested anchors become
  spans, and anchors whose `#fragment` names no id of their document are
  removed. Their text stays in the surrounding text.
- **epub3_upgrade.py**: the EPUB 2 to EPUB 3 upgrade. It sets the package
  version and unique identifier and leaves a single `dcterms:modified`
  stamp. It removes old navigation items, gives every content document a
  new head, and builds an EPUB 3 navigation document with a table of contents
  and landmarks.
- **ai_corrector.py**: the OCR correction driver. Long texts are cut into
  fixed-size slices, each chunk or slice is corrected by an external service,
  and a failed correction keeps its original text.

Shared modules:

- XML trees are a value datatype `Element(tag, attrs, text, tail, children)`
  (`xml.dfy`).
- The unpacked book is a map from path to parsed tree (`files.dfy`).
- Python string helpers are in `strings.dfy`.

**What the mutations become.** The source edits lxml trees in place. An
XPath query is evaluated once, and its results are then edited in document
order. Each such query-and-loop becomes a recursive rewrite function in
document order, with lemmas connecting it to the query (a filter over
`Nodes`/`Descendants`). Loops over lists outside the trees are `method`s with
`while` loops, proved equal to a specification function. The loops covered
are those over configs, manifest items, documents, spine idrefs, note-map
entries, chunks and slices. Properties are then proved about the
specification functions.

**Where code and prose disagree.** The code is followed. The source's own
comments promise that `add_semantic_structure` is "safe" to run. As written,
a second run can still change a document (see Findings). The module
defines both versions. The pipeline (`EpubStandard`) runs the tagger as
written, `Semantics.SemanticAsWritten`, so the files it writes are the ones
the program writes. The corrected tagger, `Semantics.AddSemanticStructure`,
is the one whose idempotence is proved.

## Model

| member | source | states |
|---|---|---|
| Cleanup.RemoveBanners | epubstandard.py:14-26 | The banner loop returns exactly `BannersSpec`: each config with non-empty text prunes the elements of its tag (default `div`) whose string-value contains the text, and counts them; an empty text is skipped; a `'` in the text raises |
| Cleanup.EmptyBannersSkipped | epubstandard.py:17-20 | Configs whose `text_contains` is empty leave the document unchanged and count 0 |
| Cleanup.OneBanner | epubstandard.py:21-25 | For one config, the count is the number of matching descendants, and every survivor is the pruned copy of an original element that did not match |
| Cleanup.PruneOrigin | epubstandard.py:22-24 | After `remove`, every element left in the tree comes from an original descendant that did not match; no matched element survives |
| Cleanup.PruneNothing | epubstandard.py:22-24 | A query that matches nothing leaves the tree exactly as it was |
| Cleanup.TagGone | epubstandard.py:31-34 | After removing a tag, no descendant carries it |
| Cleanup.TagStaysGone | epubstandard.py:31-34 | Later removals never bring back a tag already removed |
| Cleanup.CleanupMarkup | epubstandard.py:28-44 | Tags, then global attributes, then tag-scoped attributes, with the counts summed; equals `CleanupSpec` |
| Cleanup.RemoveTags | epubstandard.py:31-34 | The tag loop counts every match, even the root that cannot be removed, and prunes the others |
| Cleanup.StripAttrs | epubstandard.py:35-38 | The attribute loop counts the elements that carry the attribute and deletes it from each |
| Cleanup.StripTagAttrs | epubstandard.py:39-43 | The `attributes_on_tags` loop does the attribute loop scoped to each tag, in dict order |
| Cleanup.StripAttrAt | epubstandard.py:36-37 | `del elem.attrib[attr]` changes only attributes: the i-th element keeps its tag, text and tail and loses `attr` exactly when it is in scope |
| Cleanup.StripKeepsNoAttr | epubstandard.py:35-43 | Deleting attributes never adds one back |
| Cleanup.StripKeepsTagsGone | epubstandard.py:35-43 | Deleting attributes never brings back a removed tag |
| Cleanup.AttrsKeep | epubstandard.py:35-38 | The attribute loop keeps both guarantees: no attribute reappears and no removed tag returns |
| Cleanup.TagAttrsKeep | epubstandard.py:39-43 | The scoped-attribute loop keeps both guarantees |
| Cleanup.GlobalAttrsGone | epubstandard.py:35-38 | After the global loop no element carries any listed attribute |
| Cleanup.TagsGone | epubstandard.py:31-34 | After the tag loop no descendant has any listed tag |
| Cleanup.TagsKeepGone | epubstandard.py:31-34 | Removing further tags keeps a removed tag absent |
| Cleanup.CleanupGuarantees | epubstandard.py:28-44 | After `cleanup_markup`: no element has a blacklisted global attribute, and no element below the root has a blacklisted tag |
| Semantics.Lower | epubstandard.py:125 | Lower-casing (`re.IGNORECASE`) keeps the length and maps each character to its lower case |
| Semantics.ChapterTextMatches | epubstandard.py:125 | The scanning reading of `^\s*chapter\s+\d+` equals its pattern reading: blanks, `chapter` in any case, at least one blank, then a digit. Blanks are every character `str.isspace()` accepts (no-break and other Unicode spaces included) and digits every Unicode decimal digit, as the `\s` and `\d` of a `str` pattern are |
| Semantics.ChapterTextIsPattern | epubstandard.py:125 | A text the scanner accepts has the blank/`chapter`/blank/digit shape, with Unicode blanks and decimal digits |
| Semantics.PatternIsChapterText | epubstandard.py:125 | Every text of that shape is accepted, `Chapter` + NO-BREAK SPACE + `1` included |
| Semantics.NoBreakSpaceChapter | epubstandard.py:125 | `Chapter\u00A01` is a chapter heading text |
| Semantics.UnicodeDigitChapter | epubstandard.py:125 | An ideographic space, `chapter`, an em space and an Arabic-Indic digit make a chapter heading text |
| Semantics.LStripAt | epubstandard.py:125 | Stripping leading blanks, Unicode spaces included, drops exactly the blank prefix |
| Semantics.MarkChaptersAt | epubstandard.py:123-128 | Every h1/h2 whose text matches (with Unicode `\s` and `\d`) gets `epub:type="chapter"`; every other element and every tag, text and tail stays the same |
| Semantics.MarkChaptersTwice | epubstandard.py:126-128 | A second chapter pass changes nothing and counts 0 |
| Semantics.WrapKeepsText | epubstandard.py:111-117 | Wrapping Copyright paragraphs keeps the text content of the tree |
| Semantics.WrapOfKeepsText | epubstandard.py:111-117 | The same for a child list |
| Semantics.WrapOfWraps | epubstandard.py:111-117 | Afterwards every Copyright paragraph has a copyright-page section among its ancestors |
| Semantics.WrappedInside | epubstandard.py:113 | Inside a copyright-page section every paragraph counts as wrapped |
| Semantics.WrapOfWrapped | epubstandard.py:113 | Already wrapped paragraphs are left alone and counted 0 |
| Semantics.MarkKeepsWrapped | epubstandard.py:111-128 | The chapter pass keeps every paragraph wrapped |
| Semantics.TitleInNodes | epubstandard.py:105 | The recursive title test is the XPath query: some descendant's string-value contains the title |
| Semantics.WrapKeepsTitle | epubstandard.py:105-117 | When the tail stays outside, wrapping does not change the answer to the title query |
| Semantics.MarkKeepsTitle | epubstandard.py:105-128 | Chapter marking does not change the answer to the title query |
| Semantics.NoBodyNoChange | epubstandard.py:100-101 | Without a body the tagger returns the document unchanged and 0 |
| Semantics.BodyStepsTwice | epubstandard.py:111-128 | After one pass the copyright and chapter steps have nothing left to do |
| Semantics.BodyStepsKeepTitle | epubstandard.py:105-128 | Those steps keep the title query's answer |
| Semantics.TitleStepSettles | epubstandard.py:105-108 | Once the body is a title page, the title step does not fire again |
| Semantics.TransformBodyTwice | epubstandard.py:100-130 | Transforming a transformed body again changes nothing and counts 0 |
| Semantics.OnBodyTwice | epubstandard.py:100 | The same holds for the first body in document order |
| Semantics.OnBodyOfTwice | epubstandard.py:100 | The same holds for a child list |
| Semantics.AddSemanticStructureIdempotent | epubstandard.py:96-130 | With the paragraph's tail kept after the new section, running the tagger on its own output changes nothing and returns 0 |
| Semantics.SemanticAsWrittenNotIdempotent | epubstandard.py:111-117 | As written, on `html[body[p "Copyright" + tail " X"]]` with title "X", the second run still changes something (the count is positive) |
| Semantics.AsWrittenFirstRun | epubstandard.py:111-117 | On the example, the first run returns the document with the paragraph and its tail moved into a new section, and count 1 |
| Semantics.AsWrittenSecondRun | epubstandard.py:105-108 | On that output the title query succeeds, so the second run marks the title page |
| Semantics.ExampleWrap | epubstandard.py:114-116 | The example's copyright step creates one section containing the paragraph and its tail |
| Semantics.ExampleMark | epubstandard.py:123-128 | The example has no chapter heading to mark |
| Semantics.ExampleBody | epubstandard.py:100-117 | The example's body steps give the section and count 1 |
| Semantics.NoneCounted | epubstandard.py:126 | When no element needs a mark, the count is 0 |
| Semantics.RelabelOfFixed | epubstandard.py:126-127 | Setting attributes that are already set changes nothing |
| Footnotes.CallsFor | epubstandard.py:53-61 | Exactly one call is recorded per note-call anchor |
| Footnotes.NoteCallsQuery | epubstandard.py:53 | The structural list of calls is the XPath `a[starts-with(@href,"#fn") or starts-with(@href,"#note")]` over all elements, in document order |
| Footnotes.NoteCallsOfQuery | epubstandard.py:53 | The same for a child list |
| Footnotes.StampCalls | epubstandard.py:53-62 | Pass 1 records one call per note-call anchor, in document order |
| Footnotes.StampOfCalls | epubstandard.py:53-62 | The same for a child list |
| Footnotes.StampMarks | epubstandard.py:56-58 | In the result, the i-th call has id `BacklinkId(k+i)` and `epub:type="noteref"`; no call is added or removed |
| Footnotes.StampOfMarks | epubstandard.py:56-58 | The same for a child list |
| Footnotes.StampLinksBack | epubstandard.py:56-61 | Every recorded back-link href is `name#id`, using the id given to its call |
| Footnotes.AddCallLookup | epubstandard.py:59-61 | Recording a call appends to its fragment's list, or adds the fragment at the end; each fragment keeps a single entry |
| Footnotes.AddCallsLookup | epubstandard.py:59-61 | Each fragment's list grows by the back-links of the calls that target it, in order; the keys stay unique |
| Footnotes.NoteMapOfCalls | epubstandard.py:48-62 | The note map has one entry per fragment, listing the back-links of its calls in order |
| Footnotes.BacklinkAmongQuery | epubstandard.py:77 | The structural back-link test is the query `.//a[contains(@class,"backlink")]` |
| Footnotes.AppendBacklinksValue | epubstandard.py:78-88 | The note's string-value grows by exactly one space plus ` ↩` per back-link appended |
| Footnotes.AppendBacklinksShape | epubstandard.py:78-88 | The note keeps its tag, attributes and tail; only the tails of its old children may change; one anchor is added per href, in order |
| Footnotes.AppendBacklinksGuard | epubstandard.py:77 | After at least one append the note holds a back-link, so the guard blocks a second round |
| Footnotes.MarkFootnoteSpec | epubstandard.py:75-90 | The note gets `epub:type="footnote"`; back-links are added, and counted, only when it holds none |
| Footnotes.MarkFootnoteTwice | epubstandard.py:75-90 | Marking a note that already holds back-links changes nothing and adds 0 |
| Footnotes.FirstHolderQuery | epubstandard.py:73-75 | The search succeeds iff `//*[@id=...]` is non-empty, and returns the query's first result |
| Footnotes.FirstHolderAmongQuery | epubstandard.py:73-75 | The same for a child list |
| Footnotes.OnNoteCount | epubstandard.py:72-90 | A document without the id is unchanged; otherwise the count is all hrefs, or 0 when the note already holds a back-link |
| Footnotes.OnNoteSpec | epubstandard.py:72-90 | Without the id the document is unchanged. Otherwise the result is the document with its first element carrying the id, and nothing else, replaced by the marked note; the search finds that note, which has `epub:type="footnote"`; putting the original note back gives the original document |
| Footnotes.SpliceHolderSpec | epubstandard.py:73-76 | Replacing the first holder of an id by an element with that id: the search finds the new element, and replacing it back restores the tree |
| Footnotes.OnNoteKeepsHolds | epubstandard.py:73-76 | The marked note keeps its id |
| Footnotes.OnNoteTwice | epubstandard.py:72-90 | Running an entry again changes nothing and adds nothing |
| Footnotes.LinkDocument | epubstandard.py:72-90 | The loop over map entries for one document returns exactly `LinkNotes` |
| Footnotes.LinkNotesNoHolder | epubstandard.py:73-74 | A document holding none of the mapped ids is unchanged and gets 0 back-links |
| Footnotes.LinkNotesGrows | epubstandard.py:72-90 | The back-link count never decreases over the map entries |
| Footnotes.StampAll | epubstandard.py:49-66 | Pass 1 over the documents returns the `StampDocs` state; the note map is built from its calls; `footnotes_processed` is the number of calls |
| Footnotes.LinkAll | epubstandard.py:68-93 | Pass 2 over the documents equals `LinkDocs` |
| Footnotes.ProcessFootnotes | epubstandard.py:46-94 | Pass 1 and then pass 2 run on the files pass 1 left; the metrics are the calls recorded and the back-links added |
| Footnotes.StampDocSpec | epubstandard.py:51-66 | On a parsed document, pass 1 records its calls in document order, numbered after earlier ones; it writes the stamped tree iff there was a call |
| Footnotes.StampDocSkips | epubstandard.py:51-66 | Pass 1 skips a missing or unparsable document |
| Footnotes.StampDocsFrame | epubstandard.py:49-66 | Over all documents pass 1 only appends calls and writes, writes only listed documents, and leaves other files unchanged |
| Footnotes.LinkDocSpec | epubstandard.py:70-93 | Pass 2 on a document counts its back-links even when an entry raises; it writes the document iff no entry raised and at least one back-link was added |
| Footnotes.LinkDocNoHolder | epubstandard.py:73-91 | A document holding none of the ids is neither counted nor written |
| Footnotes.LinkDocsFrame | epubstandard.py:68-93 | Over all documents pass 2 only adds to the counts and the writes; files it does not write are unchanged |
| Files.SelectedSpec | epubstandard.py:145-151 | Every selected path is a non-empty href that names an existing file, and there are no more of them than items |
| EpubStandard.CleanDocument | epubstandard.py:147-162 | The loop body for one item equals `CleanItem`: skip items without href or file; list the path; an unparsable file or a raising banner pass adds nothing; a raising semantic pass keeps the earlier counts but does not write; otherwise the tree the as-written tagger returns is written |
| EpubStandard.CleanAll | epubstandard.py:143-162 | The loop over the XHTML manifest items equals `CleanItems` |
| EpubStandard.ProcessEpub | epubstandard.py:132-168 | The metrics and files after cleanup; the footnote passes run over the listed documents exactly when that list is non-empty |
| EpubStandard.CleanItemsSelect | epubstandard.py:143-151 | The documents processed are the XHTML items with a non-empty href naming an existing file, in manifest order; no file is added or removed; unprocessed files are unchanged |
| EpubStandard.CleanItemBannerError | epubstandard.py:156-162 | A document whose banner pass raises is listed, but not counted or written |
| EpubStandard.CleanItemWrites | epubstandard.py:152-160 | A document on which no pass raises is written as the as-written tagger's result on cleanup(banners(doc)), with the paragraph's tail moved into a new copyright section, and each count grows by its pass's count |
| LinkFix.UnnestShape | epubstandard-supplemental.py:59-71 | Only tags and attributes change. An unwrapped anchor keeps its children and its other attributes. An anchor with no anchor above it stays |
| LinkFix.UnwrappedKeeps | epubstandard-supplemental.py:63-69 | Unwrapping drops only `href` and `epub:type`, and sets `class` to `unwrapped-nested-link` |
| LinkFix.UnnestValue | epubstandard-supplemental.py:61-71 | The document's text is unchanged |
| LinkFix.UnnestCount | epubstandard-supplemental.py:59-71 | The count plus the anchors left equals the anchors that were there; no anchor is left below another anchor |
| LinkFix.UnnestNoNested | epubstandard-supplemental.py:59-71 | After the fix, no anchor lies inside another |
| LinkFix.FixNestedTwice | epubstandard-supplemental.py:52-77 | The fix is idempotent: on its own output it changes nothing and counts 0 |
| LinkFix.NoNestedFixed | epubstandard-supplemental.py:59 | A tree without nested anchors is unchanged |
| LinkFix.RepairCount | epubstandard-supplemental.py:29-46 | The count is the number of broken links below the root, including those inside removed subtrees; the root has no parent and stays |
| LinkFix.RepairValue | epubstandard-supplemental.py:38-45 | When broken links have no child elements, their removal keeps the document's text: each link's text and tail go where the link stood |
| LinkFix.RemovedValue | epubstandard-supplemental.py:40-45 | One removal step moves the link's text and tail to the previous sibling's tail, or to the parent's text |
| LinkFix.KeptValue | epubstandard-supplemental.py:31-34 | A link that is not broken keeps its place and its text |
| LinkFix.RepairAmongKept | epubstandard-supplemental.py:31-45 | The children left are the kept siblings and then, in order, the repaired non-broken children; only their tails may have grown |
| LinkFix.RepairNoBroken | epubstandard-supplemental.py:29-46 | Afterwards no link's fragment is missing from the ids gathered at the start |
| LinkFix.RepairKeepsGood | epubstandard-supplemental.py:34 | Every link that is not broken stays, with its tag and attributes, among its parent's children |
| LinkFix.SelectPaths | epubstandard-supplemental.py:130-136 | The documents to fix are `Selected(items)`: a non-empty href naming an existing file |
| LinkFix.FixAll | epubstandard-supplemental.py:138-159 | The loop returns exactly `FixFiles` |
| LinkFix.ProcessSingleEpub | epubstandard-supplemental.py:122-159 | The XHTML step selects the documents and fixes each one: nested links first, then broken links |
| LinkFix.FixFileSpec | epubstandard-supplemental.py:139-159 | A parsed document is written iff it had a nested anchor or a broken link below the root, and the totals grow by those numbers |
| LinkFix.FixFilesFrame | epubstandard-supplemental.py:138-159 | The totals only grow, and a file changes only if it was written |
| Package.FirstIndex | epub3_upgrade.py:22 | The index found is the first one that satisfies the predicate; None iff there is none |
| Package.SetUniqueIdentifierSpec | epub3_upgrade.py:18-20 | The package names `book-id` as its unique identifier, and its children are unchanged |
| Package.UniqueIdentifierSpec | epub3_upgrade.py:21-27 | Afterwards some child identifier has id `book-id`. With one already there, nothing changes. Otherwise only the first identifier gets the id, or a single `urn:uuid:` identifier is appended |
| Package.UniqueIdentifierTwice | epub3_upgrade.py:17-27 | A second run changes nothing |
| Package.StampRoundTrip | epub3_upgrade.py:33 | The `%Y-%m-%dT%H:%M:%SZ` stamp of a valid time is 20 characters and reads back as that time |
| Package.SingleModifiedSpec | epub3_upgrade.py:29-33 | Exactly one child is a modified stamp: the last one, holding the formatted time; the rest are the old non-stamp children, in order |
| Package.SingleModifiedTwice | epub3_upgrade.py:29-33 | Two runs equal one run with the later time |
| Package.CleanManifestSpec | epub3_upgrade.py:138-157 | After the cleanup no item below the manifest is an old navigation item, and the manifest keeps its tag and attributes. After registration the new nav item is last, preceded by the cleaned children |
| Package.NoOldNavLeft | epub3_upgrade.py:138-142 | No old navigation item survives the pruning |
| Package.NotOldNavAfter | epub3_upgrade.py:143-147 | Rewriting properties does not make an item an old navigation item |
| Package.PropsKeepHref | epub3_upgrade.py:143-147 | Rewriting properties leaves the tag and href alone |
| Package.DropNavSpec | epub3_upgrade.py:145 | Deleting `nav` from properties that contain it makes them at least three characters shorter, and strips blanks from both ends |
| Nav.UpgradeTitle | epub3_upgrade.py:36-38 | The lookup raises exactly when the package has no metadata element; otherwise it gives the title stripped of Unicode blanks, or `Untitled` |
| Nav.ReplaceHeadSpec | epub3_upgrade.py:48-55 | The new head, titled with the book title, is the first child. Under `html` it is the only head and the other children follow in order. Under any other root nothing is removed |
| Nav.ReplaceHeadTwice | epub3_upgrade.py:50-55 | Two replacements under `html` equal one with the second title |
| Nav.FixXhtml | epub3_upgrade.py:35-58 | Raises, with the same error, iff the title lookup does; otherwise returns `FixItems` over the XHTML manifest items |
| Nav.FixItemsSpec | epub3_upgrade.py:41-56 | No file is added or removed. Unselected and unparsable files are unchanged. Each selected `html` document is one head replacement of the original, however often it is listed |
| Nav.ChildrenTagged | epub3_upgrade.py:61-62 | Every element `//parent/tag` returns carries the tag |
| Nav.ChildrenTaggedOf | epub3_upgrade.py:61-62 | The same for a child list |
| Nav.ManifestMapSpec | epub3_upgrade.py:62 | The keys are exactly the item ids, and each maps to the href of the last item with that id |
| Nav.LabelKeeps | epub3_upgrade.py:77-84 | Apart from ids, the labelled tree is the original |
| Nav.LabelSpec | epub3_upgrade.py:77-84 | One fresh id is used per heading that needs one; afterwards no heading needs one |
| Nav.LabelNothing | epub3_upgrade.py:80-81 | A tree where no heading needs an id is unchanged and uses no fresh id |
| Nav.LabelTwice | epub3_upgrade.py:77-84 | Labelling a labelled document changes nothing |
| Nav.EntriesOfSpec | epub3_upgrade.py:77-85 | One entry per TOC heading, each with non-empty text once Unicode blanks are stripped, and href `doc#id` |
| Nav.DocEntriesSpec | epub3_upgrade.py:76-85 | In a labelled document, exactly one entry per TOC heading (h1/h2 whose text is not only Unicode blanks), each pointing into that document |
| Nav.BlankHeadingSkipped | epub3_upgrade.py:78-79 | An h1 whose text is only a no-break space and an em space strips to nothing and gives no TOC entry |
| Nav.TocDocument | epub3_upgrade.py:69-87 | The loop body for one idref equals `TocStep` |
| Nav.CollectToc | epub3_upgrade.py:64-88 | The spine loop equals `TocOf` |
| Nav.TocStepsStart | epub3_upgrade.py:71 | The start of content is the first spine href that passes the filter, unless one was already set |
| Nav.TocStepsFrame | epub3_upgrade.py:68-87 | No file is added or removed, and only passing spine documents can change. Entries are only appended, each with text and a `#`, once some href passes |
| Nav.TocStepEntries | epub3_upgrade.py:69-85 | One step appends that document's entries, or none |
| Nav.TocStepFiles | epub3_upgrade.py:73-84 | One step changes at most the document its idref names, and only if it is parsed |
| Nav.TocStepsLabelled | epub3_upgrade.py:68-87 | After the loop, no heading of a parsed, passing spine document lacks an id |
| Nav.TocNonEmpty | epub3_upgrade.py:89-91 | The TOC is empty iff no spine href passes the filter; without headings it holds the single `Start of Content` entry |
| Nav.TocList | epub3_upgrade.py:100-104 | The list built has one `li > a` per entry, in order |
| Nav.BuildNav | epub3_upgrade.py:60-117 | Returns the navigation document around the TOC of `TocOf`, with its start of content, and the files as the loop left them |
| Nav.ReadTocItems | epub3_upgrade.py:101-104 | Reading the list back gives the entries |
| Nav.NavDocumentSpec | epub3_upgrade.py:93-117 | Read back, the `toc` nav lists exactly the entries. The `landmarks` nav links the TOC at `nav.xhtml`, then the start of content iff there is one |
| Nav.LandmarksSpec | epub3_upgrade.py:106-115 | The landmarks are `toc`, plus `bodymatter` iff there is a start |
| Upgrade.OnFirstSpec | epub3_upgrade.py:129-135 | `find('.//tag')` plus an in-place edit: the root keeps its tag and attributes, nothing changes when the query finds nothing, and otherwise the same query finds the rewritten element |
| Upgrade.OnFirstAtSpec | epub3_upgrade.py:129-135 | The same, starting at the element itself |
| Upgrade.OnFirstAmongSpec | epub3_upgrade.py:129-135 | The same for a child list |
| Upgrade.MetadataFixSpec | epub3_upgrade.py:132-133 | The two metadata fixes leave a `book-id` identifier and exactly one modified stamp |
| Upgrade.MetadataFixTag | epub3_upgrade.py:132-133 | The metadata fixes keep the tag |
| Upgrade.UpgradePackageSpec | epub3_upgrade.py:127-133 | Whatever the package held, it now has version 3.0 and unique-identifier `book-id`, and its first metadata has a `book-id` identifier and one stamp |
| Upgrade.PackageMetadata | epub3_upgrade.py:129-133 | The metadata found afterwards is the fixed form of the one found before, or of a new one |
| Upgrade.RunUpgrade | epub3_upgrade.py:119-162 | The method equals `UpgradeSpec`: no package gives False; no manifest raises; a package without its own metadata raises AttributeError in the head fix; otherwise the steps run in source order |
| Upgrade.FinishUpgrade | epub3_upgrade.py:150-157 | The steps after cleanup equal `Finish` |
| Upgrade.UpgradeSpecResult | epub3_upgrade.py:119-162 | Without a package it returns False. After an upgrade (only possible when the package had metadata), old navigation files are gone, `nav.xhtml` holds a navigation document with a `toc` list, and no other file is added or removed. The first manifest is the cleaned one with the new item last. Version and unique identifier are set |
| Upgrade.MissingMetadataRaises | epub3_upgrade.py:129-150 | A package with a manifest but no metadata element of its own ends in AttributeError, because the metadata appended without a namespace is invisible to the head fix's query; an upgraded book therefore had metadata |
| Upgrade.FinishSpec | epub3_upgrade.py:150-155 | The files afterwards are the files before, plus `nav.xhtml` |
| Upgrade.FinishNav | epub3_upgrade.py:153-155 | `nav.xhtml` holds a navigation document with a `toc` list |
| Upgrade.FinishOpf | epub3_upgrade.py:157 | The package that comes out has the navigation item registered in its manifest |
| Upgrade.RegisteredManifest | epub3_upgrade.py:157 | After registration the manifest query finds the registered manifest |
| Upgrade.CleanManifestTag | epub3_upgrade.py:138-147 | The manifest cleanup keeps the tag |
| Upgrade.RegisterNavTag | epub3_upgrade.py:157 | Registration keeps the tag |
| Corrector.CorrectTextChunkSpec | ai_corrector.py:18-58 | `openai` and `ollama` give the response of their service stripped of Unicode blanks, or raise RuntimeError when the call fails; any other engine raises ValueError. Both directions are shown |
| Strings.StripUnicodeBlanks | ai_corrector.py:38-55 | `strip()` removes a leading NO-BREAK SPACE and a trailing unit separator, and keeps a ZERO WIDTH SPACE, which is not blank |
| Corrector.UnknownEngineFails | ai_corrector.py:18-88 | An engine other than `openai` or `ollama` always raises ValueError, and every short chunk then comes back unchanged with no slices |
| Corrector.CeilDivSpec | ai_corrector.py:71-82 | The slice count is the least k with len <= k * max_length, i.e. ceil(len / max_length) |
| Corrector.SlicesSpec | ai_corrector.py:71 | The slices concatenate back to the text. There are ceil(len / max_length) of them, each non-empty and at most max_length long, all but the last exactly max_length |
| Corrector.CorrectSlices | ai_corrector.py:72-80 | Each slice is replaced by its correction, or kept when correction raises, in order |
| Corrector.CorrectChunks | ai_corrector.py:60-95 | The loop equals `CorrectFrom`, giving the corrected chunks and `total_subchunks` |
| Corrector.CorrectFromSpec | ai_corrector.py:66-90 | It raises iff `max_length` is 0 and some text is non-empty. Otherwise there is one output chunk per input, with the same ids in order, and the total is the sum of ceil(len / max_length) over the long texts |
| Corrector.FailedKeepsText | ai_corrector.py:72-88 | When every correction fails, a short text comes back unchanged and a long one as its slices joined by `\n` |
| Corrector.AllFailParts | ai_corrector.py:78-80 | When every call fails, each slice is kept as it was |
| Corrector.ShortSentWhole | ai_corrector.py:84-88 | A text of at most max_length is sent whole: the result is its correction or the text, and it adds no slices |
| Corrector.NegativeLimitEmpties | ai_corrector.py:69-82 | A negative max_length makes every text too long, yet produces no slices, so each chunk comes back empty and adds 0 |

## Left out

- Namespaces. Tags are matched by name: `dc:` elements carry the prefix in the tag, and package and XHTML elements are unprefixed. The source parses XHTML with lxml's `HTMLParser`, which produces elements without a namespace, so its `xhtml:`-prefixed queries would find nothing. Most passes in epubstandard.py and the heading query of `build_nav_and_landmarks` are affected. The model gives these queries the behaviour their authors evidently meant, and does not capture that mismatch.
- Un-namespaced insertions. `etree.SubElement(package, 'metadata')`, the `meta` stamp and the new manifest `item` are created without the OPF namespace. The consequence for the inserted metadata is modelled: `fix_xhtml_structure_and_title` cannot find it, so a package without metadata raises AttributeError (`Upgrade.MissingMetadataRaises`). Otherwise the model treats them like namespaced ones, so a second upgrade would find the un-namespaced stamp and item, where the source would not.
- Unicode tables. Blanks and decimal digits follow the Unicode 15.0 character database; a Python built on another Unicode version may differ on newly added characters. Lower-casing handles `A`-`Z` only, which is all that matching the literal `chapter` under `re.IGNORECASE` needs.
- XPath injection. A banner text containing `'`, a book title containing `"` or a footnote id containing `"` breaks the quoted XPath literal. The model raises the error the parser evidently would. Other attribute or tag names that are not valid XPath are not modelled.
- Parsing and serialisation. Reading, writing, the XML declaration, the doctype and pretty-printing are out of scope. A file is a parsed tree or unparsable, and a write replaces the tree. Comments and processing instructions are not modelled.
- Paths. Hrefs stand for the resolved paths relative to the package document. `Path.resolve()` and `is_file()` become membership in the file map.
- Unpacking, repacking, `find_opf_and_basedir`, container parsing and temporary directories are not modelled. The package tree, if one was found, is an input.
- Logging, the `total_chars` figure (only logged) and the log messages are not modelled. `correct_chunks` returns only the corrected list; the model also returns `total_subchunks`.
- Randomness, the clock and the network. Each `uuid.uuid4()` is an input function, and so is `datetime.utcnow()`. The OpenAI and Ollama calls are oracles returning a response or failure; the HTTP status, JSON and timeout handling are folded into that failure.
- Package.FormatStamp: `%Y` is written with four digits. Years before 1000 are not padded as CPython's `strftime` does on every platform.
- Package.DropNavSpec: `replace('nav', '')` is a single left-to-right pass, so `nnavav` becomes `nav`. The lemma states only the length bound and that the ends are stripped, not that no `nav` is left.
- In-place mutation is modelled as rewriting values. Two references to an element cannot be told apart from two equal copies, so aliasing between queried results is not modelled.
- `remove_broken_fragment_links_html` wraps each removal in a `try`. Nothing in the modelled tree operations can raise there, so that path is not modelled.
- epubstandard_all.py, epubfix.py, app.py, csvtoconsole.py, utils.py, utils/ai_corrector.py and utils/epub_utils.py are not part of this model; they are drivers, front ends and thin wrappers around the core.

## Findings

| source | as written | input that shows it | evidently intended | confidence | as-written member | corrected member |
|---|---|---|---|---|---|---|
| epubstandard.py:111-117 | `section.append(p)` moves the paragraph's tail text into the new copyright-page section. The title test on a later run, `.//*[contains(., title)]`, then also sees that tail | `<html><body><p>Copyright</p> X</body></html>` with book title `X`: the first run wraps the paragraph; the second finds `X` in the section's string-value and marks `bodymatter titlepage` | The tagger is described as safe and guards each change against repetition, so a second run should change nothing. The tail should stay after the new section | not executed | Semantics.SemanticAsWrittenNotIdempotent | Semantics.AddSemanticStructureIdempotent |
