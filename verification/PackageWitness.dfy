/** A version-4 package with one page: packaged and read back, and the two ways in which it is packaged in vain. */
module PackageWitness {
  import opened Bytes
  import opened Intervals
  import opened EntryNames
  import opened Digest
  import opened Package
  import opened PackageRead
  import opened Packager
  import opened PackageThenRead
  import ElfFixture
  import ElfValidate
  import WpsSections

  const PAGE_NAME: string := "ui/index.html"

  // ----- the request

  lemma TwoWords(p: string, s: string)
    requires '/' !in p && '/' !in s
    ensures Split(p + "/" + s) == [p, s]
  {
    hide Split;
    SplitAppend(p, s);
    SplitWord(s);
  }

  lemma PageName()
    ensures PAGE_NAME == "ui" + "/" + "index.html"
  {
  }

  lemma PageSplit()
    ensures Split(PAGE_NAME) == ["ui", "index.html"]
  {
    hide Split, PAGE_NAME;
    PageName();
    TwoWords("ui", "index.html");
  }

  lemma PageParts()
    ensures Lower("ui") == "ui" && !Dropped("ui") && Lower("index.html") == "index.html" && !Dropped("index.html")
  {
  }

  lemma PageKept()
    ensures Kept(["ui", "index.html"]) == ["ui", "index.html"]
  {
    hide Lower, Dropped, Kept;
    PageParts();
    NoParts();
    assert ["ui", "index.html"] == ["ui"] + ["index.html"] && ["ui"] == [] + ["ui"];
    KeptNext([], "ui");
    KeptNext(["ui"], "index.html");
  }

  lemma PageLegal()
    ensures SurfaceLegal(PAGE_NAME) && !HasDrive(PAGE_NAME) && ComponentsLegal(["ui", "index.html"])
  {
  }

  lemma PageKey()
    ensures IsUi(PAGE_NAME) && Key(PAGE_NAME) == Some(Lower(PAGE_NAME))
  {
    hide Split, Kept, Join, Lower, SurfaceLegal, ComponentsLegal, HasDrive;
    PageSplit();
    PageKept();
    PageLegal();
    KeyIsLowerName(PAGE_NAME);
  }

  lemma DescribedLegal()
    ensures ManifestLegal(Manifest(4, CemodElf, [PAGE_NAME]))
  {
    hide Key, Lower, IsUi, PAGE_NAME;
    PageKey();
  }

  /** What is used of a version-4 manifest with one view, for an ELF payload. */
  function Described(): ValidManifest {
    DescribedLegal();
    Manifest(4, CemodElf, [PAGE_NAME])
  }

  /** A page of 8192 zeros. */
  function Page(): (file: UiFile)
    ensures file.relative == "index.html" && |file.data| == 8192
  {
    UiFile("index.html", seq(8192, i => 0))
  }

  function Payload(): bytes {
    ElfFixture.Fixture(ElfFixture.Suite([ElfFixture.SUITE_RECORD]))
  }

  /** Packages the ELF image of the suite and the page, unsigned. */
  function OnePage(raw: bytes, encoded: bytes): Request {
    Request(raw, encoded, CemodElf, Payload(), Some(UiTree(true, [Regular(Page())])), Unsigned)
  }

  /** Decoders for which `raw` is that manifest, and nothing else is one. */
  function ToolsFor(raw: bytes, zlib: WpsSections.Zlib): Tools {
    Tools(b => if b == raw then Some(Described()) else None, zlib)
  }

  lemma PageFile()
    ensures UiName(Page()) == PAGE_NAME
  {
  }

  lemma OneFile(paths: seq<UiPath>)
    requires paths == [Regular(Page())]
    ensures FilesOf(paths) == [Page()]
  {
    assert paths[..0] == [];
  }

  lemma PageFileLegal()
    ensures UiFileLegal(Page())
  {
    hide Key, Lower, UiName, PAGE_NAME;
    PageFile();
    PageKey();
  }

  lemma PageAccepted(tree: UiTree)
    requires tree == UiTree(true, [Regular(Page())])
    ensures TreeAccepts(tree) && tree.Files() == [Page()]
  {
    hide Page, SumOf, FilesOf, UiFileLegal, Key, UiName;
    OneFile(tree.paths);
    PageFileLegal();
    SumOfOne(Page(), DataSize);
  }

  lemma PayloadAccepted(zlib: WpsSections.Zlib)
    ensures Payload() != [] && PayloadAccepts(CemodElf, Payload(), zlib)
  {
    ElfFixture.SuiteAccepted();
    hide ElfFixture.Fixture, ElfValidate.ElfAccepts;
  }

  lemma PageEntries(raw: bytes, encoded: bytes)
    ensures BaseEntries(OnePage(raw, encoded)) ==
              [Entry(MANIFEST_ENTRY, encoded), Entry("mod.elf", Payload()), Entry(PAGE_NAME, Page().data)]
  {
    hide Payload, UiTree.Files, Page, UiName, MANIFEST_ENTRY, TreeAccepts;
    PageAccepted(UiTree(true, [Regular(Page())]));
    PageFile();
  }

  lemma PageIsThere(raw: bytes, encoded: bytes)
    ensures PAGE_NAME in MapOf(BaseEntries(OnePage(raw, encoded)))
  {
    hide MapOf, BaseEntries, Payload, Page, OnePage, MANIFEST_ENTRY, PAGE_NAME;
    PageEntries(raw, encoded);
    var entries := BaseEntries(OnePage(raw, encoded));
    assert entries[2].name == PAGE_NAME;
    MapNames(entries, PAGE_NAME);
  }

  /** The packager accepts the request, whatever the hash, the signature scheme and the second manifest. */
  lemma OnePageAccepted(raw: bytes, encoded: bytes, zlib: WpsSections.Zlib, sha: Hash, verify: Verifier)
    requires |raw| <= MAX_MANIFEST_BYTES
    ensures RequestAccepts(OnePage(raw, encoded), ToolsFor(raw, zlib), sha, verify)
  {
    hide Payload, PayloadAccepts, TreeAccepts, MapOf, BaseEntries, Page;
    PayloadAccepted(zlib);
    PageAccepted(UiTree(true, [Regular(Page())]));
    PageIsThere(raw, encoded);
  }

  // ----- the archive

  /** A regular file of mode 0644, deflated to this size. */
  function Zip(e: Entry, compressSize: nat): (info: Info)
    ensures Zipped(e, info) && info.compressSize == compressSize
  {
    Info(e.name, 0x81A4 * 0x1_0000, 0, ZIP_DEFLATED, |e.data|, compressSize, Some(e.data))
  }

  /** A stored entry of mode 0600 without a file type. */
  function Store(e: Entry): (info: Info)
    ensures Zipped(e, info) && IsStored(info)
  {
    Info(e.name, 0x180 * 0x1_0000, 0, ZIP_STORED, |e.data|, |e.data|, Some(e.data))
  }

  /** The three entries, the page deflated to `pageSize` bytes and the others not at all. */
  function ArchiveOf(raw: bytes, encoded: bytes, pageSize: nat): Archive {
    var entries := BaseEntries(OnePage(raw, encoded));
    PageEntries(raw, encoded);
    Archive(".cemod", 16384,
            [Zip(entries[0], |encoded|), Zip(entries[1], |Payload()|), Zip(entries[2], pageSize)])
  }

  lemma OnePageArchived(raw: bytes, encoded: bytes, pageSize: nat, sha: Hash)
    ensures Archived(OnePage(raw, encoded), sha, ArchiveOf(raw, encoded, pageSize))
  {
    hide Payload, Zipped, BaseEntries;
    PageEntries(raw, encoded);
  }

  lemma FullSizeRatio(info: Info)
    requires info.compressSize == info.fileSize
    ensures RatioLegal(info)
  {
    RatioExactly(info);
  }

  lemma OnePageDeliverable(raw: bytes, encoded: bytes)
    requires |encoded| <= MAX_MANIFEST_BYTES
    ensures Deliverable(OnePage(raw, encoded), ArchiveOf(raw, encoded, 8192))
  {
    hide Payload, RatioLegal, BaseEntries;
    PageEntries(raw, encoded);
    var infos := ArchiveOf(raw, encoded, 8192).infos;
    FullSizeRatio(infos[0]);
    FullSizeRatio(infos[1]);
    FullSizeRatio(infos[2]);
  }

  // ----- what becomes of it

  /** The packager accepts the request, and this is an archive of it. */
  ghost predicate Packaged(raw: bytes, encoded: bytes, pageSize: nat, zlib: WpsSections.Zlib, sha: Hash,
                           verify: Verifier)
  {
    && RequestAccepts(OnePage(raw, encoded), ToolsFor(raw, zlib), sha, verify)
    && Archived(OnePage(raw, encoded), sha, ArchiveOf(raw, encoded, pageSize))
  }

  lemma OnePagePackaged(raw: bytes, encoded: bytes, pageSize: nat, zlib: WpsSections.Zlib, sha: Hash, verify: Verifier)
    requires |raw| <= MAX_MANIFEST_BYTES
    ensures Packaged(raw, encoded, pageSize, zlib, sha, verify)
  {
    hide RequestAccepts, Archived, OnePage, ArchiveOf, ToolsFor;
    OnePageAccepted(raw, encoded, zlib, sha, verify);
    OnePageArchived(raw, encoded, pageSize, sha);
  }

  /** Printed as it was, and not deflated: read back. */
  lemma OnePageIsRead(raw: bytes, zlib: WpsSections.Zlib, sha: Hash, verify: Verifier)
    requires |raw| <= MAX_MANIFEST_BYTES
    ensures Packaged(raw, raw, 8192, zlib, sha, verify)
    ensures PackageAccepts(ArchiveOf(raw, raw, 8192), ToolsFor(raw, zlib))
  {
    hide RequestAccepts, Archived, Deliverable, Reprints, PackageAccepts, Yields, OnePage, ArchiveOf, ToolsFor;
    OnePagePackaged(raw, raw, 8192, zlib, sha, verify);
    OnePageDeliverable(raw, raw);
    SameManifests(raw);
    ReadsWhatWasPackaged(OnePage(raw, raw), ToolsFor(raw, zlib), sha, verify, ArchiveOf(raw, raw, 8192));
  }

  /** The three entries, all stored. */
  function StoredArchive(raw: bytes, encoded: bytes): Archive {
    var entries := BaseEntries(OnePage(raw, encoded));
    PageEntries(raw, encoded);
    Archive(".cemod", 16384, [Store(entries[0]), Store(entries[1]), Store(entries[2])])
  }

  lemma StoredArchived(raw: bytes, encoded: bytes, sha: Hash)
    ensures Archived(OnePage(raw, encoded), sha, StoredArchive(raw, encoded))
    ensures StoredArchive(raw, encoded).suffix == ".cemod" && StoredArchive(raw, encoded).size == 16384
    ensures AllStored(StoredArchive(raw, encoded))
  {
    hide Payload, Zipped, BaseEntries, IsStored;
    PageEntries(raw, encoded);
  }

  /** Stored, the package is read back whatever it holds. */
  lemma StoredPageIsRead(raw: bytes, zlib: WpsSections.Zlib, sha: Hash, verify: Verifier)
    requires |raw| <= MAX_MANIFEST_BYTES
    ensures PackageAccepts(StoredArchive(raw, raw), ToolsFor(raw, zlib))
  {
    hide RequestAccepts, Archived, Reprints, PackageAccepts, Yields, OnePage, ToolsFor, StoredArchive, AllStored, MapOf,
      Assembled;
    OnePageAccepted(raw, raw, zlib, sha, verify);
    StoredArchived(raw, raw, sha);
    SameManifests(raw);
    ReadsWhatWasStored(OnePage(raw, raw), ToolsFor(raw, zlib), sha, verify, StoredArchive(raw, raw));
    ReadsWhatWasPackaged(OnePage(raw, raw), ToolsFor(raw, zlib), sha, verify, StoredArchive(raw, raw));
  }

  lemma SameManifests(raw: bytes)
    ensures OnePage(raw, raw).rawManifest == OnePage(raw, raw).encoded == raw
  {
  }

  /** The page of zeros deflated to 24 bytes: packaged, and refused. */
  lemma DensePageIsRefused(raw: bytes, zlib: WpsSections.Zlib, sha: Hash, verify: Verifier)
    requires |raw| <= MAX_MANIFEST_BYTES
    ensures Packaged(raw, raw, 24, zlib, sha, verify)
    ensures !PackageAccepts(ArchiveOf(raw, raw, 24), ToolsFor(raw, zlib))
  {
    hide Packaged, PackageAccepts, ArchiveOf, ToolsFor;
    OnePagePackaged(raw, raw, 24, zlib, sha, verify);
    DensePage(raw);
    DenseEntryIsRefused(ToolsFor(raw, zlib), ArchiveOf(raw, raw, 24), 2);
  }

  lemma DensePage(raw: bytes)
    ensures var infos := ArchiveOf(raw, raw, 24).infos;
            |infos| == 3 && infos[2].fileSize == 8192 && infos[2].compressSize == 24
  {
    hide Payload, BaseEntries;
    PageEntries(raw, raw);
  }

  /** Printed as something that is no manifest: packaged within every limit, and refused. */
  lemma LostManifestIsRefused(raw: bytes, encoded: bytes, zlib: WpsSections.Zlib, sha: Hash, verify: Verifier)
    requires |raw| <= MAX_MANIFEST_BYTES && |encoded| <= MAX_MANIFEST_BYTES && raw != encoded
    ensures Packaged(raw, encoded, 8192, zlib, sha, verify)
    ensures Deliverable(OnePage(raw, encoded), ArchiveOf(raw, encoded, 8192))
    ensures !PackageAccepts(ArchiveOf(raw, encoded, 8192), ToolsFor(raw, zlib))
  {
    hide RequestAccepts, Archived, Deliverable, Reprints, PackageAccepts, Yields, OnePage, ArchiveOf, ToolsFor;
    OnePagePackaged(raw, encoded, 8192, zlib, sha, verify);
    OnePageDeliverable(raw, encoded);
    NotReprinted(raw, encoded, zlib);
    ReadsWhatWasPackaged(OnePage(raw, encoded), ToolsFor(raw, zlib), sha, verify, ArchiveOf(raw, encoded, 8192));
  }

  lemma NotReprinted(raw: bytes, encoded: bytes, zlib: WpsSections.Zlib)
    requires raw != encoded
    ensures !Reprints(OnePage(raw, encoded), ToolsFor(raw, zlib))
  {
  }
}
