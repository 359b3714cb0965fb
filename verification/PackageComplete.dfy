/** Every package the reader accepts is one the packager can make. */
module PackageComplete {
  import opened Bytes
  import opened Intervals
  import opened EntryNames
  import opened Digest
  import opened Package
  import opened PackageOrder
  import opened PackageRead
  import opened Packager
  import opened PackageThenRead

  // ----- the UI files of an archive

  ghost predicate Readable(infos: seq<Info>) {
    forall i :: 0 <= i < |infos| ==> infos[i].content.Some?
  }

  /** The UI entries, as the files they come from. */
  function UiFilesOf(infos: seq<Info>): seq<UiFile>
    requires Readable(infos)
  {
    if infos == [] then []
    else
      var last := infos[|infos| - 1];
      UiFilesOf(infos[..|infos| - 1])
      + if IsUi(last.filename) then [UiFile(last.filename[3..], last.content.value)] else []
  }

  /** The file is the one of entry `i`. */
  predicate FileOf(file: UiFile, info: Info) {
    IsUi(info.filename) && UiName(file) == info.filename && info.content == Some(file.data)
  }

  /** Every UI file comes from an entry. */
  lemma {:induction false} UiFileFrom(infos: seq<Info>, k: nat) returns (i: nat)
    requires Readable(infos) && k < |UiFilesOf(infos)|
    ensures i < |infos| && FileOf(UiFilesOf(infos)[k], infos[i])
  {
    var front := infos[..|infos| - 1];
    if k < |UiFilesOf(front)| {
      i := UiFileFrom(front, k);
      assert infos[i] == front[i];
    } else {
      i := |infos| - 1;
    }
  }

  /** Every UI entry is one of the files. */
  lemma {:induction false} UiFileFor(infos: seq<Info>, i: nat) returns (k: nat)
    requires Readable(infos) && i < |infos| && IsUi(infos[i].filename)
    ensures k < |UiFilesOf(infos)| && FileOf(UiFilesOf(infos)[k], infos[i])
  {
    var front := infos[..|infos| - 1];
    if i < |front| {
      assert infos[i] == front[i];
      k := UiFileFor(front, i);
    } else {
      k := |UiFilesOf(front)|;
    }
  }

  lemma {:induction false} UiFileTotals(infos: seq<Info>)
    requires forall i :: 0 <= i < |infos| ==>
               infos[i].content.Some? && |infos[i].content.value| == infos[i].fileSize
    ensures |UiFilesOf(infos)| == SumOf(infos, UiCount) && SumOf(UiFilesOf(infos), DataSize) == SumOf(infos, UiSize)
  {
    hide IsUi;
    if infos != [] {
      var front, last := infos[..|infos| - 1], infos[|infos| - 1];
      UiFileTotals(front);
      if IsUi(last.filename) {
        assert UiFilesOf(infos)[..|UiFilesOf(front)|] == UiFilesOf(front);
        assert DataSize(UiFilesOf(infos)[|UiFilesOf(front)|]) == last.fileSize;
      } else {
        assert UiFilesOf(infos) == UiFilesOf(front);
      }
    }
  }

  lemma {:induction false} UiFilesDistinct(infos: seq<Info>)
    requires Readable(infos) && Package.DistinctNames(infos)
    ensures DistinctKeys(UiNames(UiFilesOf(infos)), |UiFilesOf(infos)|)
  {
    hide Key;
    if infos != [] {
      var front, last := infos[..|infos| - 1], infos[|infos| - 1];
      UiFilesDistinct(front);
      var files, fewer := UiFilesOf(infos), UiFilesOf(front);
      assert forall k :: 0 <= k < |fewer| ==> UiNames(files)[k] == UiNames(fewer)[k];
      if IsUi(last.filename) {
        assert UiName(files[|fewer|]) == last.filename;
        hide IsUi, UiName;
        forall k | 0 <= k < |fewer|
          ensures Key(UiNames(files)[k]) != Key(UiNames(files)[|fewer|])
        {
          var i := UiFileFrom(front, k);
          assert infos[i] == front[i];
        }
      }
    }
  }

  lemma InfoBounds(info: Info)
    requires InfoLegal(info)
    ensures info.content.Some? && |info.content.value| == info.fileSize && Allowed(info.filename)
    ensures IsUi(info.filename) ==>
              Key(info.filename) == Some(Lower(info.filename)) && info.fileSize <= MAX_UI_FILE_BYTES
  {
    hide Key, Lower, KindLegal, RatioLegal;
  }

  lemma AdmittedUiFile(infos: seq<Info>, k: nat)
    requires Readable(infos) && k < |UiFilesOf(infos)|
    requires forall i :: 0 <= i < |infos| ==> InfoLegal(infos[i])
    ensures UiFileLegal(UiFilesOf(infos)[k])
  {
    hide InfoLegal, UiFilesOf, Key, Lower, IsUi, UiName;
    var i := UiFileFrom(infos, k);
    InfoBounds(infos[i]);
  }

  /** The UI entries of an admitted archive are UI files the packager accepts. */
  lemma AdmittedUi(infos: seq<Info>)
    requires Admitted(infos)
    ensures Readable(infos)
    ensures UiFilesOf(infos) != [] ==> UiAccepts(UiFilesOf(infos))
  {
    hide InfoLegal, UiFilesOf, UiFileLegal, SumOf, DistinctKeys, Package.DistinctNames, Allowed, Key, Lower, IsUi;
    forall i | 0 <= i < |infos|
      ensures infos[i].content.Some? && |infos[i].content.value| == infos[i].fileSize
    {
      InfoBounds(infos[i]);
    }
    UiFileTotals(infos);
    UiFilesDistinct(infos);
    forall k | 0 <= k < |UiFilesOf(infos)|
      ensures UiFileLegal(UiFilesOf(infos)[k])
    {
      AdmittedUiFile(infos, k);
    }
  }

  // ----- the request

  function TreeOf(files: seq<UiFile>): UiTree {
    UiTree(true, seq(|files|, i requires 0 <= i < |files| => Regular(files[i])))
  }

  lemma {:induction false} RegularFiles(files: seq<UiFile>)
    ensures TreeOf(files).Files() == files
  {
    if files != [] {
      var front := files[..|files| - 1];
      RegularFiles(front);
      assert TreeOf(files).paths[..|files| - 1] == TreeOf(front).paths;
    }
  }

  lemma TreeAccepted(files: seq<UiFile>)
    requires UiAccepts(files)
    ensures TreeAccepts(TreeOf(files)) && TreeOf(files).Files() == files
  {
    hide UiAccepts, FilesOf;
    RegularFiles(files);
  }

  ghost predicate Readings(archive: Archive, tools: Tools, entries: Entries, m: ValidManifest) {
    && PackageAccepts(archive, tools)
    && (AdmittedContents(archive.infos); EntriesOf(archive.infos) == entries)
    && MANIFEST_ENTRY in entries && tools.parse(entries[MANIFEST_ENTRY]) == Some(m)
    && PayloadPath(m.format) in entries && EntriesLegal(entries, m)
  }

  /** The request that packages these entries, with a detached signature if there is one. */
  function RequestFor(infos: seq<Info>, entries: Entries, m: ValidManifest): Request
    requires Readable(infos) && MANIFEST_ENTRY in entries && PayloadPath(m.format) in entries
    requires KeyMaterialLegal(entries)
  {
    var files := UiFilesOf(infos);
    Request(entries[MANIFEST_ENTRY], entries[MANIFEST_ENTRY], m.format, entries[PayloadPath(m.format)],
            if files == [] then None else Some(TreeOf(files)),
            if PUBLIC_KEY_ENTRY in entries then Detached(entries[PUBLIC_KEY_ENTRY], entries[SIGNATURE_ENTRY])
            else Unsigned)
  }

  /** `q` packages the entries of the archive, in the packager's order. */
  ghost predicate Repackages(q: Request, infos: seq<Info>, entries: Entries, m: ValidManifest) {
    && Readable(infos) && Package.DistinctNames(infos) && EntriesOf(infos) == entries
    && (forall i :: 0 <= i < |infos| ==> Allowed(infos[i].filename))
    && (UiFilesOf(infos) != [] ==> UiAccepts(UiFilesOf(infos)))
    && MANIFEST_ENTRY in entries && PayloadPath(m.format) in entries && EntriesLegal(entries, m)
    && q == RequestFor(infos, entries, m)
  }

  lemma ReadingsAdmit(archive: Archive, tools: Tools, entries: Entries, m: ValidManifest)
    requires Readings(archive, tools, entries, m)
    ensures Admitted(archive.infos)
  {
    hide Admitted, EntriesOf, UiAccepts, UiFilesOf, InfoLegal, TotalsLegal, ContentsAccept, Package.DistinctNames,
      PayloadPath, UiLegal, PayloadSelected, Allowed, EntriesLegal, Readable;
  }

  lemma RequestExists(archive: Archive, tools: Tools, entries: Entries, m: ValidManifest) returns (q: Request)
    requires Readings(archive, tools, entries, m)
    ensures Repackages(q, archive.infos, entries, m)
  {
    hide EntriesOf, UiAccepts, UiFilesOf, InfoLegal, TotalsLegal, ContentsAccept, Package.DistinctNames, PayloadPath,
      UiLegal, PayloadSelected, Allowed;
    ReadingsAdmit(archive, tools, entries, m);
    AdmittedUi(archive.infos);
    q := RequestFor(archive.infos, entries, m);
    forall i | 0 <= i < |archive.infos|
      ensures Allowed(archive.infos[i].filename)
    {
      InfoBounds(archive.infos[i]);
    }
  }

  /** What the request assembles. */
  lemma RepackagedShape(q: Request, infos: seq<Info>, entries: Entries, m: ValidManifest, sha: Hash)
    requires Repackages(q, infos, entries, m)
    ensures Signable(q) && Shape(q, Assembled(q, sha))
    ensures q.ui.Some? <==> UiFilesOf(infos) != []
    ensures q.ui.Some? ==> UiAccepts(q.ui.value.Files()) && q.ui.value.Files() == UiFilesOf(infos)
    ensures |Assembled(q, sha)| == |BaseEntries(q)| + if PUBLIC_KEY_ENTRY in entries then 2 else 0
  {
    hide EntriesOf, UiAccepts, UiFilesOf, BaseEntries, UiLegal, PayloadSelected, Package.DistinctNames, PayloadPath,
      TreeAccepts, TreeOf, UiTree.Files, Allowed;
    if UiFilesOf(infos) != [] {
      TreeAccepted(UiFilesOf(infos));
    }
    if PUBLIC_KEY_ENTRY in entries {
      assert IsKeyed(q, Assembled(q, sha), entries[PUBLIC_KEY_ENTRY], entries[SIGNATURE_ENTRY]);
    }
  }

  lemma BaseIsThere(q: Request, infos: seq<Info>, entries: Entries, m: ValidManifest, i: nat)
    requires Repackages(q, infos, entries, m) && i < |BaseEntries(q)|
    requires q.ui.Some? ==> q.ui.value.Files() == UiFilesOf(infos)
    ensures Holds(entries, BaseEntries(q)[i])
  {
    hide EntriesOf, UiAccepts, UiFilesOf, EntriesLegal, Package.DistinctNames, PayloadPath, TreeOf, UiTree.Files,
      UiName, Allowed, MANIFEST_ENTRY;
    if i >= 2 {
      UiFileIsThere(infos, i - 2);
    }
  }

  /** Every assembled entry is in the archive. */
  lemma AssembledIsThere(q: Request, infos: seq<Info>, entries: Entries, m: ValidManifest, sha: Hash, i: nat)
    requires Repackages(q, infos, entries, m) && Signable(q) && i < |Assembled(q, sha)|
    ensures Holds(entries, Assembled(q, sha)[i])
  {
    hide *;
    RepackagedShape(q, infos, entries, m, sha);
    if i < |BaseEntries(q)| {
      BaseIsPrefix(q, Assembled(q, sha));
      BaseIsThere(q, infos, entries, m, i);
    } else {
      KeyIsThere(q, infos, entries, m, sha, i);
    }
  }

  lemma KeyIsThere(q: Request, infos: seq<Info>, entries: Entries, m: ValidManifest, sha: Hash, i: nat)
    requires Repackages(q, infos, entries, m) && Signable(q) && |BaseEntries(q)| <= i < |Assembled(q, sha)|
    ensures Holds(entries, Assembled(q, sha)[i])
  {
    hide Repackages, BaseEntries, Assembled, PUBLIC_KEY_ENTRY, SIGNATURE_ENTRY, Signable, ManifestLegal;
    KeysAssembled(q, infos, entries, m, sha);
    assert i == |BaseEntries(q)| || i == |BaseEntries(q)| + 1;
  }

  predicate Holds(entries: Entries, e: Entry) {
    e.name in entries && entries[e.name] == e.data
  }

  lemma UiFileIsThere(infos: seq<Info>, k: nat)
    requires Readable(infos) && Package.DistinctNames(infos) && k < |UiFilesOf(infos)|
    ensures Holds(EntriesOf(infos), Entry(UiName(UiFilesOf(infos)[k]), UiFilesOf(infos)[k].data))
  {
    hide UiFilesOf, UiName, EntriesOf, Package.DistinctNames, IsUi;
    var i := UiFileFrom(infos, k);
    EntryFound(infos, i);
  }

  lemma KeysAssembled(q: Request, infos: seq<Info>, entries: Entries, m: ValidManifest, sha: Hash)
    requires Repackages(q, infos, entries, m) && Signable(q)
    ensures var all, n := Assembled(q, sha), |BaseEntries(q)|;
            if PUBLIC_KEY_ENTRY in entries then
              && SIGNATURE_ENTRY in entries && |all| == n + 2
              && all[n] == Entry(PUBLIC_KEY_ENTRY, entries[PUBLIC_KEY_ENTRY])
              && all[n + 1] == Entry(SIGNATURE_ENTRY, entries[SIGNATURE_ENTRY])
            else SIGNATURE_ENTRY !in entries && |all| == n
  {
    hide EntriesOf, UiAccepts, UiFilesOf, BaseEntries, UiLegal, PayloadSelected, Package.DistinctNames, PayloadPath,
      TreeOf, PUBLIC_KEY_ENTRY, SIGNATURE_ENTRY, MANIFEST_ENTRY, Allowed;
  }

  ghost predicate Names(all: seq<Entry>, name: string) {
    exists i :: 0 <= i < |all| && all[i].name == name
  }

  lemma UiNameAssembled(q: Request, infos: seq<Info>, all: seq<Entry>, j: nat)
    requires Readable(infos) && j < |infos| && IsUi(infos[j].filename) && Shape(q, all)
    requires UiFilesOf(infos) != [] ==> q.ui.Some? && q.ui.value.Files() == UiFilesOf(infos)
    ensures Names(all, infos[j].filename)
  {
    hide UiFilesOf, UiName, BaseEntries, IsUi, Shape, UiTree.Files, Names;
    var k := UiFileFor(infos, j);
    FileAssembled(q, all, k);
  }

  lemma FileAssembled(q: Request, all: seq<Entry>, k: nat)
    requires Shape(q, all) && q.ui.Some? && k < |q.ui.value.Files()|
    ensures Names(all, UiName(q.ui.value.Files()[k]))
  {
    BaseIsPrefix(q, all);
    hide Shape, UiName, UiTree.Files;
    var e := UiEntries(q.ui.value.Files())[k];
    assert BaseEntries(q)[k + 2] == e;
    assert all[k + 2] == e;
  }

  lemma FixedNameAssembled(q: Request, infos: seq<Info>, entries: Entries, m: ValidManifest, sha: Hash, name: string)
    requires Repackages(q, infos, entries, m) && Signable(q) && name in entries && Allowed(name) && !IsUi(name)
    ensures Names(Assembled(q, sha), name)
  {
    RepackagedShape(q, infos, entries, m, sha);
    KeysAssembled(q, infos, entries, m, sha);
    var all := Assembled(q, sha);
    EntryKinds(q, all, 0);
    EntryKinds(q, all, 1);
    FixedByFormat(name);
    hide EntriesOf, UiAccepts, UiFilesOf, BaseEntries, UiLegal, Package.DistinctNames, PayloadPath, TreeOf,
      UiTree.Files, Shape, IsUi, UiName, Assembled, PUBLIC_KEY_ENTRY, SIGNATURE_ENTRY, MANIFEST_ENTRY, Signable,
      KeyMaterialLegal, Allowed;
    assert all[0].name == MANIFEST_ENTRY && all[1].name == PayloadPath(m.format);
    if format :| name == PayloadPath(format) {
      assert format == m.format;
    }
  }

  /** Every archived name is assembled. */
  lemma ArchivedIsAssembled(q: Request, infos: seq<Info>, entries: Entries, m: ValidManifest, sha: Hash, name: string)
    requires Repackages(q, infos, entries, m) && Signable(q) && name in entries
    ensures Names(Assembled(q, sha), name)
  {
    RepackagedShape(q, infos, entries, m, sha);
    EntryNamesOf(infos);
    hide EntriesOf, UiAccepts, UiFilesOf, BaseEntries, EntriesLegal, Package.DistinctNames, PayloadPath, TreeOf,
      UiTree.Files, Shape, IsUi, UiName, Assembled, PUBLIC_KEY_ENTRY, SIGNATURE_ENTRY, MANIFEST_ENTRY, Signable,
      Allowed, RequestFor;
    var j :| 0 <= j < |infos| && infos[j].filename == name;
    if IsUi(name) {
      UiNameAssembled(q, infos, Assembled(q, sha), j);
    } else {
      FixedNameAssembled(q, infos, entries, m, sha, name);
    }
  }

  lemma FixedByFormat(name: string)
    requires Allowed(name) && !IsUi(name)
    ensures || name == MANIFEST_ENTRY || name == PUBLIC_KEY_ENTRY || name == SIGNATURE_ENTRY
            || exists format :: name == PayloadPath(format)
  {
    assert PayloadPath(CemodElf) == "mod.elf" && PayloadPath(Wups) == "plugin.wps";
  }

  /** The request assembles exactly the entries of the archive. */
  lemma AssemblesTheSame(q: Request, infos: seq<Info>, entries: Entries, m: ValidManifest, sha: Hash)
    requires Repackages(q, infos, entries, m)
    ensures Signable(q) && MapOf(Assembled(q, sha)) == entries
  {
    hide MapOf, Assembled, Repackages, Shape, UiAccepts, UiTree.Files, UiFilesOf, BaseEntries, Signable;
    RepackagedShape(q, infos, entries, m, sha);
    var all := Assembled(q, sha);
    forall name
      ensures name in entries <==> name in MapOf(all)
      ensures name in MapOf(all) && name in entries ==> MapOf(all)[name] == entries[name]
    {
      MapNames(all, name);
      if name in entries {
        ArchivedIsAssembled(q, infos, entries, m, sha, name);
      }
      if i :| 0 <= i < |all| && all[i].name == name {
        AssembledIsThere(q, infos, entries, m, sha, i);
        AssembledFinds(q, all, i);
      }
    }
  }

  lemma RepackagedUi(q: Request, infos: seq<Info>, entries: Entries, m: ValidManifest, sha: Hash)
    requires Repackages(q, infos, entries, m)
    ensures UiMatches(q, m)
  {
    RepackagedShape(q, infos, entries, m, sha);
    AssemblesTheSame(q, infos, entries, m, sha);
    UiPresent(q, Assembled(q, sha));
    var all := Assembled(q, sha);
    assert UiLegal(MapOf(all), m);
    hide MapOf, Assembled, Shape, UiAccepts, UiFilesOf, BaseEntries, Signable, IsUi, EntriesOf;
    UiDescribed(q, all, m);
    if q.ui.Some? {
      TreeAccepted(UiFilesOf(infos));
    }
  }

  lemma RepackagedPayload(q: Request, archive: Archive, tools: Tools, entries: Entries, m: ValidManifest)
    requires Readings(archive, tools, entries, m) && Repackages(q, archive.infos, entries, m)
    ensures tools.parse(q.rawManifest) == Some(m) && ManifestAndPayload(q, tools)
  {
    hide EntriesOf, Admitted, PayloadAccepts, UiLegal, PayloadSelected, KeyMaterialLegal, UiFilesOf, UiAccepts,
      MANIFEST_ENTRY, PayloadPath, Allowed;
  }

  lemma RepackagedSigning(q: Request, infos: seq<Info>, entries: Entries, m: ValidManifest, sha: Hash,
                          verify: Verifier)
    requires Repackages(q, infos, entries, m)
    ensures SigningAccepts(q, sha, verify) <==> SignatureAccepts(entries, sha, verify)
  {
    AssemblesTheSame(q, infos, entries, m, sha);
    hide MapOf, BaseEntries, UiFilesOf, UiAccepts, EntriesOf, UiLegal, PayloadSelected, CanonicalDigest,
      AllCommittable, PUBLIC_KEY_ENTRY, SIGNATURE_ENTRY, MANIFEST_ENTRY, PayloadPath, ED25519_DER_PREFIX, Allowed;
  }

  lemma RepackagedKeys(q: Request, infos: seq<Info>, entries: Entries, m: ValidManifest)
    requires Repackages(q, infos, entries, m)
    ensures q.rawManifest == q.encoded && !q.signing.PrivateKey?
  {
  }

  lemma ReadingsOf(archive: Archive, tools: Tools) returns (m: ValidManifest)
    requires PackageAccepts(archive, tools)
    ensures Readable(archive.infos) && Readings(archive, tools, EntriesOf(archive.infos), m)
  {
    AdmittedContents(archive.infos);
    hide EntriesOf, Admitted, PayloadAccepts, UiLegal, PayloadSelected, KeyMaterialLegal, MANIFEST_ENTRY;
    var entries := EntriesOf(archive.infos);
    m := tools.parse(entries[MANIFEST_ENTRY]).value;
    SelectedIsThere(entries, m);
  }

  lemma OnlySigningIsLeft(q: Request, tools: Tools, m: ValidManifest, sha: Hash, verify: Verifier)
    requires tools.parse(q.rawManifest) == Some(m) && ManifestAndPayload(q, tools) && UiMatches(q, m)
    ensures RequestAccepts(q, tools, sha, verify) <==> SigningAccepts(q, sha, verify)
  {
    hide ManifestAndPayload, UiMatches, SigningAccepts;
  }

  /** The request assembles exactly these entries. */
  ghost predicate Assembles(q: Request, sha: Hash, entries: Entries) {
    Signable(q) && MapOf(Assembled(q, sha)) == entries
  }

  /** The request assembles what the archive holds, and is accepted exactly when the signature is. */
  ghost predicate Makes(q: Request, infos: seq<Info>, tools: Tools, sha: Hash, verify: Verifier) {
    && Readable(infos) && Assembles(q, sha, EntriesOf(infos))
    && (RequestAccepts(q, tools, sha, verify) <==> SignatureAccepts(EntriesOf(infos), sha, verify))
  }

  /**
   Whatever the reader accepts, the packager can make: for some request, with the manifest as it stands in the
   archive, the entries assembled are those of the archive, and the request is accepted exactly when the signature is.
   */
  lemma ReadIsPackageable(archive: Archive, tools: Tools, sha: Hash, verify: Verifier) returns (q: Request)
    requires PackageAccepts(archive, tools)
    ensures q.rawManifest == q.encoded && !q.signing.PrivateKey? && Makes(q, archive.infos, tools, sha, verify)
  {
    hide MapOf, Assembled, EntriesOf, PackageAccepts, SigningAccepts, SignatureAccepts, ManifestAndPayload, UiMatches,
      Readings, Repackages, Signable, RequestAccepts, ManifestLegal;
    var m := ReadingsOf(archive, tools);
    var infos, entries := archive.infos, EntriesOf(archive.infos);
    q := RequestExists(archive, tools, entries, m);
    AssemblesTheSame(q, infos, entries, m, sha);
    RepackagedPayload(q, archive, tools, entries, m);
    RepackagedUi(q, infos, entries, m, sha);
    RepackagedSigning(q, infos, entries, m, sha, verify);
    RepackagedKeys(q, infos, entries, m);
    OnlySigningIsLeft(q, tools, m, sha, verify);
  }
}
