/** What the packager assembles is what the reader returns, and what was signed is what is verified. */
module PackageThenRead {
  import opened Bytes
  import opened Intervals
  import opened EntryNames
  import opened Digest
  import opened Package
  import opened PackageRead
  import opened Packager
  import WpsSections
  import WpsGeometry
  import WpsInspect
  import ElfValidate

  /**
   `info` is an archive entry that holds `e`: deflated to any size or stored as it is, with the type of a regular
   file or no type at all, and not encrypted.
   */
  predicate Zipped(e: Entry, info: Info) {
    && info.filename == e.name && info.fileSize == |e.data| && info.content == Some(e.data)
    && (info.externalAttr < 0x1000_0000 || 0x8000_0000 <= info.externalAttr < 0x9000_0000)
    && info.flagBits % 2 == 0
    && (info.compressType == 8 || IsStored(info))
  }

  predicate IsStored(info: Info) {
    info.compressType == 0 && info.compressSize == info.fileSize
  }

  ghost predicate AllZipped(entries: seq<Entry>, infos: seq<Info>) {
    |infos| == |entries| && forall i :: 0 <= i < |entries| ==> Zipped(entries[i], infos[i])
  }

  // ----- what acceptance says of an archive

  lemma {:induction false} EntryCount(infos: seq<Info>)
    requires Package.DistinctNames(infos) && forall i :: 0 <= i < |infos| ==> infos[i].content.Some?
    ensures |EntriesOf(infos)| == |infos|
  {
    hide Key;
    if infos != [] {
      var front, last := infos[..|infos| - 1], infos[|infos| - 1];
      EntryCount(front);
      EntryNamesOf(front);
      assert last.filename !in EntriesOf(front);
    }
  }

  /** Admission is about single entries, their keys, and three totals: 512 UI files, 32 MiB of them, 97 MiB in all. */
  lemma AdmittedExactly(infos: seq<Info>)
    ensures Admitted(infos) <==>
              && (forall i :: 0 <= i < |infos| ==> InfoLegal(infos[i]))
              && (forall i, j :: 0 <= i < j < |infos| ==> Key(infos[i].filename) != Key(infos[j].filename))
              && SumOf(infos, UiCount) <= 512 && SumOf(infos, UiSize) <= 32 * 1024 * 1024
              && SumOf(infos, FileSize) <= 97 * 1024 * 1024
  {
    hide InfoLegal, Key, SumOf;
  }

  /** Every archive entry is in the map that is read, and all of the limits hold of it. */
  lemma AcceptedArchive(archive: Archive, tools: Tools)
    requires PackageAccepts(archive, tools)
    ensures archive.suffix == ".cemod" && 0 < archive.size <= 97 * 1024 * 1024 && 0 < |archive.infos| <= 517
    ensures forall i :: 0 <= i < |archive.infos| ==> InfoLegal(archive.infos[i]) && archive.infos[i].content.Some?
    ensures |EntriesOf(archive.infos)| == |archive.infos|
    ensures SumOf(archive.infos, FileSize) <= 97 * 1024 * 1024
    ensures SumOf(archive.infos, UiCount) <= 512 && SumOf(archive.infos, UiSize) <= 32 * 1024 * 1024
  {
    AdmittedContents(archive.infos);
    AdmittedExactly(archive.infos);
    EntryCount(archive.infos);
    hide ContentsAccept, InfoLegal, Package.DistinctNames, EntriesOf, SumOf;
  }

  /** What the entries of an accepted package are, by their names. */
  lemma AcceptedContents(entries: Entries, tools: Tools)
    requires ContentsAccept(entries, tools)
    ensures "manifest.json" in entries && |entries["manifest.json"]| <= 256 * 1024
    ensures tools.parse(entries["manifest.json"]).Some?
    ensures var m := tools.parse(entries["manifest.json"]).value;
            && ("mod.elf" in entries <==> m.format == CemodElf) && ("plugin.wps" in entries <==> m.format == Wups)
            && (m.format == CemodElf ==> 0 < |entries["mod.elf"]| <= 64 * 1024 * 1024)
            && (m.format == Wups ==> 0 < |entries["plugin.wps"]| <= 64 * 1024 * 1024)
            && (m.version == 4 <==> exists n :: n in entries && IsUi(n))
            && forall i :: 0 <= i < |m.views| ==> m.views[i] in entries && "ui/" <= m.views[i]
    ensures "public_key.ed25519" in entries <==> "signature.ed25519" in entries
    ensures "public_key.ed25519" in entries ==>
              |entries["public_key.ed25519"]| == 32 && |entries["signature.ed25519"]| == 64
  {
    hide PayloadAccepts;
    assert PayloadPath(CemodElf) == "mod.elf" && PayloadPath(Wups) == "plugin.wps";
  }

  // ----- the entries that are assembled

  /** `entries` are the base entries with or without key material of the right sizes. */
  ghost predicate Shape(q: Request, entries: seq<Entry>) {
    || entries == BaseEntries(q)
    || exists publicKey, signature :: IsKeyed(q, entries, publicKey, signature)
  }

  ghost predicate IsKeyed(q: Request, entries: seq<Entry>, publicKey: bytes, signature: bytes) {
    |publicKey| == 32 && |signature| == 64 && entries == BaseEntries(q) + KeyEntries(publicKey, signature)
  }

  lemma AssembledShape(q: Request, sha: Hash, verify: Verifier)
    requires SigningAccepts(q, sha, verify)
    ensures Shape(q, Assembled(q, sha))
  {
    hide CanonicalDigest, AllCommittable, SignatureAccepts, BaseEntries, SignedEntries, MapOf;
    match q.signing {
      case Unsigned =>
      case PrivateKey(publicDer, sign) =>
        assert IsKeyed(q, Assembled(q, sha), PublicKeyOf(publicDer), sign(CanonicalDigest(SignedEntries(q), sha)));
      case Detached(publicKey, signature) =>
        assert IsKeyed(q, Assembled(q, sha), publicKey, signature);
    }
  }

  /** The names of the assembled entries, by position. */
  lemma EntryKinds(q: Request, entries: seq<Entry>, i: nat)
    requires Shape(q, entries) && i < |entries|
    ensures |BaseEntries(q)| <= |entries| <= |BaseEntries(q)| + 2
    ensures var n := |BaseEntries(q)|;
            && n == 2 + (if q.ui.Some? then |q.ui.value.Files()| else 0)
            && if i == 0 then entries[i] == Entry(MANIFEST_ENTRY, q.encoded)
               else if i == 1 then entries[i] == Entry(PayloadPath(q.selected), q.payload)
               else if i < n then entries[i] == Entry(UiName(q.ui.value.Files()[i - 2]), q.ui.value.Files()[i - 2].data)
               else if i == n then entries[i].name == PUBLIC_KEY_ENTRY && |entries[i].data| == 32
               else entries[i].name == SIGNATURE_ENTRY && |entries[i].data| == 64
  {
    hide UiName;
    assert forall j :: 0 <= j < |BaseEntries(q)| ==> entries[j] == BaseEntries(q)[j];
  }

  lemma FixedNames()
    ensures MANIFEST_ENTRY in FIXED_ENTRIES && PUBLIC_KEY_ENTRY in FIXED_ENTRIES && SIGNATURE_ENTRY in FIXED_ENTRIES
    ensures forall format :: PayloadPath(format) in FIXED_ENTRIES
    ensures MANIFEST_ENTRY != PUBLIC_KEY_ENTRY && MANIFEST_ENTRY != SIGNATURE_ENTRY
    ensures PUBLIC_KEY_ENTRY != SIGNATURE_ENTRY
    ensures forall format :: PayloadPath(format) != MANIFEST_ENTRY && PayloadPath(format) != PUBLIC_KEY_ENTRY
    ensures forall format :: PayloadPath(format) != SIGNATURE_ENTRY
    ensures PayloadPath(CemodElf) != PayloadPath(Wups)
  {
    assert |MANIFEST_ENTRY| == 13 && |PUBLIC_KEY_ENTRY| == 18 && |SIGNATURE_ENTRY| == 17;
    assert |PayloadPath(CemodElf)| == 7 && |PayloadPath(Wups)| == 10;
  }

  /** An entry is a UI file or has one of the fixed names. */
  lemma EntryFixedOrUi(q: Request, entries: seq<Entry>, i: nat)
    requires Shape(q, entries) && i < |entries|
    ensures IsUi(entries[i].name) <==> 2 <= i < |BaseEntries(q)|
    ensures !IsUi(entries[i].name) ==> entries[i].name in FIXED_ENTRIES && Key(entries[i].name) == Some(entries[i].name)
  {
    EntryKinds(q, entries, i);
    FixedNames();
    hide Shape, Key, IsUi, UiName, BaseEntries, FIXED_ENTRIES, PayloadPath;
    if entries[i].name in FIXED_ENTRIES {
      FixedAccepted(entries[i].name);
    }
  }

  /** Keys of UI files and of fixed entries differ: only the former contain a slash. */
  lemma UiKeyIsNotFixed(name: string, fixed: string)
    requires IsUi(name) && Key(name) == Some(Lower(name)) && fixed in FIXED_ENTRIES
    ensures Key(name) != Some(fixed)
  {
    FixedArePlain();
    PlainSurface(fixed);
    assert Lower(name)[2] == '/' && Lower(name)[2] in Lower(name);
  }

  lemma AssembledDistinct(q: Request, entries: seq<Entry>, i: nat, j: nat)
    requires Shape(q, entries) && (q.ui.Some? ==> UiAccepts(q.ui.value.Files())) && i < j < |entries|
    ensures Key(entries[i].name) != Key(entries[j].name)
  {
    EntryKinds(q, entries, i);
    EntryKinds(q, entries, j);
    EntryFixedOrUi(q, entries, i);
    EntryFixedOrUi(q, entries, j);
    FixedNames();
    var n := |BaseEntries(q)|;
    hide Shape, Key, IsUi, UiName, BaseEntries, FIXED_ENTRIES, PayloadPath, Lower, SumOf;
    if 2 <= i && j < n {
      var names := UiNames(q.ui.value.Files());
      assert Key(names[i - 2]) != Key(names[j - 2]);
    } else if 2 <= i < n {
      assert UiFileLegal(q.ui.value.Files()[i - 2]);
      UiKeyIsNotFixed(entries[i].name, entries[j].name);
    } else if 2 <= j < n {
      assert UiFileLegal(q.ui.value.Files()[j - 2]);
      UiKeyIsNotFixed(entries[j].name, entries[i].name);
    }
  }

  // ----- each entry is admitted

  lemma AssembledLegal(q: Request, entries: seq<Entry>, infos: seq<Info>, i: nat)
    requires Shape(q, entries) && (q.ui.Some? ==> UiAccepts(q.ui.value.Files()))
    requires AllZipped(entries, infos) && i < |infos| && RatioLegal(infos[i])
    ensures InfoLegal(infos[i])
  {
    assert Zipped(entries[i], infos[i]);
    EntryKinds(q, entries, i);
    EntryFixedOrUi(q, entries, i);
    KindExactly(infos[i]);
    hide Shape, Key, IsUi, UiName, BaseEntries, FIXED_ENTRIES, PayloadPath, Lower, SumOf, DistinctKeys, KindLegal,
      RatioLegal, AllZipped;
    if IsUi(entries[i].name) {
      assert UiFileLegal(q.ui.value.Files()[i - 2]);
      UiNameAccepted(q.ui.value.Files()[i - 2]);
    } else {
      FixedAccepted(entries[i].name);
    }
  }

  lemma UiNameAccepted(file: UiFile)
    requires UiFileLegal(file)
    ensures NameAccepted(UiName(file))
  {
  }

  // ----- totals

  function EntryUiCount(e: Entry): nat {
    if IsUi(e.name) then 1 else 0
  }

  function EntryUiSize(e: Entry): nat {
    if IsUi(e.name) then |e.data| else 0
  }

  function EntrySize(e: Entry): nat {
    |e.data|
  }

  lemma {:induction false} ZippedTotals(entries: seq<Entry>, infos: seq<Info>)
    requires AllZipped(entries, infos)
    ensures SumOf(infos, UiCount) == SumOf(entries, EntryUiCount)
    ensures SumOf(infos, UiSize) == SumOf(entries, EntryUiSize)
    ensures SumOf(infos, FileSize) == SumOf(entries, EntrySize)
  {
    hide IsUi;
    if entries != [] {
      var k := |entries| - 1;
      assert Zipped(entries[k], infos[k]);
      assert forall i :: 0 <= i < k ==> Zipped(entries[..k][i], infos[..k][i]);
      ZippedTotals(entries[..k], infos[..k]);
    }
  }

  lemma {:induction false} UiTotals(files: seq<UiFile>)
    ensures SumOf(UiEntries(files), EntryUiCount) == |files|
    ensures SumOf(UiEntries(files), EntryUiSize) == SumOf(files, DataSize)
    ensures SumOf(UiEntries(files), EntrySize) == SumOf(files, DataSize)
  {
    hide IsUi, UiName;
    if files != [] {
      var front, last := files[..|files| - 1], files[|files| - 1];
      UiTotals(front);
      assert UiEntries(files)[..|files| - 1] == UiEntries(front);
      assert UiEntries(files)[|files| - 1] == Entry(UiName(last), last.data);
    }
  }

  lemma UiFileAdmitted(file: UiFile, info: Info)
    requires Zipped(Entry(UiName(file), file.data), info) && RatioLegal(info)
    ensures InfoLegal(info) <==> UiFileLegal(file)
  {
    KindExactly(info);
    hide Key, Lower, KindLegal, RatioLegal, UiName;
  }

  lemma UiFilesAdmitted(files: seq<UiFile>, infos: seq<Info>)
    requires AllZipped(UiEntries(files), infos) && forall i :: 0 <= i < |infos| ==> RatioLegal(infos[i])
    ensures |infos| == |files| && Filenames(infos) == UiNames(files)
    ensures (forall i :: 0 <= i < |infos| ==> InfoLegal(infos[i])) <==>
              forall i :: 0 <= i < |files| ==> UiFileLegal(files[i])
  {
    hide InfoLegal, UiFileLegal, RatioLegal, UiName;
    forall i | 0 <= i < |files|
      ensures infos[i].filename == UiNames(files)[i] && (InfoLegal(infos[i]) <==> UiFileLegal(files[i]))
    {
      assert Zipped(UiEntries(files)[i], infos[i]);
      UiFileAdmitted(files[i], infos[i]);
    }
  }

  lemma UiTotalsAdmitted(files: seq<UiFile>, infos: seq<Info>)
    requires AllZipped(UiEntries(files), infos)
    ensures TotalsLegal(infos) <==> |files| <= MAX_UI_FILES && SumOf(files, DataSize) <= MAX_UI_BYTES
  {
    hide AllZipped, SumOf, UiName;
    UiTotals(files);
    ZippedTotals(UiEntries(files), infos);
  }

  /** The packager's rules for UI files are the reader's rules for the entries they become, and some file. */
  lemma UiRulesAgree(files: seq<UiFile>, infos: seq<Info>)
    requires AllZipped(UiEntries(files), infos) && forall i :: 0 <= i < |infos| ==> RatioLegal(infos[i])
    ensures UiAccepts(files) <==> files != [] && Admitted(infos)
  {
    hide AllZipped, InfoLegal, UiFileLegal, RatioLegal, SumOf, UiName, TotalsLegal, Package.DistinctNames, DistinctKeys,
      Filenames, UiNames;
    UiFilesAdmitted(files, infos);
    UiTotalsAdmitted(files, infos);
    DistinctNamesKeys(infos);
  }

  lemma PairTotals(a: Entry, b: Entry, f: Entry -> nat)
    ensures SumOf([a, b], f) == f(a) + f(b)
  {
    assert [a, b][..1] == [a] && [a][..0] == [];
    assert SumOf([a], f) == f(a);
  }

  lemma BaseTotals(q: Request, f: Entry -> nat)
    ensures SumOf(BaseEntries(q), f) ==
              f(Entry(MANIFEST_ENTRY, q.encoded)) + f(Entry(PayloadPath(q.selected), q.payload))
              + if q.ui.Some? then SumOf(UiEntries(q.ui.value.Files()), f) else 0
  {
    var pair := [Entry(MANIFEST_ENTRY, q.encoded), Entry(PayloadPath(q.selected), q.payload)];
    var ui := if q.ui.Some? then UiEntries(q.ui.value.Files()) else [];
    PairTotals(pair[0], pair[1], f);
    SumOfAppend(pair, ui, f);
    assert SumOf<Entry>([], f) == 0;
  }

  lemma FixedAreNotUi()
    ensures !IsUi(MANIFEST_ENTRY) && !IsUi(PUBLIC_KEY_ENTRY) && !IsUi(SIGNATURE_ENTRY)
    ensures forall format :: !IsUi(PayloadPath(format))
  {
    FixedNames();
    forall format
      ensures !IsUi(PayloadPath(format))
    {
      FixedAccepted(PayloadPath(format));
    }
    FixedAccepted(MANIFEST_ENTRY);
    FixedAccepted(PUBLIC_KEY_ENTRY);
    FixedAccepted(SIGNATURE_ENTRY);
  }

  lemma BaseCounts(q: Request)
    ensures var files := if q.ui.Some? then q.ui.value.Files() else [];
            && SumOf(BaseEntries(q), EntryUiCount) == |files|
            && SumOf(BaseEntries(q), EntryUiSize) == SumOf(files, DataSize)
            && SumOf(BaseEntries(q), EntrySize) == |q.encoded| + |q.payload| + SumOf(files, DataSize)
  {
    hide IsUi, UiName, FilesOf, UiEntries, BaseEntries;
    FixedAreNotUi();
    NoSizes();
    BaseTotals(q, EntryUiCount);
    BaseTotals(q, EntryUiSize);
    BaseTotals(q, EntrySize);
    if q.ui.Some? {
      UiTotals(q.ui.value.Files());
    }
  }

  lemma KeyedTotal(base: seq<Entry>, publicKey: bytes, signature: bytes, f: Entry -> nat)
    ensures SumOf(base + KeyEntries(publicKey, signature), f) ==
              SumOf(base, f) + f(Entry(PUBLIC_KEY_ENTRY, publicKey)) + f(Entry(SIGNATURE_ENTRY, signature))
  {
    hide SumOf;
    var keys := KeyEntries(publicKey, signature);
    SumOfAppend(base, keys, f);
    PairTotals(keys[0], keys[1], f);
  }

  /** The totals of the assembled entries, with at most 96 bytes of key material. */
  lemma ShapeTotals(q: Request, entries: seq<Entry>)
    requires Shape(q, entries)
    ensures var files := if q.ui.Some? then q.ui.value.Files() else [];
            && SumOf(entries, EntryUiCount) == |files|
            && SumOf(entries, EntryUiSize) == SumOf(files, DataSize)
            && SumOf(entries, EntrySize) <= |q.encoded| + |q.payload| + SumOf(files, DataSize) + 96
  {
    hide IsUi, UiName, FilesOf, UiEntries, BaseEntries, SumOf, KeyEntries;
    BaseCounts(q);
    FixedAreNotUi();
    if entries != BaseEntries(q) {
      var publicKey, signature :| IsKeyed(q, entries, publicKey, signature);
      KeyedTotal(BaseEntries(q), publicKey, signature, EntryUiCount);
      KeyedTotal(BaseEntries(q), publicKey, signature, EntryUiSize);
      KeyedTotal(BaseEntries(q), publicKey, signature, EntrySize);
    }
  }

  /** Either payload validator bounds the payload. */
  lemma PayloadSize(format: Format, payload: bytes, zlib: WpsSections.Zlib)
    requires PayloadAccepts(format, payload, zlib)
    ensures |payload| <= MAX_PAYLOAD_BYTES
  {
    match format {
      case CemodElf =>
        ElfSize(payload);
      case Wups =>
        WpsSize(payload, zlib);
    }
  }

  lemma ElfSize(payload: bytes)
    requires ElfValidate.ElfAccepts(payload, ElfValidate.STRICT_RELOCATIONS)
    ensures |payload| <= MAX_PAYLOAD_BYTES
  {
    hide ElfValidate.ContentsAccept;
  }

  lemma WpsSize(payload: bytes, zlib: WpsSections.Zlib)
    requires WpsInspect.WpsAccepts(payload, zlib)
    ensures |payload| <= MAX_PAYLOAD_BYTES
  {
    hide WpsInspect.DescriptorsAccept, WpsSections.SectionPassAccepts, WpsGeometry.LayoutAccepts;
  }

  lemma AssembledTotals(q: Request, tools: Tools, entries: seq<Entry>, infos: seq<Info>)
    requires Shape(q, entries) && (q.ui.Some? ==> UiAccepts(q.ui.value.Files()))
    requires PayloadAccepts(q.selected, q.payload, tools.zlib) && |q.encoded| <= MAX_MANIFEST_BYTES
    requires AllZipped(entries, infos)
    ensures TotalsLegal(infos)
  {
    hide Shape, PayloadAccepts, AllZipped, UiFileLegal, DistinctKeys, SumOf, FilesOf;
    ShapeTotals(q, entries);
    ZippedTotals(entries, infos);
    PayloadSize(q.selected, q.payload, tools.zlib);
    NoSizes();
  }

  lemma NoSizes()
    ensures SumOf<UiFile>([], DataSize) == 0
  {
  }

  lemma AssembledAdmitted(q: Request, tools: Tools, entries: seq<Entry>, infos: seq<Info>)
    requires Shape(q, entries) && (q.ui.Some? ==> UiAccepts(q.ui.value.Files()))
    requires PayloadAccepts(q.selected, q.payload, tools.zlib) && |q.encoded| <= MAX_MANIFEST_BYTES
    requires AllZipped(entries, infos) && forall i :: 0 <= i < |infos| ==> RatioLegal(infos[i])
    ensures Admitted(infos) && 0 < |infos| <= MAX_PACKAGE_ENTRIES
  {
    AssembledTotals(q, tools, entries, infos);
    forall i | 0 <= i < |infos|
      ensures InfoLegal(infos[i])
    {
      AssembledLegal(q, entries, infos, i);
    }
    forall i, j | 0 <= i < j < |infos|
      ensures Key(infos[i].filename) != Key(infos[j].filename)
    {
      AssembledDistinct(q, entries, i, j);
      assert Zipped(entries[i], infos[i]) && Zipped(entries[j], infos[j]);
    }
    ShapeCount(q, entries);
  }

  lemma ShapeCount(q: Request, entries: seq<Entry>)
    requires Shape(q, entries) && (q.ui.Some? ==> UiAccepts(q.ui.value.Files()))
    ensures 2 <= |entries| <= MAX_PACKAGE_ENTRIES
  {
    EntryKinds(q, entries, 0);
  }

  // ----- what the reader makes of them

  lemma {:induction false} ZippedEntries(entries: seq<Entry>, infos: seq<Info>)
    requires AllZipped(entries, infos)
    ensures forall i :: 0 <= i < |infos| ==> infos[i].content.Some?
    ensures EntriesOf(infos) == MapOf(entries)
  {
    assert forall i :: 0 <= i < |infos| ==> Zipped(entries[i], infos[i]);
    if entries != [] {
      var k := |entries| - 1;
      assert forall i :: 0 <= i < k ==> Zipped(entries[..k][i], infos[..k][i]);
      ZippedEntries(entries[..k], infos[..k]);
    }
  }

  lemma {:induction false} MapNames(entries: seq<Entry>, n: string)
    ensures n in MapOf(entries) <==> exists i :: 0 <= i < |entries| && entries[i].name == n
  {
    if entries != [] {
      MapNames(entries[..|entries| - 1], n);
      if n in MapOf(entries[..|entries| - 1]) {
        var i :| 0 <= i < |entries| - 1 && entries[..|entries| - 1][i].name == n;
        assert entries[i].name == n;
      }
      if i :| 0 <= i < |entries| && entries[i].name == n {
        assert i < |entries| - 1 ==> entries[..|entries| - 1][i].name == n;
      }
    }
  }

  lemma {:induction false} MapFinds(entries: seq<Entry>, i: nat)
    requires i < |entries| && forall j :: i < j < |entries| ==> entries[j].name != entries[i].name
    ensures entries[i].name in MapOf(entries) && MapOf(entries)[entries[i].name] == entries[i].data
  {
    if i < |entries| - 1 {
      MapFinds(entries[..|entries| - 1], i);
    }
  }

  lemma AssembledFinds(q: Request, entries: seq<Entry>, i: nat)
    requires Shape(q, entries) && (q.ui.Some? ==> UiAccepts(q.ui.value.Files())) && i < |entries|
    ensures entries[i].name in MapOf(entries) && MapOf(entries)[entries[i].name] == entries[i].data
  {
    forall j | i < j < |entries|
      ensures entries[j].name != entries[i].name
    {
      AssembledDistinct(q, entries, i, j);
    }
    MapFinds(entries, i);
  }

  /** Which of the fixed names and which UI names the assembled map has. */
  lemma AssembledNames(q: Request, entries: seq<Entry>, n: string)
    requires Shape(q, entries) && n in MapOf(entries)
    ensures || n == MANIFEST_ENTRY || n == PayloadPath(q.selected)
            || (IsUi(n) && q.ui.Some? && q.ui.value.Files() != [])
            || (|entries| > |BaseEntries(q)| && (n == PUBLIC_KEY_ENTRY || n == SIGNATURE_ENTRY))
  {
    MapNames(entries, n);
    var i :| 0 <= i < |entries| && entries[i].name == n;
    EntryKinds(q, entries, i);
    EntryFixedOrUi(q, entries, i);
  }

  lemma PayloadIsSelected(q: Request, entries: seq<Entry>, m: ManifestFields)
    requires Shape(q, entries) && (q.ui.Some? ==> UiAccepts(q.ui.value.Files())) && m.format == q.selected
    ensures PayloadSelected(MapOf(entries), m)
    ensures PayloadPath(m.format) in MapOf(entries) && MapOf(entries)[PayloadPath(m.format)] == q.payload
  {
    EntryKinds(q, entries, 1);
    AssembledFinds(q, entries, 1);
    FixedNames();
    FixedAreNotUi();
    hide Shape, UiAccepts, MapOf, IsUi;
    forall format | PayloadPath(format) in MapOf(entries)
      ensures format == m.format
    {
      AssembledNames(q, entries, PayloadPath(format));
    }
  }

  lemma KeysAreLegal(q: Request, entries: seq<Entry>)
    requires Shape(q, entries) && (q.ui.Some? ==> UiAccepts(q.ui.value.Files()))
    ensures KeyMaterialLegal(MapOf(entries))
  {
    var n := |BaseEntries(q)|;
    FixedNames();
    FixedAreNotUi();
    EntryKinds(q, entries, 0);
    if entries != BaseEntries(q) {
      KeyedCount(q, entries);
      EntryKinds(q, entries, n);
      EntryKinds(q, entries, n + 1);
      AssembledFinds(q, entries, n);
      AssembledFinds(q, entries, n + 1);
    } else {
      hide Shape, UiAccepts, MapOf, IsUi;
      if PUBLIC_KEY_ENTRY in MapOf(entries) {
        AssembledNames(q, entries, PUBLIC_KEY_ENTRY);
      }
      if SIGNATURE_ENTRY in MapOf(entries) {
        AssembledNames(q, entries, SIGNATURE_ENTRY);
      }
    }
  }

  lemma KeyedCount(q: Request, entries: seq<Entry>)
    requires Shape(q, entries) && entries != BaseEntries(q)
    ensures |entries| == |BaseEntries(q)| + 2
  {
  }

  lemma UiIsLegal(q: Request, entries: seq<Entry>, m: ValidManifest)
    requires Shape(q, entries) && (m.version == 4 <==> q.ui.Some?)
    requires q.ui.Some? ==> UiAccepts(q.ui.value.Files()) && ViewsPresent(q, m)
    ensures UiLegal(MapOf(entries), m)
  {
    UiPresent(q, entries);
    hide Shape, MapOf, IsUi, UiAccepts, Key, Lower;
    forall i | 0 <= i < |m.views|
      ensures m.views[i] in MapOf(entries) && IsUi(m.views[i])
    {
      ViewKept(q, entries, m.views[i]);
    }
  }

  lemma UiPresent(q: Request, entries: seq<Entry>)
    requires Shape(q, entries) && (q.ui.Some? ==> UiAccepts(q.ui.value.Files()))
    ensures (exists n :: n in MapOf(entries) && IsUi(n)) <==> q.ui.Some?
  {
    FixedAreNotUi();
    if q.ui.Some? {
      assert q.ui.value.Files() != [];
      hide UiAccepts, Shape, MapOf, IsUi, BaseEntries;
      EntryKinds(q, entries, 2);
      EntryFixedOrUi(q, entries, 2);
      AssembledFinds(q, entries, 2);
    } else {
      hide Shape, MapOf, IsUi, UiAccepts;
      forall n | n in MapOf(entries)
        ensures !IsUi(n)
      {
        AssembledNames(q, entries, n);
      }
    }
  }

  lemma ViewKept(q: Request, entries: seq<Entry>, view: string)
    requires Shape(q, entries) && view in MapOf(BaseEntries(q))
    ensures view in MapOf(entries)
  {
    MapNames(BaseEntries(q), view);
    MapNames(entries, view);
    var i :| 0 <= i < |BaseEntries(q)| && BaseEntries(q)[i].name == view;
    assert entries[i] == BaseEntries(q)[i];
  }

  // ----- the theorems

  /** An archive of the assembled entries, whatever its compressor made of them. */
  ghost predicate Archived(q: Request, sha: Hash, archive: Archive) {
    Signable(q) && AllZipped(Assembled(q, sha), archive.infos)
  }

  /** What the reader asks and the packager does not test: suffix, manifest size, archive size and compression. */
  predicate Deliverable(q: Request, archive: Archive) {
    && archive.suffix == ".cemod" && 0 < archive.size <= MAX_ARCHIVE_BYTES
    && |q.encoded| <= MAX_MANIFEST_BYTES
    && forall i :: 0 <= i < |archive.infos| ==> RatioLegal(archive.infos[i])
  }

  /** Reading the archive returns this manifest, payload and entry map. */
  ghost predicate Yields(archive: Archive, tools: Tools, manifest: Option<ValidManifest>, payload: bytes,
                         entries: Entries) {
    && PackageAccepts(archive, tools) && manifest.Some?
    && (AdmittedContents(archive.infos); EntriesOf(archive.infos) == entries)
    && var m := manifest.value;
    && PayloadAccepts(m.format, payload, tools.zlib)
    && ContentsOf(entries, tools) == Contents(m, payload, entries, PayloadReport(m.format, payload, tools.zlib))
  }

  /** What an accepted request guarantees about the entries assembled for it. */
  ghost predicate Buildable(q: Request, tools: Tools, entries: seq<Entry>, m: ValidManifest) {
    && Shape(q, entries) && (q.ui.Some? ==> UiAccepts(q.ui.value.Files()) && ViewsPresent(q, m))
    && m.format == q.selected && (m.version == 4 <==> q.ui.Some?)
    && q.payload != [] && PayloadAccepts(q.selected, q.payload, tools.zlib)
  }

  lemma SigningIsSignable(q: Request, sha: Hash, verify: Verifier)
    requires SigningAccepts(q, sha, verify)
    ensures Signable(q)
  {
    hide AllCommittable, CanonicalDigest, SignedEntries, SignatureAccepts;
  }

  lemma RequestIsSignable(q: Request, tools: Tools, sha: Hash, verify: Verifier)
    requires RequestAccepts(q, tools, sha, verify)
    ensures tools.parse(q.rawManifest).Some? && SigningAccepts(q, sha, verify) && Signable(q)
  {
    hide AllCommittable, CanonicalDigest, SignedEntries, SignatureAccepts, SigningAccepts, TreeAccepts, PayloadAccepts,
      ViewsPresent, Signable;
    SigningIsSignable(q, sha, verify);
  }

  lemma AcceptedIsBuildable(q: Request, tools: Tools, sha: Hash, verify: Verifier)
    requires RequestAccepts(q, tools, sha, verify)
    ensures tools.parse(q.rawManifest).Some? && Signable(q)
    ensures Buildable(q, tools, Assembled(q, sha), tools.parse(q.rawManifest).value)
  {
    hide PayloadAccepts, CanonicalDigest, AllCommittable, Assembled, Shape, TreeAccepts, UiAccepts, ViewsPresent,
      SigningAccepts, SignedEntries, Signable;
    SigningIsSignable(q, sha, verify);
    AssembledShape(q, sha, verify);
    if q.ui.Some? {
      TreeFiles(q.ui.value);
    }
  }

  /**
   The manifest printed again is a manifest, and still describes what was packaged: its format, whether it has a UI,
   and its views.
   */
  ghost predicate Reprints(q: Request, tools: Tools) {
    && tools.parse(q.encoded).Some?
    && var m := tools.parse(q.encoded).value;
    && m.format == q.selected && (m.version == 4 <==> q.ui.Some?) && ViewsPresent(q, m)
  }

  /**
   Whatever the packager assembles is read back exactly when the manifest printed again still describes it, the
   output has the right suffix, and the manifest, the archive and the compression of every entry are within the
   limits of the reader. What is read is the
   payload and the entries as assembled, and the manifest as printed again.
   */
  lemma ReadsWhatWasPackaged(q: Request, tools: Tools, sha: Hash, verify: Verifier, archive: Archive)
    requires RequestAccepts(q, tools, sha, verify) && Archived(q, sha, archive)
    ensures PackageAccepts(archive, tools) <==> Deliverable(q, archive) && Reprints(q, tools)
    ensures PackageAccepts(archive, tools) ==>
              Yields(archive, tools, tools.parse(q.encoded), q.payload, MapOf(Assembled(q, sha)))
    ensures tools.parse(q.encoded) == tools.parse(q.rawManifest) ==> Reprints(q, tools)
  {
    hide RequestAccepts, Buildable, AllZipped, PackageAccepts, Yields, Deliverable, Reprints, Assembled, MapOf,
      Signable;
    AcceptedIsBuildable(q, tools, sha, verify);
    var entries, m := Assembled(q, sha), tools.parse(q.rawManifest).value;
    if PackageAccepts(archive, tools) {
      ReadIsReprinted(q, tools, entries, m, archive);
    }
    if Reprints(q, tools) {
      ReprintedIsBuildable(q, tools, entries, m);
      ArchivedIsRead(q, tools, entries, tools.parse(q.encoded).value, archive);
    }
    if tools.parse(q.encoded) == tools.parse(q.rawManifest) {
      UnchangedReprints(q, tools, entries, m);
    }
  }

  predicate AllStored(archive: Archive) {
    forall i :: 0 <= i < |archive.infos| ==> IsStored(archive.infos[i])
  }

  /** Nothing stored is too dense. */
  lemma StoredRatio(info: Info)
    requires IsStored(info)
    ensures RatioLegal(info)
  {
    RatioExactly(info);
  }

  /**
   A package whose entries are all stored is read back exactly when suffix, sizes and the manifest printed again are
   in order.
   */
  lemma ReadsWhatWasStored(q: Request, tools: Tools, sha: Hash, verify: Verifier, archive: Archive)
    requires RequestAccepts(q, tools, sha, verify) && Archived(q, sha, archive)
    requires AllStored(archive)
    ensures PackageAccepts(archive, tools) <==>
              && archive.suffix == ".cemod" && 0 < archive.size <= MAX_ARCHIVE_BYTES
              && |q.encoded| <= MAX_MANIFEST_BYTES && Reprints(q, tools)
  {
    hide RequestAccepts, Archived, PackageAccepts, Yields, Reprints, RatioLegal;
    ReadsWhatWasPackaged(q, tools, sha, verify, archive);
    forall i | 0 <= i < |archive.infos|
      ensures RatioLegal(archive.infos[i])
    {
      StoredRatio(archive.infos[i]);
    }
  }

  lemma ReprintedIsBuildable(q: Request, tools: Tools, entries: seq<Entry>, m: ValidManifest)
    requires Buildable(q, tools, entries, m) && Reprints(q, tools)
    ensures tools.parse(q.encoded).Some? && Buildable(q, tools, entries, tools.parse(q.encoded).value)
  {
    hide Shape, UiAccepts, ViewsPresent, PayloadAccepts;
  }

  lemma UnchangedReprints(q: Request, tools: Tools, entries: seq<Entry>, m: ValidManifest)
    requires Buildable(q, tools, entries, m) && tools.parse(q.encoded) == Some(m)
    ensures Reprints(q, tools)
  {
    hide Shape, UiAccepts, PayloadAccepts, MapOf;
    NoUiNoViews(q, m);
  }

  lemma NoUiNoViews(q: Request, m: ValidManifest)
    requires m.version == 4 <==> q.ui.Some?
    ensures q.ui.None? ==> m.views == [] && ViewsPresent(q, m)
  {
  }

  /** A view that the archive holds is one of the entries that were there before the signature. */
  lemma ViewIsBase(q: Request, entries: seq<Entry>, view: string)
    requires Shape(q, entries) && IsUi(view) && view in MapOf(entries)
    ensures view in MapOf(BaseEntries(q))
  {
    hide Shape, MapOf, IsUi, BaseEntries;
    MapNames(entries, view);
    MapNames(BaseEntries(q), view);
    var i :| 0 <= i < |entries| && entries[i].name == view;
    EntryFixedOrUi(q, entries, i);
    BaseIsPrefix(q, entries);
    assert BaseEntries(q)[i] == entries[i];
  }

  lemma BaseIsPrefix(q: Request, entries: seq<Entry>)
    requires Shape(q, entries)
    ensures BaseEntries(q) <= entries
  {
    hide BaseEntries;
  }

  /** The parts of acceptance that look at the manifest again. */
  lemma AcceptedManifest(archive: Archive, tools: Tools, entries: Entries)
    requires PackageAccepts(archive, tools)
    requires (AdmittedContents(archive.infos); EntriesOf(archive.infos) == entries)
    ensures MANIFEST_ENTRY in entries && tools.parse(entries[MANIFEST_ENTRY]).Some?
    ensures var m := tools.parse(entries[MANIFEST_ENTRY]).value;
            UiLegal(entries, m) && PayloadSelected(entries, m)
  {
    hide Admitted, EntriesOf, UiLegal, PayloadSelected, KeyMaterialLegal, PayloadAccepts, PayloadPath;
  }

  lemma ReadIsReprinted(q: Request, tools: Tools, entries: seq<Entry>, m: ValidManifest, archive: Archive)
    requires Buildable(q, tools, entries, m) && AllZipped(entries, archive.infos) && PackageAccepts(archive, tools)
    ensures Reprints(q, tools)
  {
    hide Shape, UiAccepts, PayloadAccepts, ViewsPresent, AllZipped, PackageAccepts, MapOf, EntriesOf, UiLegal,
      PayloadSelected, MANIFEST_ENTRY;
    ZippedEntries(entries, archive.infos);
    AcceptedManifest(archive, tools, MapOf(entries));
    ManifestIsThere(q, entries);
    var printed := tools.parse(q.encoded).value;
    PayloadIsSelected(q, entries, m);
    SameFormat(MapOf(entries), m, printed);
    UiPresent(q, entries);
    UiDescribed(q, entries, printed);
  }

  /** Both manifests select the payload that is there. */
  lemma SameFormat(entries: Entries, m: ManifestFields, printed: ManifestFields)
    requires PayloadSelected(entries, m) && PayloadSelected(entries, printed)
    ensures printed.format == m.format
  {
    assert PayloadPath(m.format) in entries;
  }

  lemma UiDescribed(q: Request, entries: seq<Entry>, printed: ManifestFields)
    requires Shape(q, entries) && UiLegal(MapOf(entries), printed)
    requires (exists n :: n in MapOf(entries) && IsUi(n)) <==> q.ui.Some?
    ensures (printed.version == 4 <==> q.ui.Some?) && ViewsPresent(q, printed)
  {
    hide Shape, MapOf, IsUi;
    forall i | 0 <= i < |printed.views|
      ensures printed.views[i] in MapOf(BaseEntries(q))
    {
      ViewIsBase(q, entries, printed.views[i]);
    }
  }

  lemma ArchivedIsRead(q: Request, tools: Tools, entries: seq<Entry>, m: ValidManifest, archive: Archive)
    requires Buildable(q, tools, entries, m) && tools.parse(q.encoded) == Some(m)
    requires AllZipped(entries, archive.infos)
    ensures PackageAccepts(archive, tools) <==> Deliverable(q, archive)
    ensures PackageAccepts(archive, tools) ==> Yields(archive, tools, Some(m), q.payload, MapOf(entries))
  {
    hide Shape, UiAccepts, ViewsPresent, PayloadAccepts, AllZipped, PackageAccepts, Yields, Deliverable, MapOf;
    if Deliverable(q, archive) {
      DeliveredIsRead(q, tools, entries, m, archive);
      YieldsAccepts(archive, tools, Some(m), q.payload, MapOf(entries));
    }
    if PackageAccepts(archive, tools) {
      ReadIsDeliverable(q, tools, entries, archive);
    }
  }

  lemma YieldsAccepts(archive: Archive, tools: Tools, m: Option<ValidManifest>, payload: bytes, entries: Entries)
    requires Yields(archive, tools, m, payload, entries)
    ensures PackageAccepts(archive, tools)
  {
    hide PackageAccepts;
  }

  lemma TreeFiles(tree: UiTree)
    requires TreeAccepts(tree)
    ensures UiAccepts(tree.Files())
  {
  }

  lemma DeliveredIsRead(q: Request, tools: Tools, entries: seq<Entry>, m: ValidManifest, archive: Archive)
    requires Buildable(q, tools, entries, m) && tools.parse(q.encoded) == Some(m)
    requires AllZipped(entries, archive.infos) && Deliverable(q, archive)
    ensures Yields(archive, tools, Some(m), q.payload, MapOf(entries))
  {
    hide ContentsAccept, ContentsOf, EntriesOf, Admitted, PayloadAccepts, PayloadReport, AllZipped, RatioLegal, Shape,
      UiAccepts, MapOf, ViewsPresent;
    AssembledAdmitted(q, tools, entries, archive.infos);
    ZippedEntries(entries, archive.infos);
    ReadsEntries(q, tools, entries, m);
  }

  lemma ReadIsDeliverable(q: Request, tools: Tools, entries: seq<Entry>, archive: Archive)
    requires Shape(q, entries) && (q.ui.Some? ==> UiAccepts(q.ui.value.Files()))
    requires AllZipped(entries, archive.infos) && PackageAccepts(archive, tools)
    ensures Deliverable(q, archive)
  {
    hide Shape, UiAccepts, MapOf, EntriesOf, AllZipped, EntriesLegal, PayloadAccepts, InfoLegal, RatioLegal,
      TotalsLegal, DistinctNames, MANIFEST_ENTRY;
    ZippedEntries(entries, archive.infos);
    ManifestIsThere(q, entries);
    forall i | 0 <= i < |archive.infos|
      ensures RatioLegal(archive.infos[i])
    {
      LegalRatio(archive.infos[i]);
    }
  }

  lemma LegalRatio(info: Info)
    requires InfoLegal(info)
    ensures RatioLegal(info)
  {
  }

  /** An entry over 4096 bytes that deflates to a two-hundredth makes the packager's own archive unreadable. */
  lemma DenseEntryIsRefused(tools: Tools, archive: Archive, i: nat)
    requires i < |archive.infos| && archive.infos[i].compressSize > 0
    requires archive.infos[i].fileSize > 4096
    requires archive.infos[i].fileSize > 200 * archive.infos[i].compressSize
    ensures !PackageAccepts(archive, tools)
  {
    hide ContentsAccept, EntriesOf, TotalsLegal, DistinctNames, NameAccepted, KindLegal, IsUi;
    RatioExactly(archive.infos[i]);
    assert !InfoLegal(archive.infos[i]);
  }

  lemma ReadsEntries(q: Request, tools: Tools, entries: seq<Entry>, m: ValidManifest)
    requires Shape(q, entries) && (q.ui.Some? ==> UiAccepts(q.ui.value.Files()) && ViewsPresent(q, m))
    requires m.format == q.selected && (m.version == 4 <==> q.ui.Some?) && tools.parse(q.encoded) == Some(m)
    requires q.payload != [] && PayloadAccepts(q.selected, q.payload, tools.zlib) && |q.encoded| <= MAX_MANIFEST_BYTES
    ensures ContentsAccept(MapOf(entries), tools)
    ensures ContentsOf(MapOf(entries), tools) ==
              Contents(m, q.payload, MapOf(entries), PayloadReport(m.format, q.payload, tools.zlib))
  {
    hide PayloadAccepts, PayloadReport, Shape, UiAccepts, MapOf, ViewsPresent, UiLegal, KeyMaterialLegal,
      PayloadSelected, PayloadPath, ContentsAccept, ContentsOf, MANIFEST_ENTRY;
    ManifestIsThere(q, entries);
    PayloadIsSelected(q, entries, m);
    KeysAreLegal(q, entries);
    UiIsLegal(q, entries, m);
    PayloadSize(q.selected, q.payload, tools.zlib);
    AcceptsThese(MapOf(entries), tools, q.encoded, m, q.payload);
  }

  lemma ManifestIsThere(q: Request, entries: seq<Entry>)
    requires Shape(q, entries) && (q.ui.Some? ==> UiAccepts(q.ui.value.Files()))
    ensures MANIFEST_ENTRY in MapOf(entries) && MapOf(entries)[MANIFEST_ENTRY] == q.encoded
  {
    ShapeCount(q, entries);
    hide Shape, UiAccepts, MapOf, BaseEntries;
    EntryKinds(q, entries, 0);
    AssembledFinds(q, entries, 0);
  }

  lemma AcceptsThese(entries: Entries, tools: Tools, encoded: bytes, m: ValidManifest, payload: bytes)
    requires MANIFEST_ENTRY in entries && entries[MANIFEST_ENTRY] == encoded && |encoded| <= MAX_MANIFEST_BYTES
    requires tools.parse(encoded) == Some(m)
    requires UiLegal(entries, m) && PayloadSelected(entries, m) && KeyMaterialLegal(entries)
    requires PayloadPath(m.format) in entries && entries[PayloadPath(m.format)] == payload
    requires 0 < |payload| <= MAX_PAYLOAD_BYTES && PayloadAccepts(m.format, payload, tools.zlib)
    ensures ContentsAccept(entries, tools)
    ensures ContentsOf(entries, tools) == Contents(m, payload, entries, PayloadReport(m.format, payload, tools.zlib))
  {
    hide PayloadAccepts, PayloadReport, UiLegal, KeyMaterialLegal, PayloadSelected, PayloadPath, MANIFEST_ENTRY;
  }

  lemma PublicKeyWhole(publicDer: bytes)
    requires DerLegal(publicDer)
    ensures ED25519_DER_PREFIX + PublicKeyOf(publicDer) == publicDer
  {
    hide ED25519_DER_PREFIX;
    assert publicDer[..|ED25519_DER_PREFIX|] == ED25519_DER_PREFIX;
  }

  lemma AssembledSigned(q: Request, sha: Hash)
    requires Signable(q) && q.signing.PrivateKey?
    ensures Assembled(q, sha) ==
              BaseEntries(q) + KeyEntries(PublicKeyOf(q.signing.publicDer),
                                          q.signing.sign(CanonicalDigest(SignedEntries(q), sha)))
  {
    hide CanonicalDigest, AllCommittable, SignedEntries, BaseEntries, KeyEntries, PublicKeyOf;
  }

  /** What the private key adds: the signature, next to the entries it signs. */
  lemma SignedMap(q: Request, sha: Hash)
    requires q.signing.PrivateKey? && DerLegal(q.signing.publicDer) && AllCommittable(SignedEntries(q))
    ensures MapOf(Assembled(q, sha)) ==
              SignedEntries(q)[SIGNATURE_ENTRY := q.signing.sign(CanonicalDigest(SignedEntries(q), sha))]
    ensures PUBLIC_KEY_ENTRY in SignedEntries(q) && PUBLIC_KEY_ENTRY != SIGNATURE_ENTRY
    ensures ED25519_DER_PREFIX + SignedEntries(q)[PUBLIC_KEY_ENTRY] == q.signing.publicDer
  {
    hide AllCommittable, CanonicalDigest, MapOf, BaseEntries, KeyEntries, PublicKeyOf, ED25519_DER_PREFIX, Assembled,
      PUBLIC_KEY_ENTRY, SIGNATURE_ENTRY;
    FixedNames();
    PublicKeyWhole(q.signing.publicDer);
    AssembledSigned(q, sha);
    KeysAreThere(BaseEntries(q), PublicKeyOf(q.signing.publicDer),
                 q.signing.sign(CanonicalDigest(SignedEntries(q), sha)));
  }

  /** The digest that was signed, before the signature existed, is the digest that is verified. */
  lemma SignedDigestIsVerified(q: Request, sha: Hash, verify: Verifier)
    requires q.signing.PrivateKey? && SigningAccepts(q, sha, verify)
    ensures var all := MapOf(Assembled(q, sha));
            && AllCommittable(all)
            && CanonicalDigest(all, sha) == CanonicalDigest(SignedEntries(q), sha)
  {
    SignedMap(q, sha);
    SignatureAdded(SignedEntries(q), q.signing.sign(CanonicalDigest(SignedEntries(q), sha)), sha);
  }

  lemma SignatureAdded(entries: Entries, signature: bytes, sha: Hash)
    requires AllCommittable(entries)
    ensures var all := entries[SIGNATURE_ENTRY := signature];
            AllCommittable(all) && CanonicalDigest(all, sha) == CanonicalDigest(entries, sha)
  {
    var all := entries[SIGNATURE_ENTRY := signature];
    hide CanonicalDigest, AllCommittable;
    assert all - {SIGNATURE_ENTRY} == entries - {SIGNATURE_ENTRY};
    SignatureNotCommitted(entries, all, sha);
  }

  lemma AssembledVerifies(q: Request, sha: Hash, verify: Verifier)
    requires SigningAccepts(q, sha, verify)
    requires q.signing.PrivateKey? ==>
               forall digest :: verify(q.signing.publicDer, q.signing.sign(digest), digest)
    ensures SignatureAccepts(MapOf(Assembled(q, sha)), sha, verify)
  {
    hide CanonicalDigest, AllCommittable, MapOf, BaseEntries, SignedEntries;
    match q.signing {
      case Unsigned =>
        NoSignature(q);
      case Detached(_, _) =>
      case PrivateKey(publicDer, sign) =>
        SignedMap(q, sha);
        SignedDigestIsVerified(q, sha, verify);
        var digest := CanonicalDigest(SignedEntries(q), sha);
        hide Assembled;
        VerifiesSigned(SignedEntries(q), MapOf(Assembled(q, sha)), publicDer, sign(digest), digest, sha, verify);
    }
  }

  lemma VerifiesSigned(signed: Entries, all: Entries, publicDer: bytes, signature: bytes, digest: bytes,
                       sha: Hash, verify: Verifier)
    requires PUBLIC_KEY_ENTRY in signed && ED25519_DER_PREFIX + signed[PUBLIC_KEY_ENTRY] == publicDer
    requires PUBLIC_KEY_ENTRY != SIGNATURE_ENTRY && all == signed[SIGNATURE_ENTRY := signature]
    requires AllCommittable(all) && CanonicalDigest(all, sha) == digest && verify(publicDer, signature, digest)
    ensures SignatureAccepts(all, sha, verify)
  {
    hide CanonicalDigest, AllCommittable, ED25519_DER_PREFIX, PUBLIC_KEY_ENTRY, SIGNATURE_ENTRY;
  }

  /** What the archive holds passes the signature check. */
  ghost predicate Verifies(infos: seq<Info>, sha: Hash, verify: Verifier) {
    (forall i :: 0 <= i < |infos| ==> infos[i].content.Some?) && SignatureAccepts(EntriesOf(infos), sha, verify)
  }

  /** The signature of whatever the packager archives is the one that verifies. */
  lemma ArchivedVerifies(q: Request, sha: Hash, verify: Verifier, infos: seq<Info>)
    requires SigningAccepts(q, sha, verify) && AllZipped(Assembled(q, sha), infos)
    requires q.signing.PrivateKey? ==>
               forall digest :: verify(q.signing.publicDer, q.signing.sign(digest), digest)
    ensures Verifies(infos, sha, verify)
  {
    hide SigningAccepts, SignatureAccepts, Assembled, AllZipped, EntriesOf, MapOf, Signable;
    SigningIsSignable(q, sha, verify);
    ZippedEntries(Assembled(q, sha), infos);
    AssembledVerifies(q, sha, verify);
  }

  /** A package signed with a private key passes verification, if the signature scheme accepts its own signatures. */
  lemma SignedPackageVerifies(q: Request, tools: Tools, sha: Hash, verify: Verifier, archive: Archive)
    requires RequestAccepts(q, tools, sha, verify) && Archived(q, sha, archive)
    requires q.signing.PrivateKey? ==>
               forall digest :: verify(q.signing.publicDer, q.signing.sign(digest), digest)
    ensures PackageAccepts(archive, tools) <==> Deliverable(q, archive) && Reprints(q, tools)
    ensures Verifies(archive.infos, sha, verify)
  {
    hide Verifies, PackageAccepts, Deliverable, Reprints, Yields, SignatureAccepts, Assembled, AllZipped, EntriesOf,
      RequestAccepts, Signable, SigningAccepts;
    RequestIsSignable(q, tools, sha, verify);
    ArchivedVerifies(q, sha, verify, archive.infos);
    ReadsWhatWasPackaged(q, tools, sha, verify, archive);
  }

  lemma NoSignature(q: Request)
    ensures SIGNATURE_ENTRY !in MapOf(BaseEntries(q))
  {
    FixedNames();
    FixedAreNotUi();
    hide MapOf, IsUi;
    if SIGNATURE_ENTRY in MapOf(BaseEntries(q)) {
      AssembledNames(q, BaseEntries(q), SIGNATURE_ENTRY);
    }
  }

  // ----- what a signature binds

  /** The DER form of a public key. */
  function KeyDer(key: bytes): bytes {
    [0x30, 0x2A, 0x30, 0x05, 0x06, 0x03, 0x2B, 0x65, 0x70, 0x03, 0x21, 0x00] + key
  }

  /** Each signature is one of a single digest. */
  ghost predicate SignsOne(verify: Verifier) {
    forall der, signature, d, e :: verify(der, signature, d) && verify(der, signature, e) ==> d == e
  }

  /** A signed package passes exactly when its key accepts the signature over the canonical digest. */
  lemma SignatureExactly(entries: Entries, sha: Hash, verify: Verifier)
    requires SIGNATURE_ENTRY in entries && PUBLIC_KEY_ENTRY in entries && AllCommittable(entries)
    ensures SignatureAccepts(entries, sha, verify) <==>
              verify(KeyDer(entries[PUBLIC_KEY_ENTRY]), entries[SIGNATURE_ENTRY], sha(CanonicalStream(entries, sha)))
  {
    hide AllCommittable, CanonicalStream, SIGNATURE_ENTRY, PUBLIC_KEY_ENTRY;
  }

  /**
   Two packages that pass with the same key and signature are equal, or the two byte strings returned are a collision
   of the hash, as long as a signature is one of a single digest.
   */
  lemma SignatureBinds(a: Entries, b: Entries, sha: Hash, verify: Verifier) returns (x: bytes, y: bytes)
    requires SignatureAccepts(a, sha, verify) && SignatureAccepts(b, sha, verify) && SignsOne(verify)
    requires SIGNATURE_ENTRY in a && SIGNATURE_ENTRY in b && a[SIGNATURE_ENTRY] == b[SIGNATURE_ENTRY]
    requires PUBLIC_KEY_ENTRY in a && PUBLIC_KEY_ENTRY in b && a[PUBLIC_KEY_ENTRY] == b[PUBLIC_KEY_ENTRY]
    ensures a == b || (x != y && sha(x) == sha(y))
  {
    hide AllCommittable, CanonicalDigest, ED25519_DER_PREFIX, SIGNATURE_ENTRY, PUBLIC_KEY_ENTRY;
    assert CanonicalDigest(a, sha) == CanonicalDigest(b, sha);
    x, y := DigestBinding(a, b, sha);
    if a - {SIGNATURE_ENTRY} == b - {SIGNATURE_ENTRY} {
      SameButSignature(a, b, SIGNATURE_ENTRY);
    }
  }

  lemma SameButSignature(a: Entries, b: Entries, name: string)
    requires name in a && name in b && a[name] == b[name] && a - {name} == b - {name}
    ensures a == b
  {
    forall n
      ensures n in a <==> n in b
      ensures n in a && n in b ==> a[n] == b[n]
    {
      assert n != name ==> (n in a <==> n in a - {name}) && (n in b <==> n in b - {name});
      if n != name && n in a && n in b {
        assert (a - {name})[n] == a[n] && (b - {name})[n] == b[n];
      }
    }
  }
}
