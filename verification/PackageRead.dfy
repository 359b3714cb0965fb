/** Reading a whole package: the archive, its manifest, its payload and its signature. */
module PackageRead {
  import opened Bytes
  import opened EntryNames
  import opened Digest
  import opened Package
  import WpsSections
  import WpsInspect
  import ElfValidate

  const MAX_PAYLOAD_BYTES: nat := 64 * 1024 * 1024
  const MAX_MANIFEST_BYTES: nat := 256 * 1024

  datatype Format = CemodElf | Wups

  function PayloadPath(format: Format): string {
    match format
    case CemodElf => "mod.elf"
    case Wups => "plugin.wps"
  }

  /** What the rest of the tools use of an accepted manifest. */
  datatype ManifestFields = Manifest(version: nat, format: Format, views: seq<string>)

  /** The guarantees of manifest validation that later checks build on. */
  predicate ManifestLegal(m: ManifestFields) {
    && 1 <= m.version <= 4
    && (m.version == 1 ==> m.format == CemodElf)
    && (m.version == 4 <==> m.views != [])
    && forall i :: 0 <= i < |m.views| ==> IsUi(m.views[i]) && Key(m.views[i]) == Some(Lower(m.views[i]))
  }

  type ValidManifest = m: ManifestFields | ManifestLegal(m) witness Manifest(1, CemodElf, [])

  /** JSON decoding with manifest validation, and zlib. */
  datatype Tools = Tools(parse: bytes -> Option<ValidManifest>, zlib: WpsSections.Zlib)

  datatype Archive = Archive(suffix: string, size: nat, infos: seq<Info>)

  /** What the reader returns; `wups` is the inspection report of a WUPS payload. */
  datatype Contents = Contents(manifest: ValidManifest, payload: bytes, entries: Entries,
                               wups: Option<WpsInspect.Report>)

  ghost predicate PayloadAccepts(format: Format, payload: bytes, zlib: WpsSections.Zlib) {
    match format
    case CemodElf => ElfValidate.ElfAccepts(payload, ElfValidate.STRICT_RELOCATIONS)
    case Wups => WpsInspect.WpsAccepts(payload, zlib)
  }

  ghost function PayloadReport(format: Format, payload: bytes, zlib: WpsSections.Zlib): Option<WpsInspect.Report>
    requires PayloadAccepts(format, payload, zlib)
  {
    match format
    case CemodElf => None
    case Wups => Some(WpsInspect.ReportOf(payload, zlib))
  }

  method CheckPayload(format: Format, payload: bytes, zlib: WpsSections.Zlib)
    returns (r: Result<Option<WpsInspect.Report>>)
    ensures r.Ok? <==> PayloadAccepts(format, payload, zlib)
    ensures r.Ok? ==> r.value == PayloadReport(format, payload, zlib)
  {
    match format {
      case CemodElf =>
        var checked := ElfValidate.ValidateElf(payload);
        r := if checked.Ok? then Ok(None) else Rejected;
      case Wups =>
        var report := WpsInspect.InspectWups(payload, zlib);
        r := if report.Ok? then Ok(Some(report.value)) else Rejected;
    }
  }

  predicate ArchiveLegal(archive: Archive) {
    && archive.suffix == ".cemod" && 0 < archive.size <= MAX_ARCHIVE_BYTES
    && 0 < |archive.infos| <= MAX_PACKAGE_ENTRIES
  }

  predicate KeyMaterialLegal(entries: Entries) {
    && (PUBLIC_KEY_ENTRY in entries <==> SIGNATURE_ENTRY in entries)
    && (PUBLIC_KEY_ENTRY in entries ==> |entries[PUBLIC_KEY_ENTRY]| == 32 && |entries[SIGNATURE_ENTRY]| == 64)
  }

  /** UI entries are there exactly for version 4, and each view's page is one of them. */
  predicate UiLegal(entries: Entries, m: ManifestFields) {
    && (m.version == 4 <==> exists n :: n in entries && IsUi(n))
    && forall i :: 0 <= i < |m.views| ==> m.views[i] in entries && IsUi(m.views[i])
  }

  /** Exactly the payload the manifest selects. */
  predicate PayloadSelected(entries: Entries, m: ManifestFields) {
    forall format :: PayloadPath(format) in entries <==> format == m.format
  }

  predicate EntriesLegal(entries: Entries, m: ManifestFields) {
    && UiLegal(entries, m) && PayloadSelected(entries, m) && KeyMaterialLegal(entries)
    && 0 < |entries[PayloadPath(m.format)]| <= MAX_PAYLOAD_BYTES
  }

  ghost predicate PackageAccepts(archive: Archive, tools: Tools) {
    && ArchiveLegal(archive)
    && Admitted(archive.infos)
    && (AdmittedContents(archive.infos); ContentsAccept(EntriesOf(archive.infos), tools))
  }

  ghost predicate ContentsAccept(entries: Entries, tools: Tools) {
    && MANIFEST_ENTRY in entries && |entries[MANIFEST_ENTRY]| <= MAX_MANIFEST_BYTES
    && tools.parse(entries[MANIFEST_ENTRY]).Some?
    && var m := tools.parse(entries[MANIFEST_ENTRY]).value;
    && EntriesLegal(entries, m)
    && PayloadAccepts(m.format, entries[PayloadPath(m.format)], tools.zlib)
  }

  ghost function ContentsOf(entries: Entries, tools: Tools): Contents
    requires ContentsAccept(entries, tools)
  {
    var m := tools.parse(entries[MANIFEST_ENTRY]).value;
    var payload := entries[PayloadPath(m.format)];
    Contents(m, payload, entries, PayloadReport(m.format, payload, tools.zlib))
  }

  lemma AdmittedContents(infos: seq<Info>)
    ensures Admitted(infos) ==> forall i :: 0 <= i < |infos| ==> infos[i].content.Some?
  {
    hide InfoLegal;
    if Admitted(infos) {
      forall i | 0 <= i < |infos|
        ensures infos[i].content.Some?
      {
        LegalContent(infos[i]);
      }
    }
  }

  method ReadPackage(archive: Archive, tools: Tools) returns (r: Result<Contents>)
    ensures r.Ok? <==> PackageAccepts(archive, tools)
    ensures r.Ok? ==> (AdmittedContents(archive.infos); r.value == ContentsOf(EntriesOf(archive.infos), tools))
  {
    hide Admitted, EntriesOf, EntriesLegal, PayloadAccepts, PayloadReport;
    if !ArchiveLegal(archive) { return Rejected; }
    var admitted := ReadEntries(archive.infos);
    if admitted.Rejected? { return Rejected; }
    var entries := admitted.value;
    if MANIFEST_ENTRY !in entries || |entries[MANIFEST_ENTRY]| > MAX_MANIFEST_BYTES { return Rejected; }
    var manifest := tools.parse(entries[MANIFEST_ENTRY]);
    if manifest.None? { return Rejected; }
    var m := manifest.value;
    if !EntriesLegal(entries, m) { return Rejected; }
    SelectedIsThere(entries, m);
    var payload := CheckPayload(m.format, entries[PayloadPath(m.format)], tools.zlib);
    if payload.Rejected? { return Rejected; }
    return Ok(Contents(m, entries[PayloadPath(m.format)], entries, payload.value));
  }

  lemma SelectedIsThere(entries: Entries, m: ManifestFields)
    requires EntriesLegal(entries, m)
    ensures PayloadPath(m.format) in entries
  {
  }

  // ----- the signature

  const ED25519_DER_PREFIX: bytes := [0x30, 0x2A, 0x30, 0x05, 0x06, 0x03, 0x2B, 0x65, 0x70, 0x03, 0x21, 0x00]

  /** The Ed25519 check of a signature over a digest: public key in DER form, signature, digest. */
  type Verifier = (bytes, bytes, bytes) -> bool

  /** An unsigned package passes; a signed one is checked over the digest of all that is not the signature. */
  ghost predicate SignatureAccepts(entries: Entries, sha: Hash, verify: Verifier) {
    SIGNATURE_ENTRY in entries ==>
      && PUBLIC_KEY_ENTRY in entries && AllCommittable(entries)
      && verify(ED25519_DER_PREFIX + entries[PUBLIC_KEY_ENTRY], entries[SIGNATURE_ENTRY], CanonicalDigest(entries, sha))
  }

  method VerifySignature(entries: Entries, sha: Hash, verify: Verifier) returns (r: Result<()>)
    requires SIGNATURE_ENTRY in entries ==> PUBLIC_KEY_ENTRY in entries
    ensures r.Ok? <==> SignatureAccepts(entries, sha, verify)
  {
    hide AllCommittable, CanonicalDigest;
    if SIGNATURE_ENTRY !in entries { return Ok(()); }
    var digest := ComputeDigest(entries, sha);
    if digest.Rejected? { return Rejected; }
    if !verify(ED25519_DER_PREFIX + entries[PUBLIC_KEY_ENTRY], entries[SIGNATURE_ENTRY], digest.value) {
      return Rejected;
    }
    return Ok(());
  }
}
