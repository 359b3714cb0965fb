/** Assembling a package: the UI tree, the entry set, and the signature over it. */
module Packager {
  import opened Bytes
  import opened Intervals
  import opened EntryNames
  import opened Digest
  import opened Package
  import opened PackageRead

  datatype Entry = Entry(name: string, data: bytes)

  /** The dictionary that lists these entries in order. */
  function MapOf(entries: seq<Entry>): Entries {
    if entries == [] then map[]
    else
      var last := entries[|entries| - 1];
      MapOf(entries[..|entries| - 1])[last.name := last.data]
  }

  // ----- the UI tree

  /** A regular file below the UI directory. */
  datatype UiFile = UiFile(relative: string, data: bytes)

  function UiName(file: UiFile): (name: string)
    ensures IsUi(name)
  {
    "ui/" + file.relative
  }

  function DataSize(file: UiFile): nat {
    |file.data|
  }

  predicate UiFileLegal(file: UiFile) {
    Key(UiName(file)) == Some(Lower(UiName(file))) && |file.data| <= MAX_UI_FILE_BYTES
  }

  function UiNames(files: seq<UiFile>): (names: seq<string>)
    ensures |names| == |files|
    ensures forall i :: 0 <= i < |files| ==> names[i] == UiName(files[i])
  {
    seq(|files|, i requires 0 <= i < |files| => UiName(files[i]))
  }

  ghost predicate UiAccepts(files: seq<UiFile>) {
    && files != []
    && (forall i :: 0 <= i < |files| ==> UiFileLegal(files[i]))
    && DistinctKeys(UiNames(files), |files|)
    && |files| <= MAX_UI_FILES
    && SumOf(files, DataSize) <= MAX_UI_BYTES
  }

  function UiEntries(files: seq<UiFile>): (entries: seq<Entry>)
    ensures |entries| == |files|
    ensures forall i :: 0 <= i < |files| ==> entries[i] == Entry(UiName(files[i]), files[i].data)
  {
    seq(|files|, i requires 0 <= i < |files| => Entry(UiName(files[i]), files[i].data))
  }

  lemma NextSize(files: seq<UiFile>, k: nat)
    requires k < |files|
    ensures SumOf(files[..k + 1], DataSize) == SumOf(files[..k], DataSize) + DataSize(files[k])
    ensures SumOf(files[..k + 1], DataSize) <= SumOf(files, DataSize)
  {
    assert files[..k + 1][..k] == files[..k];
    SumOfPrefix(files, k + 1, DataSize);
  }

  lemma NoFiles(files: seq<UiFile>)
    ensures DistinctKeys(UiNames(files), 0) && KeysAre({}, UiNames(files), 0) && SumOf(files[..0], DataSize) == 0
  {
  }

  /** What the UI directory lists, in the order of the paths. */
  datatype UiPath = Directory | Symlink | Special | Regular(file: UiFile)

  /** The UI directory: whether it is one and no symbolic link, and what it lists. */
  datatype UiTree = UiTree(isDirectory: bool, paths: seq<UiPath>) {
    function Files(): seq<UiFile> {
      FilesOf(paths)
    }
  }

  function FilesOf(paths: seq<UiPath>): seq<UiFile> {
    if paths == [] then []
    else
      var last := paths[|paths| - 1];
      FilesOf(paths[..|paths| - 1]) + if last.Regular? then [last.file] else []
  }

  predicate PathLegal(path: UiPath) {
    path.Directory? || path.Regular?
  }

  /** A real directory with nothing but directories and acceptable regular files. */
  ghost predicate TreeAccepts(tree: UiTree) {
    && tree.isDirectory
    && (forall i :: 0 <= i < |tree.paths| ==> PathLegal(tree.paths[i]))
    && UiAccepts(tree.Files())
  }

  /** Neither a file, nor a tree with a link or a special file in it. */
  lemma LinksAreRefused(tree: UiTree, i: nat)
    requires !tree.isDirectory || (i < |tree.paths| && (tree.paths[i].Symlink? || tree.paths[i].Special?))
    ensures !TreeAccepts(tree)
  {
    hide UiAccepts, FilesOf;
  }

  lemma {:induction false} FilesGrow(paths: seq<UiPath>, k: nat)
    requires k <= |paths|
    ensures FilesOf(paths[..k]) <= FilesOf(paths)
  {
    if k < |paths| {
      FilesGrow(paths[..|paths| - 1], k);
      assert paths[..|paths| - 1][..k] == paths[..k];
    } else {
      assert paths[..k] == paths;
    }
  }

  /** The files among the first `k` paths, and what path `k` adds to them. */
  lemma NextPath(paths: seq<UiPath>, k: nat)
    requires k < |paths|
    ensures var files, m := FilesOf(paths), |FilesOf(paths[..k])|;
            && m <= |FilesOf(paths[..k + 1])| <= |files|
            && if paths[k].Regular? then
                 |FilesOf(paths[..k + 1])| == m + 1 && m < |files| && files[m] == paths[k].file
               else |FilesOf(paths[..k + 1])| == m
  {
    assert paths[..k + 1][..k] == paths[..k];
    FilesGrow(paths, k + 1);
  }

  /** `read_ui` over the paths of the directory, in order. */
  method ReadUi(tree: UiTree) returns (r: Result<seq<Entry>>)
    ensures r.Ok? <==> TreeAccepts(tree)
    ensures r.Ok? ==> r.value == UiEntries(tree.Files())
  {
    ghost var files := tree.Files();
    NoFiles(files);
    hide Key, UiName, Lower, SumOf, KeysAre, DistinctKeys, FilesOf;
    if !tree.isDirectory { return Rejected; }
    ghost var names := UiNames(files);
    var result: seq<Entry> := [];
    var normalized: set<string> := {};
    var total := 0;
    ghost var m := 0;
    NoPaths(tree.paths);
    for k := 0 to |tree.paths|
      invariant m == |FilesOf(tree.paths[..k])| == |result| <= |files| && m <= MAX_UI_FILES
      invariant forall i :: 0 <= i < k ==> PathLegal(tree.paths[i])
      invariant forall i :: 0 <= i < m ==> UiFileLegal(files[i]) && result[i] == Entry(UiName(files[i]), files[i].data)
      invariant DistinctKeys(names, m) && KeysAre(normalized, names, m)
      invariant total == SumOf(files[..m], DataSize) <= MAX_UI_BYTES
    {
      NextPath(tree.paths, k);
      var path := tree.paths[k];
      if path.Symlink? { return Rejected; }
      if path.Directory? { continue; }
      if path.Special? { return Rejected; }
      var entry := UiName(path.file);
      var key := NormalizeEntry(entry);
      if key.Rejected? || key.value != Lower(entry) { return Rejected; }
      NextKey(normalized, names, m, key.value);
      NextSize(files, m);
      if key.value in normalized { return Rejected; }
      normalized := normalized + {key.value};
      var data := path.file.data;
      if |data| > MAX_UI_FILE_BYTES { return Rejected; }
      total := total + |data|;
      if |result| >= MAX_UI_FILES || total > MAX_UI_BYTES { return Rejected; }
      result := result + [Entry(entry, data)];
      m := m + 1;
    }
    AllPaths(tree.paths);
    assert files[..m] == files;
    if result == [] { return Rejected; }
    return Ok(result);
  }

  lemma NoPaths(paths: seq<UiPath>)
    ensures FilesOf(paths[..0]) == []
  {
  }

  lemma AllPaths(paths: seq<UiPath>)
    ensures FilesOf(paths[..|paths|]) == FilesOf(paths)
  {
    assert paths[..|paths|] == paths;
  }

  // ----- the entry set

  datatype Signing =
    | Unsigned
    | PrivateKey(publicDer: bytes, sign: bytes -> bytes)
    | Detached(publicKey: bytes, signature: bytes)

  /** What the packager is asked for; `encoded` is the manifest printed again in canonical JSON. */
  datatype Request = Request(rawManifest: bytes, encoded: bytes, selected: Format, payload: bytes,
                             ui: Option<UiTree>, signing: Signing)

  function BaseEntries(q: Request): seq<Entry> {
    [Entry(MANIFEST_ENTRY, q.encoded), Entry(PayloadPath(q.selected), q.payload)]
    + if q.ui.Some? then UiEntries(q.ui.value.Files()) else []
  }

  function KeyEntries(publicKey: bytes, signature: bytes): seq<Entry> {
    [Entry(PUBLIC_KEY_ENTRY, publicKey), Entry(SIGNATURE_ENTRY, signature)]
  }

  function PublicKeyOf(publicDer: bytes): (key: bytes)
    requires |publicDer| == |ED25519_DER_PREFIX| + 32
    ensures |key| == 32
  {
    publicDer[|ED25519_DER_PREFIX|..]
  }

  predicate DerLegal(publicDer: bytes) {
    ED25519_DER_PREFIX <= publicDer && |publicDer| == |ED25519_DER_PREFIX| + 32
  }

  /** The entries that are signed: all but the signature itself. */
  function SignedEntries(q: Request): Entries
    requires q.signing.PrivateKey? && DerLegal(q.signing.publicDer)
  {
    MapOf(BaseEntries(q))[PUBLIC_KEY_ENTRY := PublicKeyOf(q.signing.publicDer)]
  }

  ghost predicate SigningAccepts(q: Request, sha: Hash, verify: Verifier) {
    match q.signing
    case Unsigned => true
    case PrivateKey(publicDer, sign) =>
      && DerLegal(publicDer)
      && AllCommittable(SignedEntries(q))
      && |sign(CanonicalDigest(SignedEntries(q), sha))| == 64
    case Detached(publicKey, signature) =>
      && |publicKey| == 32 && |signature| == 64
      && SignatureAccepts(MapOf(BaseEntries(q) + KeyEntries(publicKey, signature)), sha, verify)
  }

  /** With a private key there is an Ed25519 key and something to sign. */
  ghost predicate Signable(q: Request) {
    q.signing.PrivateKey? ==> DerLegal(q.signing.publicDer) && AllCommittable(SignedEntries(q))
  }

  ghost function Assembled(q: Request, sha: Hash): seq<Entry>
    requires Signable(q)
  {
    match q.signing
    case Unsigned => BaseEntries(q)
    case PrivateKey(publicDer, sign) =>
      BaseEntries(q) + KeyEntries(PublicKeyOf(publicDer), sign(CanonicalDigest(SignedEntries(q), sha)))
    case Detached(publicKey, signature) => BaseEntries(q) + KeyEntries(publicKey, signature)
  }

  predicate ViewsPresent(q: Request, m: ManifestFields) {
    forall i :: 0 <= i < |m.views| ==> m.views[i] in MapOf(BaseEntries(q))
  }

  /** The manifest is good, and describes the payload, which is good itself. */
  ghost predicate ManifestAndPayload(q: Request, tools: Tools) {
    && |q.rawManifest| <= MAX_MANIFEST_BYTES && tools.parse(q.rawManifest).Some?
    && tools.parse(q.rawManifest).value.format == q.selected
    && q.payload != [] && PayloadAccepts(q.selected, q.payload, tools.zlib)
  }

  ghost predicate UiMatches(q: Request, m: ManifestFields) {
    && (m.version == 4 <==> q.ui.Some?)
    && (q.ui.Some? ==> TreeAccepts(q.ui.value) && ViewsPresent(q, m))
  }

  ghost predicate RequestAccepts(q: Request, tools: Tools, sha: Hash, verify: Verifier) {
    && ManifestAndPayload(q, tools) && UiMatches(q, tools.parse(q.rawManifest).value)
    && SigningAccepts(q, sha, verify)
  }

  // ----- the command line

  /** The one payload option that was given, with the file it names. */
  datatype PayloadOption = Elf(data: bytes) | Wps(data: bytes) | Payload(data: bytes)

  datatype KeyPair = KeyPair(publicDer: bytes, sign: bytes -> bytes)

  /**
   The options as given, with the contents of the files they name; `encoded` is None when the manifest cannot be
   printed again, as with a lone surrogate.
   */
  datatype Arguments = Arguments(rawManifest: bytes, encoded: Option<bytes>, payload: PayloadOption,
                                 format: Option<Format>, ui: Option<UiTree>, privateKey: Option<KeyPair>,
                                 publicKey: Option<bytes>, signature: Option<bytes>)

  /** The payload format that is asked for; None when the options disagree or do not say. */
  function SelectedFormat(a: Arguments): Option<Format> {
    match a.payload
    case Elf(_) => if a.format == Some(Wups) then None else Some(CemodElf)
    case Wps(_) => if a.format == Some(CemodElf) then None else Some(Wups)
    case Payload(_) => a.format
  }

  /** How to sign; None when the options conflict or are incomplete. */
  function SelectedSigning(a: Arguments): Option<Signing> {
    match (a.privateKey, a.publicKey, a.signature)
    case (None, None, None) => Some(Unsigned)
    case (Some(pair), None, None) => Some(PrivateKey(pair.publicDer, pair.sign))
    case (None, Some(publicKey), Some(signature)) => Some(Detached(publicKey, signature))
    case _ => None
  }

  function RequestOf(a: Arguments): Option<Request> {
    match (a.encoded, SelectedFormat(a), SelectedSigning(a))
    case (Some(encoded), Some(format), Some(signing)) =>
      Some(Request(a.rawManifest, encoded, format, a.payload.data, a.ui, signing))
    case _ => None
  }

  /** The format is the one that every option given allows, where `--payload` alone says nothing. */
  lemma FormatByOptions(a: Arguments, format: Format)
    ensures SelectedFormat(a) == Some(format) <==>
              && (a.payload.Elf? ==> format == CemodElf) && (a.payload.Wps? ==> format == Wups)
              && (a.format.Some? ==> a.format.value == format) && (a.payload.Payload? ==> a.format.Some?)
  {
    if SelectedFormat(a) == Some(format) {
      assert a.format.Some? ==> a.format.value == CemodElf || a.format.value == Wups;
    }
  }

  /** Options conflict when a private key meets detached material, or half of the latter is missing. */
  lemma SigningByOptions(a: Arguments)
    ensures SelectedSigning(a).None? <==>
              || (a.privateKey.Some? && (a.publicKey.Some? || a.signature.Some?))
              || (a.publicKey.Some? && a.signature.None?) || (a.publicKey.None? && a.signature.Some?)
    ensures SelectedSigning(a).Some? ==>
              match SelectedSigning(a).value
              case Unsigned => a.privateKey.None? && a.publicKey.None?
              case PrivateKey(publicDer, sign) => a.privateKey == Some(KeyPair(publicDer, sign))
              case Detached(publicKey, signature) => a.publicKey == Some(publicKey) && a.signature == Some(signature)
  {
  }

  /** `sign`: the public key, and the signature over everything assembled so far and that key. */
  method Sign(q: Request, sha: Hash) returns (r: Result<(bytes, bytes)>)
    requires q.signing.PrivateKey?
    ensures r.Ok? <==>
              && DerLegal(q.signing.publicDer) && AllCommittable(SignedEntries(q))
              && |q.signing.sign(CanonicalDigest(SignedEntries(q), sha))| == 64
    ensures r.Ok? ==> r.value == (PublicKeyOf(q.signing.publicDer),
                                  q.signing.sign(CanonicalDigest(SignedEntries(q), sha)))
  {
    hide AllCommittable, CanonicalDigest, BaseEntries;
    if !DerLegal(q.signing.publicDer) { return Rejected; }
    var publicKey := PublicKeyOf(q.signing.publicDer);
    var digest := ComputeDigest(MapOf(BaseEntries(q))[PUBLIC_KEY_ENTRY := publicKey], sha);
    if digest.Rejected? { return Rejected; }
    var signature := q.signing.sign(digest.value);
    if |signature| != 64 { return Rejected; }
    return Ok((publicKey, signature));
  }

  method SelectFormat(a: Arguments) returns (r: Result<Format>)
    ensures r == match SelectedFormat(a) case None => Rejected case Some(format) => Ok(format)
  {
    var selected: Format;
    match a.payload {
      case Elf(_) => selected := CemodElf;
      case Wps(_) => selected := Wups;
      case Payload(_) =>
        if a.format.None? { return Rejected; }
        selected := a.format.value;
    }
    if a.format.Some? && a.format.value != selected { return Rejected; }
    return Ok(selected);
  }

  method CheckManifestAndPayload(q: Request, tools: Tools) returns (r: Result<ValidManifest>)
    ensures r.Ok? <==> ManifestAndPayload(q, tools)
    ensures r.Ok? ==> Some(r.value) == tools.parse(q.rawManifest)
  {
    hide PayloadAccepts, PayloadReport;
    if |q.rawManifest| > MAX_MANIFEST_BYTES { return Rejected; }
    var manifest := tools.parse(q.rawManifest);
    if manifest.None? { return Rejected; }
    if q.selected != manifest.value.format || q.payload == [] { return Rejected; }
    var payload := CheckPayload(q.selected, q.payload, tools.zlib);
    if payload.Rejected? { return Rejected; }
    return Ok(manifest.value);
  }

  /** Manifest, payload and UI files, in the order of the archive. */
  method CollectEntries(q: Request, m: ManifestFields) returns (r: Result<seq<Entry>>)
    requires m.format == q.selected
    ensures r.Ok? <==> UiMatches(q, m)
    ensures r.Ok? ==> r.value == BaseEntries(q)
  {
    hide TreeAccepts, MapOf;
    if m.version == 4 && q.ui.None? { return Rejected; }
    if m.version != 4 && q.ui.Some? { return Rejected; }
    var entries := [Entry(MANIFEST_ENTRY, q.encoded), Entry(PayloadPath(m.format), q.payload)];
    if q.ui.Some? {
      var ui := ReadUi(q.ui.value);
      if ui.Rejected? { return Rejected; }
      entries := entries + ui.value;
      assert entries == BaseEntries(q);
      if exists i :: 0 <= i < |m.views| && m.views[i] !in MapOf(entries) { return Rejected; }
    }
    return Ok(entries);
  }

  /** The packager up to writing the archive: the options make a request, and the request is accepted. */
  method BuildPackage(a: Arguments, tools: Tools, sha: Hash, verify: Verifier) returns (r: Result<seq<Entry>>)
    ensures r.Ok? <==> RequestOf(a).Some? && RequestAccepts(RequestOf(a).value, tools, sha, verify)
    ensures r.Ok? ==> Signable(RequestOf(a).value) && r.value == Assembled(RequestOf(a).value, sha)
  {
    hide ManifestAndPayload, UiMatches, SigningAccepts, Signable, Assembled, BaseEntries, RequestAccepts;
    var selected := SelectFormat(a);
    if selected.Rejected? { return Rejected; }
    if a.encoded.None? { return Rejected; }
    var q := Request(a.rawManifest, a.encoded.value, selected.value, a.payload.data, a.ui, Unsigned);
    var manifest := CheckManifestAndPayload(q, tools);
    RequestParts(a, q, tools, sha, verify);
    if manifest.Rejected? { return Rejected; }
    MatchingFormat(q, tools);
    var base := CollectEntries(q, manifest.value);
    if base.Rejected? { return Rejected; }
    if a.privateKey.Some? && (a.publicKey.Some? || a.signature.Some?) { return Rejected; }
    if a.publicKey.None? != a.signature.None? { return Rejected; }
    SameBase(q, RequestOf(a).value);
    r := AddSignature(base.value, RequestOf(a).value, sha, verify);
  }

  lemma MatchingFormat(q: Request, tools: Tools)
    requires ManifestAndPayload(q, tools)
    ensures tools.parse(q.rawManifest).Some? && tools.parse(q.rawManifest).value.format == q.selected
  {
    hide PayloadAccepts;
  }

  lemma SameBase(q: Request, signed: Request)
    requires q == signed.(signing := Unsigned)
    ensures BaseEntries(q) == BaseEntries(signed)
  {
    hide UiEntries, PayloadPath;
  }

  /** An accepted request is one whose parts are accepted; only the last one looks at the key options. */
  lemma RequestParts(a: Arguments, q: Request, tools: Tools, sha: Hash, verify: Verifier)
    requires SelectedFormat(a).Some? && a.encoded.Some?
    requires q == Request(a.rawManifest, a.encoded.value, SelectedFormat(a).value, a.payload.data, a.ui, Unsigned)
    ensures RequestOf(a).Some? <==> SelectedSigning(a).Some?
    ensures RequestOf(a).Some? ==>
              && q == RequestOf(a).value.(signing := Unsigned)
              && (RequestAccepts(RequestOf(a).value, tools, sha, verify) <==>
                    && ManifestAndPayload(q, tools) && UiMatches(q, tools.parse(q.rawManifest).value)
                    && SigningAccepts(RequestOf(a).value, sha, verify))
  {
    hide PayloadAccepts, TreeAccepts, SigningAccepts, MapOf;
    if RequestOf(a).Some? {
      SameBase(q, RequestOf(a).value);
    }
  }

  /** The key material behind the entries assembled so far. */
  method AddSignature(base: seq<Entry>, q: Request, sha: Hash, verify: Verifier) returns (r: Result<seq<Entry>>)
    requires base == BaseEntries(q)
    ensures r.Ok? <==> SigningAccepts(q, sha, verify)
    ensures r.Ok? ==> Signable(q) && r.value == Assembled(q, sha)
  {
    hide SignatureAccepts, AllCommittable, CanonicalDigest, MapOf, SignedEntries, PublicKeyOf, BaseEntries;
    match q.signing {
      case Unsigned =>
        return Ok(base);
      case PrivateKey(_, _) =>
        var signed := Sign(q, sha);
        if signed.Rejected? { return Rejected; }
        return Ok(base + KeyEntries(signed.value.0, signed.value.1));
      case Detached(publicKey, signature) =>
        if |publicKey| != 32 || |signature| != 64 { return Rejected; }
        var entries := base + KeyEntries(publicKey, signature);
        KeysAreThere(base, publicKey, signature);
        var verified := VerifySignature(MapOf(entries), sha, verify);
        if verified.Rejected? { return Rejected; }
        return Ok(entries);
    }
  }

  lemma KeysAreThere(base: seq<Entry>, publicKey: bytes, signature: bytes)
    ensures var all := MapOf(base + KeyEntries(publicKey, signature));
            && all == MapOf(base)[PUBLIC_KEY_ENTRY := publicKey][SIGNATURE_ENTRY := signature]
            && PUBLIC_KEY_ENTRY in all
  {
    var all := base + KeyEntries(publicKey, signature);
    assert all[..|all| - 1] == base + [Entry(PUBLIC_KEY_ENTRY, publicKey)];
    assert (base + [Entry(PUBLIC_KEY_ENTRY, publicKey)])[..|base|] == base;
  }
}
