/** Reading a package: admission of archive entries, and the checks on what they hold. */
module Package {
  import opened Bytes
  import opened Intervals
  import opened EntryNames
  import opened Digest

  const MAX_ARCHIVE_BYTES: nat := 97 * 1024 * 1024
  const MAX_EXPANDED_BYTES: nat := 97 * 1024 * 1024
  const MAX_COMPRESSION_RATIO: nat := 200
  const MAX_UI_FILES: nat := 512
  const MAX_UI_FILE_BYTES: nat := 16 * 1024 * 1024
  const MAX_UI_BYTES: nat := 32 * 1024 * 1024
  const MAX_PACKAGE_ENTRIES: nat := 517

  const REGULAR_FILE: nat := 0x8
  const ZIP_STORED: nat := 0
  const ZIP_DEFLATED: nat := 8

  /** One ZIP directory entry, and what decompressing it yields. */
  datatype Info = Info(filename: string, externalAttr: nat, flagBits: nat, compressType: nat,
                       fileSize: nat, compressSize: nat, content: Option<bytes>)

  // ----- admission of one entry

  /** The Unix file type of an entry: the four bits that the mask 0o170000 keeps of the upper half. */
  function FileType(externalAttr: nat): nat {
    externalAttr / 0x1_0000 / 0x1000 % 0x10
  }

  predicate KindLegal(info: Info) {
    var kind := FileType(info.externalAttr);
    && (kind == 0 || kind == REGULAR_FILE)
    && !AnyBit(info.flagBits, 1)
    && (info.compressType == ZIP_STORED || info.compressType == ZIP_DEFLATED)
  }

  /** The entry does not expand suspiciously. */
  predicate RatioLegal(info: Info) {
    && (info.fileSize > 0 ==> info.compressSize > 0)
    && (info.fileSize > 4096 ==> (info.fileSize - 1) / info.compressSize < MAX_COMPRESSION_RATIO)
  }

  /** No file type or a regular file, whatever its permissions; not encrypted; stored or deflated. */
  lemma KindExactly(info: Info)
    requires info.externalAttr < TWO_32
    ensures KindLegal(info) <==>
              && (info.externalAttr < 0x1000_0000 || 0x8000_0000 <= info.externalAttr < 0x9000_0000)
              && info.flagBits % 2 == 0 && (info.compressType == 0 || info.compressType == 8)
  {
    assert Pow2(1) == 2;
    BitAndLowBits(info.flagBits, 1);
  }

  /** Nothing comes from nothing, and more than 4096 bytes come from at least a two-hundredth of them. */
  lemma RatioExactly(info: Info)
    ensures RatioLegal(info) <==>
              && (info.fileSize > 0 ==> info.compressSize > 0)
              && (info.fileSize > 4096 ==> info.fileSize <= 200 * info.compressSize)
  {
    if info.fileSize > 4096 && info.compressSize > 0 {
      QuotientBelow(info.fileSize - 1, info.compressSize, MAX_COMPRESSION_RATIO);
    }
  }

  lemma QuotientBelow(a: nat, d: nat, q: nat)
    requires d > 0
    ensures a / d < q <==> a < q * d
  {
    var k := a / d;
    assert a == d * k + a % d;
    if k < q {
      assert d * (k + 1) <= d * q;
    } else {
      assert d * q <= d * k;
    }
  }

  predicate InfoLegal(info: Info) {
    && NameAccepted(info.filename)
    && KindLegal(info)
    && (IsUi(info.filename) ==> info.fileSize <= MAX_UI_FILE_BYTES)
    && RatioLegal(info)
    && info.content.Some? && |info.content.value| == info.fileSize
  }

  /** The entry rules in terms of its fields: a name that is its own key in lower case, kind, sizes and content. */
  lemma EntryExactly(info: Info)
    requires info.externalAttr < TWO_32
    ensures InfoLegal(info) <==>
              && Key(info.filename) == Some(Lower(info.filename))
              && (info.filename in FIXED_ENTRIES || ("ui/" <= info.filename && info.fileSize <= 16 * 1024 * 1024))
              && (info.externalAttr < 0x1000_0000 || 0x8000_0000 <= info.externalAttr < 0x9000_0000)
              && info.flagBits % 2 == 0 && (info.compressType == 0 || info.compressType == 8)
              && (info.fileSize > 0 ==> info.compressSize > 0)
              && (info.fileSize > 4096 ==> info.fileSize <= 200 * info.compressSize)
              && info.content.Some? && |info.content.value| == info.fileSize
  {
    KindExactly(info);
    RatioExactly(info);
    hide Key, Lower, KindLegal, RatioLegal, FIXED_ENTRIES;
    if info.filename in FIXED_ENTRIES {
      FixedAccepted(info.filename);
    }
    if NameAccepted(info.filename) {
      AcceptedKey(info.filename);
    }
  }

  // ----- totals

  function UiCount(info: Info): nat {
    if IsUi(info.filename) then 1 else 0
  }

  function UiSize(info: Info): nat {
    if IsUi(info.filename) then info.fileSize else 0
  }

  function FileSize(info: Info): nat {
    info.fileSize
  }

  predicate TotalsLegal(infos: seq<Info>) {
    && SumOf(infos, UiCount) <= MAX_UI_FILES
    && SumOf(infos, UiSize) <= MAX_UI_BYTES
    && SumOf(infos, FileSize) <= MAX_EXPANDED_BYTES
  }

  ghost predicate DistinctNames(infos: seq<Info>) {
    forall i, j :: 0 <= i < j < |infos| ==> Key(infos[i].filename) != Key(infos[j].filename)
  }

  /** The order-free meaning of the entry loop. */
  ghost predicate Admitted(infos: seq<Info>) {
    && (forall i :: 0 <= i < |infos| ==> InfoLegal(infos[i]))
    && DistinctNames(infos)
    && TotalsLegal(infos)
  }

  /** The entries by name; a later one would replace an earlier one of the same name. */
  function EntriesOf(infos: seq<Info>): Entries
    requires forall i :: 0 <= i < |infos| ==> infos[i].content.Some?
  {
    if infos == [] then map[]
    else
      var last := infos[|infos| - 1];
      EntriesOf(infos[..|infos| - 1])[last.filename := last.content.value]
  }

  // ----- the loop

  lemma {:induction false} EntryNamesOf(infos: seq<Info>)
    requires forall i :: 0 <= i < |infos| ==> infos[i].content.Some?
    ensures forall n :: n in EntriesOf(infos) <==> exists i :: 0 <= i < |infos| && infos[i].filename == n
  {
    if infos != [] {
      var front, last := infos[..|infos| - 1], infos[|infos| - 1];
      EntryNamesOf(front);
      forall n
        ensures n in EntriesOf(infos) <==> exists i :: 0 <= i < |infos| && infos[i].filename == n
      {
        if n in EntriesOf(front) {
          var i :| 0 <= i < |front| && front[i].filename == n;
          assert infos[i].filename == n;
        }
        if i :| 0 <= i < |infos| && infos[i].filename == n && n != last.filename {
          assert front[i].filename == n;
        }
      }
    }
  }

  lemma NextTotals(infos: seq<Info>, k: nat)
    requires k < |infos|
    ensures SumOf(infos[..k + 1], UiCount) == SumOf(infos[..k], UiCount) + UiCount(infos[k])
    ensures SumOf(infos[..k + 1], UiSize) == SumOf(infos[..k], UiSize) + UiSize(infos[k])
    ensures SumOf(infos[..k + 1], FileSize) == SumOf(infos[..k], FileSize) + FileSize(infos[k])
    ensures SumOf(infos[..k + 1], UiCount) <= SumOf(infos, UiCount)
    ensures SumOf(infos[..k + 1], UiSize) <= SumOf(infos, UiSize)
    ensures SumOf(infos[..k + 1], FileSize) <= SumOf(infos, FileSize)
  {
    assert infos[..k + 1][..k] == infos[..k];
    SumOfPrefix(infos, k + 1, UiCount);
    SumOfPrefix(infos, k + 1, UiSize);
    SumOfPrefix(infos, k + 1, FileSize);
  }

  /** The tests of one entry that look at nothing but the entry. */
  method CheckEntry(info: Info) returns (r: Result<string>)
    ensures r.Ok? <==> InfoLegal(info)
    ensures r.Ok? ==> Key(info.filename) == Some(r.value)
  {
    hide Key, KindLegal, RatioLegal, IsUi, Allowed, Lower;
    var key := NormalizeEntry(info.filename);
    if key.Rejected? { return Rejected; }
    if IsUi(info.filename) && key.value != Lower(info.filename) { return Rejected; }
    if !Allowed(info.filename) || !KindLegal(info) { return Rejected; }
    if IsUi(info.filename) && info.fileSize > MAX_UI_FILE_BYTES { return Rejected; }
    if !RatioLegal(info) || info.content.None? || |info.content.value| != info.fileSize { return Rejected; }
    return key;
  }

  function Filenames(infos: seq<Info>): (names: seq<string>)
    ensures |names| == |infos|
    ensures forall i :: 0 <= i < |infos| ==> names[i] == infos[i].filename
  {
    seq(|infos|, i requires 0 <= i < |infos| => infos[i].filename)
  }

  lemma DistinctNamesKeys(infos: seq<Info>)
    ensures DistinctNames(infos) <==> DistinctKeys(Filenames(infos), |infos|)
  {
    hide Key;
    var names := Filenames(infos);
    assert forall i :: 0 <= i < |infos| ==> Key(names[i]) == Key(infos[i].filename);
  }

  /** The name of an earlier entry has an earlier key, so the test for equal names never fires. */
  lemma EqualNamesNeverReached(normalized: set<string>, infos: seq<Info>, k: nat, key: string)
    requires k < |infos| && forall i :: 0 <= i < k ==> infos[i].content.Some?
    requires KeysAre(normalized, Filenames(infos), k) && Key(infos[k].filename) == Some(key) && key !in normalized
    ensures infos[k].filename !in EntriesOf(infos[..k])
  {
    hide Key;
    EntryNamesOf(infos[..k]);
  }

  /** The entry loop: running counts and totals, rejected as soon as one of them passes its limit. */
  method ReadEntries(infos: seq<Info>) returns (r: Result<Entries>)
    ensures r.Ok? <==> Admitted(infos)
    ensures r.Ok? ==> r.value == EntriesOf(infos)
  {
    NothingRead(infos);
    DistinctNamesKeys(infos);
    hide Key, InfoLegal, IsUi, SumOf, KeysAre, DistinctKeys, DistinctNames, EntriesOf;
    ghost var names := Filenames(infos);
    var entries: Entries := map[];
    var normalized: set<string> := {};
    var expanded, uiFiles, uiBytes := 0, 0, 0;
    for k := 0 to |infos|
      invariant forall i :: 0 <= i < k ==> InfoLegal(infos[i]) && infos[i].content.Some?
      invariant DistinctKeys(names, k) && KeysAre(normalized, names, k)
      invariant entries == EntriesOf(infos[..k])
      invariant expanded == SumOf(infos[..k], FileSize) && uiFiles == SumOf(infos[..k], UiCount)
      invariant uiBytes == SumOf(infos[..k], UiSize) && TotalsLegal(infos[..k])
    {
      NextTotals(infos, k);
      var info := infos[k];
      var key := CheckEntry(info);
      if key.Rejected? { return Rejected; }
      NextKey(normalized, names, k, key.value);
      if key.value in normalized { return Rejected; }
      EqualNamesNeverReached(normalized, infos, k, key.value);
      if info.filename in entries {
        assert false;
      }
      normalized := normalized + {key.value};
      if IsUi(info.filename) {
        uiFiles := uiFiles + 1;
        uiBytes := uiBytes + info.fileSize;
        if uiFiles > MAX_UI_FILES || uiBytes > MAX_UI_BYTES { return Rejected; }
      }
      if info.fileSize > MAX_EXPANDED_BYTES - expanded { return Rejected; }
      LegalContent(info);
      NextEntry(infos, k);
      entries := entries[info.filename := info.content.value];
      expanded := expanded + |info.content.value|;
    }
    assert infos[..|infos|] == infos;
    return Ok(entries);
  }

  lemma LegalContent(info: Info)
    requires InfoLegal(info)
    ensures info.content.Some? && |info.content.value| == info.fileSize
  {
  }

  lemma NextEntry(infos: seq<Info>, k: nat)
    requires k < |infos| && forall i :: 0 <= i <= k ==> infos[i].content.Some?
    ensures EntriesOf(infos[..k + 1]) == EntriesOf(infos[..k])[infos[k].filename := infos[k].content.value]
  {
    assert infos[..k + 1][..k] == infos[..k];
  }

  lemma NothingRead(infos: seq<Info>)
    ensures EntriesOf(infos[..0]) == map[] && DistinctKeys(Filenames(infos), 0) && KeysAre({}, Filenames(infos), 0)
    ensures SumOf(infos[..0], UiCount) == SumOf(infos[..0], UiSize) == SumOf(infos[..0], FileSize) == 0
  {
  }
}
