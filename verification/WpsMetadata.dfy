/** The `.wups.meta` records: NUL-terminated `key=value` strings. */
module WpsMetadata {
  import opened Bytes
  import opened Utf8
  import opened CStrings

  const RECORD_LIMIT: nat := 4096

  predicate IdentifierChar(c: char) {
    'A' <= c <= 'Z' || 'a' <= c <= 'z' || '0' <= c <= '9' || c == '_' || c == '.' || c == '-'
  }

  predicate Identifier(t: string, maximum: nat) {
    0 < |t| <= maximum && forall i :: 0 <= i < |t| ==> IdentifierChar(t[i])
  }

  predicate SafeText(t: string, maximum: nat) {
    && 0 < |t| <= maximum
    && forall i :: 0 <= i < |t| ==> t[i] >= ' ' || t[i] == '\t' || t[i] == '\n' || t[i] == '\r'
  }

  /** `raw.split("=", 1)`, or None when there is no `=`. */
  function SplitRecord(raw: string): (r: Option<(string, string)>)
    ensures r.Some? ==> raw == r.value.0 + "=" + r.value.1
    ensures r.None? <==> '=' !in raw
  {
    if raw == [] then None
    else if raw[0] == '=' then Some(("", raw[1..]))
    else
      match SplitRecord(raw[1..])
      case None => None
      case Some(kv) => Some(([raw[0]] + kv.0, kv.1))
  }

  /** The metadata after one string is read; None when its key is illegal or already there. */
  function AddRecord(raw: string, metadata: map<string, string>): (r: Option<map<string, string>>) {
    match SplitRecord(raw)
    case None => Some(metadata)
    case Some(kv) =>
      if !Identifier(kv.0, 64) || |kv.1| > 4096 || kv.0 in metadata then None
      else Some(metadata[kv.0 := kv.1])
  }

  /** The loop from `offset` on; it advances by the number of characters it decoded, not of bytes. */
  function ReadRecords(data: bytes, offset: nat, metadata: map<string, string>): Option<map<string, string>>
    decreases |data| - offset
  {
    if offset >= |data| then Some(metadata)
    else
      match CString(data, offset, RECORD_LIMIT)
      case None => None
      case Some(raw) =>
        match AddRecord(raw, metadata)
        case None => None
        case Some(next) => ReadRecords(data, offset + |raw| + 1, next)
  }

  method ParseRecords(data: bytes) returns (r: Result<map<string, string>>)
    ensures r.Ok? <==> ReadRecords(data, 0, map[]).Some?
    ensures r.Ok? ==> Some(r.value) == ReadRecords(data, 0, map[])
  {
    hide CString;
    var metadata: map<string, string> := map[];
    var offset := 0;
    while offset < |data|
      invariant ReadRecords(data, 0, map[]) == ReadRecords(data, offset, metadata)
      decreases |data| - offset
    {
      var raw := CString(data, offset, RECORD_LIMIT);
      if raw.None? { return Rejected; }
      offset := offset + |raw.value| + 1;
      var record := SplitRecord(raw.value);
      if record.None? { continue; }
      var (key, value) := record.value;
      if !Identifier(key, 64) || |value| > 4096 || key in metadata { return Rejected; }
      metadata := metadata[key := value];
    }
    return Ok(metadata);
  }

  // ----- printing

  type Record = (string, string)

  function RecordText(record: Record): string {
    record.0 + "=" + record.1
  }

  function PrintRecords(records: seq<Record>): bytes {
    if records == [] then [] else Encode(RecordText(records[0])) + [0] + PrintRecords(records[1..])
  }

  predicate Printable(record: Record) {
    Identifier(record.0, 64) && '\0' !in record.1 && |Encode(RecordText(record))| <= RECORD_LIMIT
  }

  ghost predicate DistinctKeys(records: seq<Record>) {
    forall i, j :: 0 <= i < j < |records| ==> records[i].0 != records[j].0
  }

  function MapOf(records: seq<Record>): map<string, string> {
    if records == [] then map[] else MapOf(records[1..])[records[0].0 := records[0].1]
  }

  /**
   Re-reading inside one record's bytes: the loop may land before the record's terminator and read the rest
   of the record as further strings.
   */
  function ReadCrumbs(s: bytes, metadata: map<string, string>): Option<map<string, string>>
    decreases |s|
  {
    match Decode(s)
    case None => None
    case Some(t) =>
      match AddRecord(t, metadata)
      case None => None
      case Some(next) => if |t| >= |s| then Some(next) else ReadCrumbs(s[|t| + 1..], next)
  }

  /** Bytes whose re-reading neither fails nor finds another `=`. */
  predicate Quiet(s: bytes)
    decreases |s|
  {
    match Decode(s)
    case None => false
    case Some(t) => '=' !in t && (|t| >= |s| || Quiet(s[|t| + 1..]))
  }

  /** What is left between where the loop lands and the terminator of `raw`. */
  function Leftover(raw: string): bytes {
    AsciiLength(raw);
    if |raw| >= |Encode(raw)| then [] else Encode(raw)[|raw| + 1..]
  }

  // ----- one step

  /** The loop after it has read `raw` and moved to `offset`. */
  function AfterRecord(data: bytes, offset: nat, raw: string, metadata: map<string, string>)
    : Option<map<string, string>>
  {
    match AddRecord(raw, metadata)
    case None => None
    case Some(next) => ReadRecords(data, offset, next)
  }

  lemma ReadsOne(data: bytes, offset: nat, metadata: map<string, string>)
    requires offset < |data|
    ensures var raw := CString(data, offset, RECORD_LIMIT);
            ReadRecords(data, offset, metadata) ==
              if raw.None? then None else AfterRecord(data, offset + |raw.value| + 1, raw.value, metadata)
  {
    hide CString, AddRecord;
  }

  /**
   From a record that stands at `offset` the loop goes on after its terminator when the record is ASCII, and
   otherwise at an offset that is still inside the record.
   */
  lemma StepsByRecord(data: bytes, offset: nat, raw: string, metadata: map<string, string>)
    requires StandsAt(data, offset, raw) && '\0' !in raw && |Encode(raw)| <= RECORD_LIMIT
    ensures IsAscii(raw) ==>
              ReadRecords(data, offset, metadata) == AfterRecord(data, offset + |Encode(raw)| + 1, raw, metadata)
    ensures !IsAscii(raw) ==>
              && offset < offset + |raw| + 1 <= offset + |Encode(raw)|
              && ReadRecords(data, offset, metadata) == AfterRecord(data, offset + |raw| + 1, raw, metadata)
  {
    CStringReads(data, offset, RECORD_LIMIT, raw);
    AsciiLength(raw);
    hide Encode, CString, ReadRecords, AfterRecord, IsAscii;
    ReadsOne(data, offset, metadata);
  }

  lemma ZeroInside(pre: bytes, s: bytes, post: bytes, limit: nat)
    requires 0 !in s && |pre| + |s| < limit <= |pre| + |s| + 1 + |post|
    ensures FindZero(pre + s + [0] + post, |pre|, limit) == Some(|pre| + |s|)
  {
    hide FindZero;
    var data := pre + s + [0] + post;
    forall k | |pre| <= k < |pre| + |s|
      ensures data[k] != 0
    {
      assert data[k] == s[k - |pre|] && s[k - |pre|] in s;
    }
    assert data[|pre| + |s|] == 0;
    var end := FindZero(data, |pre|, limit);
  }

  lemma MiddleSlice(pre: bytes, s: bytes, post: bytes)
    ensures (pre + s + [0] + post)[|pre|..|pre| + |s|] == s
  {
    var slice := (pre + s + [0] + post)[|pre|..|pre| + |s|];
    assert forall k :: 0 <= k < |s| ==> slice[k] == (pre + s + [0] + post)[|pre| + k] == s[k];
  }

  lemma CStringFound(data: bytes, offset: nat, limit: nat, end: nat)
    requires offset < |data|
    requires limit == if |data| < offset + RECORD_LIMIT + 1 then |data| else offset + RECORD_LIMIT + 1
    requires FindZero(data, offset, limit) == Some(end) && offset <= end <= offset + RECORD_LIMIT && end <= |data|
    ensures CString(data, offset, RECORD_LIMIT) == Decode(data[offset..end])
  {
    hide Decode, FindZero;
  }

  lemma CStringInside(pre: bytes, s: bytes, post: bytes)
    requires 0 !in s && |s| <= RECORD_LIMIT
    ensures CString(pre + s + [0] + post, |pre|, RECORD_LIMIT) == Decode(s)
  {
    hide Decode, FindZero, CString;
    var data := pre + s + [0] + post;
    var limit := if |data| < |pre| + RECORD_LIMIT + 1 then |data| else |pre| + RECORD_LIMIT + 1;
    ZeroInside(pre, s, post, limit);
    MiddleSlice(pre, s, post);
    CStringFound(data, |pre|, limit, |pre| + |s|);
  }

  lemma ReadsOneCrumb(s: bytes, metadata: map<string, string>)
    ensures Decode(s).None? ==> ReadCrumbs(s, metadata) == None
    ensures Decode(s).Some? ==>
              var t := Decode(s).value;
              ReadCrumbs(s, metadata) ==
                match AddRecord(t, metadata)
                case None => None
                case Some(next) => if |t| >= |s| then Some(next) else ReadCrumbs(s[|t| + 1..], next)
  {
    hide Decode, AddRecord;
  }

  /** What was decoded takes as many bytes as its encoding. */
  lemma DecodedLength(s: bytes)
    requires Decode(s).Some?
    ensures |Decode(s).value| <= |s|
  {
    EncodeDecode(s);
    AsciiLength(Decode(s).value);
    hide Decode, Encode;
  }

  lemma SplitInside(pre: bytes, s: bytes, post: bytes, n: nat)
    requires n <= |s|
    ensures (pre + s[..n]) + s[n..] + [0] + post == pre + s + [0] + post
  {
    assert s == s[..n] + s[n..];
  }

  /** The loop, started inside a record, re-reads its crumbs and then goes on after its terminator. */
  lemma {:induction false} CrumbsThenRest(pre: bytes, s: bytes, post: bytes, metadata: map<string, string>)
    requires 0 !in s && |s| <= RECORD_LIMIT
    ensures ReadRecords(pre + s + [0] + post, |pre|, metadata) ==
              match ReadCrumbs(s, metadata)
              case None => None
              case Some(next) => ReadRecords(pre + s + [0] + post, |pre| + |s| + 1, next)
    decreases |s|
  {
    hide CString, AddRecord, Encode, Decode, ReadRecords, ReadCrumbs;
    var data := pre + s + [0] + post;
    CStringInside(pre, s, post);
    ReadsOne(data, |pre|, metadata);
    ReadsOneCrumb(s, metadata);
    if Decode(s).Some? {
      var t := Decode(s).value;
      DecodedLength(s);
      if AddRecord(t, metadata).Some? && |t| < |s| {
        SplitInside(pre, s, post, |t| + 1);
        CrumbsThenRest(pre + s[..|t| + 1], s[|t| + 1..], post, AddRecord(t, metadata).value);
      }
    }
  }

  // ----- whole prints

  /** The fold of the loop over printed records, one record at a time. */
  function ReadEach(records: seq<Record>, metadata: map<string, string>): Option<map<string, string>> {
    if records == [] then Some(metadata)
    else
      match ReadCrumbs(Encode(RecordText(records[0])), metadata)
      case None => None
      case Some(next) => ReadEach(records[1..], next)
  }

  lemma PrintableBytes(record: Record)
    requires Printable(record)
    ensures 0 !in Encode(RecordText(record))
  {
    ZeroFree(RecordText(record));
  }

  lemma {:induction false} PrintedReadsEach(pre: bytes, records: seq<Record>, metadata: map<string, string>)
    requires forall i :: 0 <= i < |records| ==> Printable(records[i])
    ensures ReadRecords(pre + PrintRecords(records), |pre|, metadata) == ReadEach(records, metadata)
    decreases |records|
  {
    hide ReadCrumbs, Encode, Printable, CString, AddRecord, RecordText;
    if records == [] {
      assert pre + PrintRecords(records) == pre;
    } else {
      var s := Encode(RecordText(records[0]));
      var post := PrintRecords(records[1..]);
      var data := pre + s + [0] + post;
      assert pre + PrintRecords(records) == data;
      PrintableSize(records[0]);
      CrumbsThenRest(pre, s, post, metadata);
      if ReadCrumbs(s, metadata).Some? {
        var pre' := pre + s + [0];
        assert pre' + post == data;
        PrintedReadsEach(pre', records[1..], ReadCrumbs(s, metadata).value);
      }
    }
  }

  lemma PrintableSize(record: Record)
    requires Printable(record)
    ensures 0 !in Encode(RecordText(record)) && |Encode(RecordText(record))| <= RECORD_LIMIT
  {
    PrintableBytes(record);
  }

  lemma {:induction false} SplitPrinted(key: string, value: string)
    requires '=' !in key
    ensures SplitRecord(key + "=" + value) == Some((key, value))
  {
    var raw := key + "=" + value;
    if key == [] {
      assert raw[0] == '=' && raw[1..] == value;
    } else {
      SplitPrinted(key[1..], value);
      assert raw[0] == key[0] && raw[0] != '=' && raw[1..] == key[1..] + "=" + value;
      SplitRest(raw);
      hide SplitRecord;
      assert [key[0]] + key[1..] == key;
    }
  }

  lemma SplitRest(raw: string)
    requires raw != [] && raw[0] != '=' && SplitRecord(raw[1..]).Some?
    ensures SplitRecord(raw) == Some(([raw[0]] + SplitRecord(raw[1..]).value.0, SplitRecord(raw[1..]).value.1))
  {
  }

  /** A string with an `=` adds a key, and any other string changes nothing. */
  lemma AddGrows(t: string, metadata: map<string, string>)
    ensures '=' !in t ==> AddRecord(t, metadata) == Some(metadata)
    ensures AddRecord(t, metadata).Some? && '=' in t ==> metadata.Keys < AddRecord(t, metadata).value.Keys
  {
    hide Identifier;
    var kv := SplitRecord(t);
    if AddRecord(t, metadata).Some? && kv.Some? {
      assert kv.value.0 in AddRecord(t, metadata).value;
    }
  }

  /** Reading crumbs only ever adds keys. */
  lemma {:induction false} CrumbsGrow(s: bytes, metadata: map<string, string>)
    ensures ReadCrumbs(s, metadata).Some? ==>
              && metadata.Keys <= ReadCrumbs(s, metadata).value.Keys
              && (ReadCrumbs(s, metadata).value.Keys == metadata.Keys <==> Quiet(s))
    ensures Quiet(s) ==> ReadCrumbs(s, metadata) == Some(metadata)
    decreases |s|
  {
    hide AddRecord;
    if Decode(s).Some? {
      var t := Decode(s).value;
      hide Decode;
      AddGrows(t, metadata);
      if AddRecord(t, metadata).Some? && |t| < |s| {
        CrumbsGrow(s[|t| + 1..], AddRecord(t, metadata).value);
      }
    }
  }

  /** A printed record is read as itself, and then its leftover is read. */
  lemma RecordThenLeftover(record: Record, metadata: map<string, string>)
    requires Printable(record)
    ensures ReadCrumbs(Encode(RecordText(record)), metadata) ==
              if record.0 in metadata then None
              else ReadCrumbs(Leftover(RecordText(record)), metadata[record.0 := record.1])
  {
    hide Encode, Printable, SplitRecord, RecordText, Identifier, Quiet, AddRecord, ReadCrumbs, Decode;
    var raw := RecordText(record);
    ValueFits(record);
    AddsItself(record, metadata);
    DecodeEncode(raw);
    AsciiLength(raw);
    CrumbsUnfold(Encode(raw), raw, metadata);
  }

  lemma AddsItself(record: Record, metadata: map<string, string>)
    requires SplitRecord(RecordText(record)) == Some(record)
    requires Identifier(record.0, 64) && |record.1| <= 4096
    ensures AddRecord(RecordText(record), metadata) ==
              if record.0 in metadata then None else Some(metadata[record.0 := record.1])
  {
  }

  lemma CrumbsUnfold(s: bytes, t: string, metadata: map<string, string>)
    requires Decode(s) == Some(t) && |t| <= |s|
    ensures ReadCrumbs(s, metadata) ==
              match AddRecord(t, metadata)
              case None => None
              case Some(next) => ReadCrumbs(if |t| >= |s| then [] else s[|t| + 1..], next)
  {
    hide AddRecord;
    if AddRecord(t, metadata).Some? {
      EmptyCrumbs(AddRecord(t, metadata).value);
    }
  }

  lemma ValueFits(record: Record)
    requires Printable(record)
    ensures Identifier(record.0, 64) && |record.1| <= 4096
    ensures SplitRecord(RecordText(record)) == Some(record)
  {
    AsciiLength(RecordText(record));
    SplitPrinted(record.0, record.1);
    assert RecordText(record) == record.0 + "=" + record.1;
  }

  lemma EmptyCrumbs(metadata: map<string, string>)
    ensures ReadCrumbs([], metadata) == Some(metadata) && Quiet([])
  {
  }

  ghost predicate AllQuiet(records: seq<Record>) {
    forall i :: 0 <= i < |records| ==> Quiet(Leftover(RecordText(records[i])))
  }

  lemma AllQuietRest(records: seq<Record>)
    requires records != []
    ensures AllQuiet(records) <==> Quiet(Leftover(RecordText(records[0]))) && AllQuiet(records[1..])
  {
    hide Quiet, Leftover, RecordText;
    var rest := records[1..];
    assert forall i :: 0 <= i < |rest| ==> rest[i] == records[i + 1];
    assert forall i :: 0 < i < |records| ==> records[i] == rest[i - 1];
  }

  lemma ReadEachNext(records: seq<Record>, metadata: map<string, string>)
    requires records != [] && Printable(records[0]) && records[0].0 !in metadata
    ensures var left, next := Leftover(RecordText(records[0])), metadata[records[0].0 := records[0].1];
            ReadEach(records, metadata) ==
              match ReadCrumbs(left, next)
              case None => None
              case Some(after) => ReadEach(records[1..], after)
  {
    hide ReadCrumbs, Encode, Printable, Leftover, RecordText;
    RecordThenLeftover(records[0], metadata);
  }

  lemma DistinctRest(records: seq<Record>)
    requires records != [] && DistinctKeys(records)
    ensures DistinctKeys(records[1..]) && forall i :: 0 <= i < |records[1..]| ==> records[1..][i].0 != records[0].0
  {
    assert forall i :: 0 <= i < |records[1..]| ==> records[1..][i] == records[i + 1];
  }

  lemma AddedFirst(metadata: map<string, string>, rest: map<string, string>, key: string, value: string)
    requires key !in rest
    ensures metadata[key := value] + rest == metadata + rest[key := value]
  {
  }

  lemma MapOfNext(records: seq<Record>, metadata: map<string, string>)
    requires records != [] && DistinctKeys(records)
    ensures MapOf(records) == MapOf(records[1..])[records[0].0 := records[0].1]
    ensures metadata[records[0].0 := records[0].1] + MapOf(records[1..]) == metadata + MapOf(records)
  {
    DistinctRest(records);
    MapOfKeys(records[1..]);
    hide DistinctKeys;
    AddedFirst(metadata, MapOf(records[1..]), records[0].0, records[0].1);
  }

  lemma {:induction false} ReadEachResult(records: seq<Record>, metadata: map<string, string>)
    requires forall i :: 0 <= i < |records| ==> Printable(records[i])
    requires DistinctKeys(records) && forall i :: 0 <= i < |records| ==> records[i].0 !in metadata
    ensures AllQuiet(records) ==> ReadEach(records, metadata) == Some(metadata + MapOf(records))
    ensures !AllQuiet(records) && ReadEach(records, metadata).Some? ==>
              exists k :: k in ReadEach(records, metadata).value && k !in metadata && k !in MapOf(records)
    decreases |records|
  {
    if records == [] {
      assert metadata + MapOf(records) == metadata;
    } else {
      hide *;
      var next := metadata[records[0].0 := records[0].1];
      var rest, left := records[1..], Leftover(RecordText(records[0]));
      ReadEachNext(records, metadata);
      AllQuietRest(records);
      DistinctRest(records);
      MapOfNext(records, metadata);
      CrumbsGrow(left, next);
      if ReadCrumbs(left, next).Some? {
        var after := ReadCrumbs(left, next).value;
        KeepsKeys(rest, after);
        if Quiet(left) {
          ReadEachResult(rest, next);
        } else if ReadEach(records, metadata).Some? {
          var k :| k in after && k !in next;
          MapOfKeys(rest);
          assert k in ReadEach(rest, after).value && k !in metadata && k !in MapOf(records);
        }
      }
    }
  }

  lemma {:induction false} MapOfKeys(records: seq<Record>)
    ensures forall k :: k in MapOf(records) <==> exists i :: 0 <= i < |records| && records[i].0 == k
  {
    if records != [] {
      MapOfKeys(records[1..]);
      assert records == [records[0]] + records[1..];
    }
  }

  /** A successful reading keeps what was there, and met none of the printed keys before. */
  lemma {:induction false} KeepsKeys(records: seq<Record>, metadata: map<string, string>)
    requires forall i :: 0 <= i < |records| ==> Printable(records[i])
    ensures ReadEach(records, metadata).Some? ==>
              && metadata.Keys <= ReadEach(records, metadata).value.Keys
              && forall i :: 0 <= i < |records| ==> records[i].0 !in metadata
    decreases |records|
  {
    hide ReadCrumbs, Encode, Printable, Quiet, Leftover, RecordText;
    if records != [] && ReadEach(records, metadata).Some? {
      var next := metadata[records[0].0 := records[0].1];
      var left := Leftover(RecordText(records[0]));
      RecordThenLeftover(records[0], metadata);
      CrumbsGrow(left, next);
      KeepsKeys(records[1..], ReadCrumbs(left, next).value);
      assert records == [records[0]] + records[1..];
    }
  }

  /** Printing then reading gives the map back exactly when no record leaves a second record behind. */
  lemma RoundTrip(records: seq<Record>)
    requires forall i :: 0 <= i < |records| ==> Printable(records[i])
    requires DistinctKeys(records)
    ensures ReadRecords(PrintRecords(records), 0, map[]) == Some(MapOf(records)) <==> AllQuiet(records)
  {
    hide Printable, ReadRecords, ReadEach, PrintRecords, MapOf, AllQuiet, DistinctKeys;
    assert [] + PrintRecords(records) == PrintRecords(records);
    PrintedReadsEach([], records, map[]);
    NothingBefore(MapOf(records));
    ReadEachResult(records, map[]);
  }

  lemma NothingBefore(m: map<string, string>)
    ensures map[] + m == m
  {
  }

  /** ASCII records always survive. */
  lemma AsciiRoundTrip(records: seq<Record>)
    requires forall i :: 0 <= i < |records| ==> Printable(records[i]) && IsAscii(records[i].1)
    requires DistinctKeys(records)
    ensures ReadRecords(PrintRecords(records), 0, map[]) == Some(MapOf(records))
  {
    forall i | 0 <= i < |records|
      ensures Quiet(Leftover(RecordText(records[i])))
    {
      AsciiRecord(records[i]);
    }
    RoundTrip(records);
  }

  lemma AsciiRecord(record: Record)
    requires Printable(record) && IsAscii(record.1)
    ensures Leftover(RecordText(record)) == [] && Quiet([])
  {
    var raw := RecordText(record);
    forall i | 0 <= i < |raw|
      ensures raw[i] as int < 0x80
    {
      if i < |record.0| {
        assert IdentifierChar(record.0[i]);
      }
    }
    AsciiLength(raw);
  }

  lemma {:induction false} RecordsTerminated(records: seq<Record>)
    requires records != []
    ensures PrintRecords(records) != [] && PrintRecords(records)[|PrintRecords(records)| - 1] == 0
  {
    hide RecordText, Encode;
    if |records| > 1 {
      RecordsTerminated(records[1..]);
    } else {
      assert PrintRecords(records[1..]) == [];
    }
  }

  lemma {:induction false} MapHolds(records: seq<Record>, key: string)
    requires DistinctKeys(records)
    ensures key in MapOf(records) <==> exists i :: 0 <= i < |records| && records[i].0 == key
    ensures forall i :: 0 <= i < |records| && records[i].0 == key ==> MapOf(records)[key] == records[i].1
  {
    if records != [] {
      var rest := records[1..];
      assert forall i :: 1 <= i < |records| ==> records[i] == rest[i - 1];
      MapHolds(rest, key);
      if key in MapOf(rest) {
        var i :| 0 <= i < |rest| && rest[i].0 == key;
        assert records[i + 1].0 == key;
      }
    }
  }

  /** A value of two accented letters is legal text that the loop refuses to read back. */
  lemma AccentedValueIsLost()
    ensures var records := [("name", ['\U{E9}', '\U{E9}'])];
            && Printable(records[0]) && DistinctKeys(records)
            && ReadRecords(PrintRecords(records), 0, map[]) != Some(MapOf(records))
  {
    var record := ("name", ['\U{E9}', '\U{E9}']);
    var raw := RecordText(record);
    assert raw == ['n', 'a', 'm', 'e', '=', '\U{E9}', '\U{E9}'];
    assert raw == "name=" + ['\U{E9}', '\U{E9}'];
    EncodeAppend("name=", ['\U{E9}', '\U{E9}']);
    assert Encode("name=") == [0x6E, 0x61, 0x6D, 0x65, 0x3D];
    assert Encode(['\U{E9}', '\U{E9}']) == [0xC3, 0xA9, 0xC3, 0xA9];
    assert Encode(raw) == [0x6E, 0x61, 0x6D, 0x65, 0x3D, 0xC3, 0xA9, 0xC3, 0xA9];
    assert Leftover(raw) == [0xA9];
    assert DecodeChar([0xA9]).None?;
    assert !Quiet([0xA9]);
    RoundTrip([record]);
  }
}
