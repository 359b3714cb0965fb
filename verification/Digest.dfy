/** The canonical package digest and what it binds. */
module Digest {
  import opened Bytes
  import opened Utf8
  import opened EntryNames

  /** A hash with 32-byte results, such as SHA-256; nothing else is known of it. */
  type Hash = h: bytes -> bytes | forall x :: |h(x)| == 32 witness (x: bytes) => seq(32, i => 0)

  type Entries = map<string, bytes>

  // ----- sorted names

  ghost predicate Ascending(names: seq<string>) {
    forall i, j :: 0 <= i < j < |names| ==> TextLess(names[i], names[j])
  }

  ghost predicate Lists(names: seq<string>, keys: set<string>) {
    Ascending(names) && forall k :: k in names <==> k in keys
  }

  lemma {:induction false} TextLessIrreflexive(a: string)
    ensures !TextLess(a, a)
  {
    if a != [] {
      TextLessIrreflexive(a[1..]);
    }
  }

  /** A set has one ascending listing. */
  lemma {:induction false} ListingUnique(a: seq<string>, b: seq<string>, keys: set<string>)
    requires Lists(a, keys) && Lists(b, keys)
    ensures a == b
    decreases |a|
  {
    if a == [] {
      if b != [] {
        LeastIsFirst(b, a, keys);
      }
    } else {
      assert a[0] in keys;
      LeastIsFirst(a, b, keys);
      LeastIsFirst(b, a, keys);
      TextLessIrreflexive(a[0]);
      if a[0] != b[0] {
        TextLessTransitive(a[0], b[0], a[0]);
      }
      TailLists(a, keys);
      TailLists(b, keys);
      ListingUnique(a[1..], b[1..], keys - {a[0]});
      assert a == [a[0]] + a[1..] && b == [b[0]] + b[1..];
    }
  }

  lemma LeastIsFirst(a: seq<string>, b: seq<string>, keys: set<string>)
    requires Lists(a, keys) && Lists(b, keys) && a != []
    ensures b != [] && (b[0] == a[0] || TextLess(b[0], a[0]))
  {
    hide TextLess;
    assert a[0] in b;
    var i :| 0 <= i < |b| && b[i] == a[0];
  }

  lemma TailLists(a: seq<string>, keys: set<string>)
    requires Lists(a, keys) && a != []
    ensures Lists(a[1..], keys - {a[0]})
  {
    forall i | 1 <= i < |a|
      ensures a[i] != a[0]
    {
      TextLessIrreflexive(a[0]);
    }
    hide TextLess;
    forall k
      ensures k in a[1..] <==> k in keys - {a[0]}
    {
      assert a == [a[0]] + a[1..];
      if k in a[1..] {
        var i :| 1 <= i < |a| && a[i] == k;
      }
    }
  }

  /** `sorted(keys)`: code-point order. */
  method Sorted(keys: set<string>) returns (names: seq<string>)
    ensures Lists(names, keys)
  {
    names := [];
    var rest := keys;
    while rest != {}
      invariant rest <= keys && Lists(names, keys - rest)
      decreases |rest|
    {
      var key :| key in rest;
      names := Insert(names, key, keys - rest);
      rest := rest - {key};
      assert keys - rest == (keys - (rest + {key})) + {key};
    }
    assert keys - {} == keys;
  }

  method Insert(names: seq<string>, key: string, ghost keys: set<string>) returns (all: seq<string>)
    requires Lists(names, keys) && key !in keys
    ensures Lists(all, keys + {key})
  {
    hide TextLess;
    var i := 0;
    while i < |names| && TextLess(names[i], key)
      invariant 0 <= i <= |names|
      invariant forall j :: 0 <= j < i ==> TextLess(names[j], key)
    {
      i := i + 1;
    }
    all := names[..i] + [key] + names[i..];
    InsertKeepsOrder(names, key, i);
    assert names == names[..i] + names[i..];
  }

  lemma InsertKeepsOrder(names: seq<string>, key: string, i: nat)
    requires Ascending(names) && key !in names && i <= |names|
    requires forall j :: 0 <= j < i ==> TextLess(names[j], key)
    requires i < |names| ==> !TextLess(names[i], key)
    ensures Ascending(names[..i] + [key] + names[i..])
  {
    var all := names[..i] + [key] + names[i..];
    if i < |names| {
      TextLessTotal(names[i], key);
    }
    hide TextLess;
    forall j | i <= j < |names|
      ensures TextLess(key, names[j])
    {
      if j > i {
        TextLessTransitive(key, names[i], names[j]);
      }
    }
    assert forall j :: 0 <= j < |all| ==>
      all[j] == if j < i then names[j] else if j == i then key else names[j - 1];
  }

  /** Sorting by code point, as the code does, is sorting by UTF-8 bytes, as the format promises. */
  lemma SortedByBytes(names: seq<string>)
    ensures Ascending(names) <==>
              forall i, j :: 0 <= i < j < |names| ==> BytesLess(Encode(names[i]), Encode(names[j]))
  {
    forall i, j | 0 <= i < j < |names|
      ensures TextLess(names[i], names[j]) <==> BytesLess(Encode(names[i]), Encode(names[j]))
    {
      CodePointOrderIsByteOrder(names[i], names[j]);
    }
  }

  // ----- the committed stream

  predicate Committable(name: string, data: bytes) {
    |Encode(name)| < TWO_32 && |data| < TWO_64
  }

  ghost predicate AllCommittable(entries: Entries) {
    forall name :: name in entries && name != SIGNATURE_ENTRY ==> Committable(name, entries[name])
  }

  function Record(name: string, data: bytes, sha: Hash): (r: bytes)
    requires Committable(name, data)
    ensures |r| == 44 + |Encode(name)|
  {
    EncodeU32(|Encode(name)|) + Encode(name) + EncodeU64(|data|) + sha(data)
  }

  function Unsigned(names: seq<string>): (u: seq<string>)
    ensures forall n :: n in u <==> n in names && n != SIGNATURE_ENTRY
  {
    if names == [] then []
    else
      var last := names[|names| - 1];
      assert names == names[..|names| - 1] + [last];
      Unsigned(names[..|names| - 1]) + if last == SIGNATURE_ENTRY then [] else [last]
  }

  function Stream(names: seq<string>, entries: Entries, sha: Hash): bytes
    requires forall n :: n in names ==> n in entries && Committable(n, entries[n])
  {
    if names == [] then [] else Record(names[0], entries[names[0]], sha) + Stream(names[1..], entries, sha)
  }

  lemma {:induction false} StreamAppend(names: seq<string>, last: string, entries: Entries, sha: Hash)
    requires forall n :: n in names + [last] ==> n in entries && Committable(n, entries[n])
    ensures Stream(names + [last], entries, sha) == Stream(names, entries, sha) + Record(last, entries[last], sha)
  {
    hide Committable, Record;
    var all := names + [last];
    assert last in all;
    if names == [] {
      assert all[1..] == [];
      assert Stream(all, entries, sha) == Record(last, entries[last], sha) + [];
    } else {
      assert names[0] in all;
      assert all[1..] == names[1..] + [last];
      StreamAppend(names[1..], last, entries, sha);
      Regroup(Record(names[0], entries[names[0]], sha), Stream(names[1..], entries, sha),
              Record(last, entries[last], sha));
    }
  }

  lemma Regroup(a: bytes, b: bytes, c: bytes)
    ensures a + b + c == a + (b + c)
  {
  }

  lemma {:induction false} InsertionExists(keys: set<string>) returns (names: seq<string>)
    ensures Lists(names, keys)
    decreases |keys|
  {
    if keys == {} {
      names := [];
    } else {
      var key :| key in keys;
      var fewer := InsertionExists(keys - {key});
      var i := 0;
      while i < |fewer| && TextLess(fewer[i], key)
        invariant 0 <= i <= |fewer|
        invariant forall j :: 0 <= j < i ==> TextLess(fewer[j], key)
      {
        i := i + 1;
      }
      names := fewer[..i] + [key] + fewer[i..];
      InsertKeepsOrder(fewer, key, i);
      hide TextLess;
      assert fewer == fewer[..i] + fewer[i..];
      assert keys == (keys - {key}) + {key};
    }
  }

  /** The one ascending listing of a set of names. */
  ghost function Listing(keys: set<string>): (names: seq<string>)
    ensures Lists(names, keys)
  {
    assert exists names :: Lists(names, keys) by { var names := InsertionExists(keys); }
    var names :| Lists(names, keys);
    names
  }

  lemma UnsignedNext(names: seq<string>, i: nat)
    requires i < |names|
    ensures Unsigned(names[..i + 1]) ==
              if names[i] == SIGNATURE_ENTRY then Unsigned(names[..i]) else Unsigned(names[..i]) + [names[i]]
  {
    assert names[..i + 1][..i] == names[..i];
    assert Unsigned(names[..i]) + [] == Unsigned(names[..i]);
  }

  ghost function CanonicalStream(entries: Entries, sha: Hash): bytes
    requires AllCommittable(entries)
  {
    Stream(Listing(entries.Keys - {SIGNATURE_ENTRY}), entries, sha)
  }

  ghost function CanonicalDigest(entries: Entries, sha: Hash): bytes
    requires AllCommittable(entries)
  {
    sha(CanonicalStream(entries, sha))
  }

  lemma {:induction false} UnsignedKeepsOrder(names: seq<string>)
    requires Ascending(names)
    ensures Ascending(Unsigned(names))
  {
    hide TextLess;
    if names != [] {
      var front, last := names[..|names| - 1], names[|names| - 1];
      UnsignedKeepsOrder(front);
      forall n | n in Unsigned(front)
        ensures TextLess(n, last)
      {
        var i :| 0 <= i < |front| && front[i] == n;
        assert names[i] == n;
      }
    }
  }

  lemma UnsignedListing(names: seq<string>, keys: set<string>)
    requires Lists(names, keys)
    ensures Unsigned(names) == Listing(keys - {SIGNATURE_ENTRY})
  {
    UnsignedKeepsOrder(names);
    ListingUnique(Unsigned(names), Listing(keys - {SIGNATURE_ENTRY}), keys - {SIGNATURE_ENTRY});
  }

  /** `canonical_signature_digest`; a name or content too long to pack is an error. */
  method ComputeDigest(entries: Entries, sha: Hash) returns (r: Result<bytes>)
    ensures r.Ok? <==> AllCommittable(entries)
    ensures r.Ok? ==> r.value == CanonicalDigest(entries, sha)
  {
    hide Committable, Record, Encode, Unsigned, Stream, Ascending;
    var names := Sorted(entries.Keys);
    var canonical: bytes := [];
    EmptyStream(entries, sha);
    for i := 0 to |names|
      invariant forall n :: n in Unsigned(names[..i]) ==> n in entries && Committable(n, entries[n])
      invariant canonical == Stream(Unsigned(names[..i]), entries, sha)
    {
      UnsignedNext(names, i);
      var name := names[i];
      assert name in entries.Keys;
      if name == SIGNATURE_ENTRY { continue; }
      if !Committable(name, entries[name]) { return Rejected; }
      StreamAppend(Unsigned(names[..i]), name, entries, sha);
      canonical := canonical + Record(name, entries[name], sha);
    }
    assert names[..|names|] == names;
    UnsignedListing(names, entries.Keys);
    assert forall name :: name in entries.Keys ==> name in names;
    return Ok(sha(canonical));
  }

  lemma EmptyStream(entries: Entries, sha: Hash)
    ensures Unsigned([]) == [] && Stream([], entries, sha) == []
  {
  }

  // ----- reading the stream

  /** What the stream says of one entry: its name, and the length and hash of its content. */
  datatype Commitment = Commitment(name: bytes, size: nat, hash: bytes)

  /** Reads records until the end: a 32-bit name length, the name, a 64-bit content length, a hash of 32 bytes. */
  function ReadStream(s: bytes): Option<seq<Commitment>>
    decreases |s|
  {
    if s == [] then Some([])
    else if |s| < 4 || |s| < 44 + U32(s, 0) then None
    else
      var n := U32(s, 0);
      match ReadStream(s[44 + n..])
      case None => None
      case Some(rest) => Some([Commitment(s[4..4 + n], U64(s, 4 + n), s[12 + n..44 + n])] + rest)
  }

  ghost predicate AllCommit(names: seq<string>, entries: Entries) {
    forall n :: n in names ==> n in entries && Committable(n, entries[n])
  }

  function CommitmentOf(name: string, data: bytes, sha: Hash): Commitment {
    Commitment(Encode(name), |data|, sha(data))
  }

  function Commitments(names: seq<string>, entries: Entries, sha: Hash): (cs: seq<Commitment>)
    requires forall n :: n in names ==> n in entries
    ensures |cs| == |names|
  {
    seq(|names|, i requires 0 <= i < |names| => CommitmentOf(names[i], entries[names[i]], sha))
  }

  lemma FieldSlices(length: bytes, text: bytes, size: bytes, hash: bytes, rest: bytes)
    requires |length| == 4 && |size| == 8 && |hash| == 32
    ensures var s, n := length + text + size + hash + rest, |text|;
            && s[0..4] == length && s[4..4 + n] == text && s[4 + n..12 + n] == size
            && s[12 + n..44 + n] == hash && s[44 + n..] == rest
  {
  }

  /** A record at the front of a stream is read, and then what follows it. */
  lemma RecordReads(name: string, data: bytes, rest: bytes, sha: Hash)
    requires Committable(name, data)
    ensures ReadStream(Record(name, data, sha) + rest) ==
              match ReadStream(rest)
              case None => None
              case Some(cs) => Some([CommitmentOf(name, data, sha)] + cs)
  {
    var length, text, size := EncodeU32(|Encode(name)|), Encode(name), EncodeU64(|data|);
    hide EncodeU32, EncodeU64, Encode, U32, U64;
    var s, n := Record(name, data, sha) + rest, |text|;
    assert s == length + text + size + sha(data) + rest;
    hide Record;
    FieldSlices(length, text, size, sha(data), rest);
    DecodeEncodeU32(n, s, 0);
    DecodeEncodeU64(|data|, s, 4 + n);
  }

  lemma CommitmentsNext(names: seq<string>, entries: Entries, sha: Hash)
    requires names != [] && forall n :: n in names ==> n in entries
    ensures forall n :: n in names[1..] ==> n in entries
    ensures Commitments(names, entries, sha) ==
              [CommitmentOf(names[0], entries[names[0]], sha)] + Commitments(names[1..], entries, sha)
  {
    hide CommitmentOf;
    var all, rest := Commitments(names, entries, sha), Commitments(names[1..], entries, sha);
    forall i | 0 <= i < |rest|
      ensures all[i + 1] == rest[i]
    {
      assert names[1..][i] == names[i + 1];
    }
  }

  /** The stream of a list of entries reads back as their names, lengths and hashes, in that order. */
  lemma {:induction false} StreamReads(names: seq<string>, entries: Entries, sha: Hash)
    requires AllCommit(names, entries)
    ensures ReadStream(Stream(names, entries, sha)) == Some(Commitments(names, entries, sha))
  {
    if names != [] {
      hide Committable, Record, Encode, ReadStream, Commitments;
      assert names == [names[0]] + names[1..];
      RecordReads(names[0], entries[names[0]], Stream(names[1..], entries, sha), sha);
      StreamReads(names[1..], entries, sha);
      CommitmentsNext(names, entries, sha);
    }
  }

  /** The canonical stream holds one record for each unsigned entry, in ascending order of their names. */
  lemma CanonicalStreamReads(entries: Entries, sha: Hash, names: seq<string>)
    requires AllCommittable(entries) && Lists(names, entries.Keys - {SIGNATURE_ENTRY})
    ensures ReadStream(CanonicalStream(entries, sha)) == Some(Commitments(names, entries, sha))
  {
    hide Committable, Commitments, ReadStream, Stream, Ascending;
    ListingUnique(names, Listing(entries.Keys - {SIGNATURE_ENTRY}), entries.Keys - {SIGNATURE_ENTRY});
    StreamReads(names, entries, sha);
  }

  // ----- binding

  ghost predicate SameHashes(names: seq<string>, a: Entries, b: Entries, sha: Hash) {
    forall n :: n in names ==> n in a && n in b && |a[n]| == |b[n]| && sha(a[n]) == sha(b[n])
  }

  /** The stream determines the names, the lengths and the hashes. */
  lemma StreamDecodes(na: seq<string>, a: Entries, nb: seq<string>, b: Entries, sha: Hash)
    requires AllCommit(na, a) && AllCommit(nb, b)
    requires Stream(na, a, sha) == Stream(nb, b, sha)
    ensures na == nb && SameHashes(na, a, b, sha)
  {
    hide Committable, Stream, ReadStream, Encode;
    StreamReads(na, a, sha);
    StreamReads(nb, b, sha);
    var ca, cb := Commitments(na, a, sha), Commitments(nb, b, sha);
    forall i | 0 <= i < |na|
      ensures na[i] == nb[i] && |a[na[i]]| == |b[na[i]]| && sha(a[na[i]]) == sha(b[na[i]])
    {
      assert ca[i] == cb[i];
      EncodeInjective(na[i], nb[i]);
    }
  }

  /**
   Equal digests mean equal packages up to the signature entry, or else the two byte strings returned are a
   collision of the hash.
   */
  lemma DigestBinding(a: Entries, b: Entries, sha: Hash) returns (x: bytes, y: bytes)
    requires AllCommittable(a) && AllCommittable(b)
    requires CanonicalDigest(a, sha) == CanonicalDigest(b, sha)
    ensures a - {SIGNATURE_ENTRY} == b - {SIGNATURE_ENTRY} || (x != y && sha(x) == sha(y))
  {
    hide Committable, Stream, Ascending;
    x, y := CanonicalStream(a, sha), CanonicalStream(b, sha);
    if x == y {
      var na, nb := Listing(a.Keys - {SIGNATURE_ENTRY}), Listing(b.Keys - {SIGNATURE_ENTRY});
      StreamDecodes(na, a, nb, b, sha);
      if n :| n in na && a[n] != b[n] {
        x, y := a[n], b[n];
      } else {
        forall n
          ensures n in a - {SIGNATURE_ENTRY} <==> n in b - {SIGNATURE_ENTRY}
        {
          assert n in na <==> n in a.Keys - {SIGNATURE_ENTRY};
          assert n in nb <==> n in b.Keys - {SIGNATURE_ENTRY};
        }
      }
    }
  }

  lemma {:induction false} StreamIgnoresOthers(names: seq<string>, a: Entries, b: Entries, sha: Hash)
    requires forall n :: n in names ==> n in a && n in b && a[n] == b[n] && Committable(n, a[n])
    ensures Stream(names, a, sha) == Stream(names, b, sha)
  {
    hide Committable, Record;
    if names != [] {
      StreamIgnoresOthers(names[1..], a, b, sha);
    }
  }

  /** Packages that differ in nothing but the signature have the same digest. */
  lemma SignatureNotCommitted(a: Entries, b: Entries, sha: Hash)
    requires a - {SIGNATURE_ENTRY} == b - {SIGNATURE_ENTRY} && AllCommittable(a)
    ensures AllCommittable(b) && CanonicalDigest(a, sha) == CanonicalDigest(b, sha)
  {
    hide Committable, Stream;
    assert a.Keys - {SIGNATURE_ENTRY} == (a - {SIGNATURE_ENTRY}).Keys == b.Keys - {SIGNATURE_ENTRY};
    forall n | n in a.Keys - {SIGNATURE_ENTRY}
      ensures n in b && a[n] == b[n]
    {
      assert (a - {SIGNATURE_ENTRY})[n] == (b - {SIGNATURE_ENTRY})[n];
    }
    StreamIgnoresOthers(Listing(a.Keys - {SIGNATURE_ENTRY}), a, b, sha);
  }
}
