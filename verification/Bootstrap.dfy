/** The package verifier's own reading of the CMB1 bootstrap section, and its agreement with the validator. */
module Bootstrap {
  import opened Bytes
  import opened CStrings
  import opened SectionHeaders
  import opened ElfHeaders
  import opened ElfValidate
  import opened ElfExact
  import opened ElfGeometry

  // ----- the second section finder

  predicate FinderTables(elf: bytes) {
    && IsPowerPcElf(elf)
    && var t := TablesOf(elf);
    && SectionTableFits(elf, t) && t.sectionCount > 0 && t.namesIndex < t.sectionCount
    && InFile(elf, SectionAt(elf, t, t.namesIndex))
  }

  /** The name of `h`, looked up in the file itself, is the bootstrap name. */
  predicate NamedBootstrap(elf: bytes, names: Header, h: Header)
    requires InFile(elf, names)
  {
    && h.nameOffset < names.storedSize
    && var start := names.fileOffset + h.nameOffset;
    && var end := FindZero(elf, start, names.fileOffset + names.storedSize);
    && end.Some? && elf[start..end.value] == BOOTSTRAP_NAME
  }

  predicate Loadable(elf: bytes, h: Header) {
    InFile(elf, h) && AnyBit(h.flags, ALLOC)
  }

  /** Exactly one section has the name, and every section with the name is loadable. */
  ghost predicate FinderAccepts(elf: bytes, hs: seq<Header>, names: Header)
    requires InFile(elf, names)
  {
    && (exists i :: 0 <= i < |hs| && NamedBootstrap(elf, names, hs[i]))
    && (forall i, j :: 0 <= i < j < |hs| && NamedBootstrap(elf, names, hs[i]) ==> !NamedBootstrap(elf, names, hs[j]))
    && (forall i :: 0 <= i < |hs| && NamedBootstrap(elf, names, hs[i]) ==> Loadable(elf, hs[i]))
  }

  /** The bytes the finder returns; None when it refuses the file. */
  ghost function Found(elf: bytes): Option<bytes> {
    if FinderTables(elf) then
      var t := TablesOf(elf);
      var names := SectionAt(elf, t, t.namesIndex);
      if FinderAccepts(elf, HeadersOf(elf, t), names) then
        var i :| 0 <= i < t.sectionCount && NamedBootstrap(elf, names, HeadersOf(elf, t)[i]);
        Some(ContentOf(elf, HeadersOf(elf, t)[i]))
      else None
    else None
  }

  lemma OneFound(elf: bytes, hs: seq<Header>, names: Header, index: nat)
    requires InFile(elf, names) && FinderAccepts(elf, hs, names)
    requires index < |hs| && NamedBootstrap(elf, names, hs[index])
    ensures forall i :: 0 <= i < |hs| && NamedBootstrap(elf, names, hs[i]) ==> i == index
    ensures InFile(elf, hs[index])
  {
    hide NamedBootstrap;
  }

  lemma FoundWhenAccepted(elf: bytes)
    ensures Found(elf).Some? <==>
              && FinderTables(elf)
              && var t := TablesOf(elf);
              && FinderAccepts(elf, HeadersOf(elf, t), SectionAt(elf, t, t.namesIndex))
  {
    hide NamedBootstrap, SectionAt, AnyBit;
  }

  lemma FoundContent(elf: bytes, index: nat)
    requires FinderTables(elf) && index < TablesOf(elf).sectionCount
    requires var names := SectionAt(elf, TablesOf(elf), TablesOf(elf).namesIndex);
             FinderAccepts(elf, HeadersOf(elf, TablesOf(elf)), names)
             && NamedBootstrap(elf, names, HeadersOf(elf, TablesOf(elf))[index])
    ensures var h := HeadersOf(elf, TablesOf(elf))[index];
            InFile(elf, h) && Found(elf) == Some(ContentOf(elf, h))
  {
    hide NamedBootstrap, FinderAccepts, SectionAt, AnyBit;
    OneFound(elf, HeadersOf(elf, TablesOf(elf)), SectionAt(elf, TablesOf(elf), TablesOf(elf).namesIndex), index);
  }

  /** The matches of the loop so far: the contents of the loadable named sections, at ascending indices. */
  ghost predicate Matches(elf: bytes, hs: seq<Header>, names: Header, index: nat, indices: seq<nat>,
                          matches: seq<bytes>)
    requires InFile(elf, names) && index <= |hs|
  {
    && |matches| == |indices|
    && (forall k :: 0 <= k < |indices| ==>
          indices[k] < index && NamedBootstrap(elf, names, hs[indices[k]]) && Loadable(elf, hs[indices[k]])
          && matches[k] == ContentOf(elf, hs[indices[k]]))
    && (forall j, k :: 0 <= j < k < |indices| ==> indices[j] < indices[k])
    && (forall i :: 0 <= i < index && NamedBootstrap(elf, names, hs[i]) ==> i in indices)
  }

  lemma NextMatch(elf: bytes, hs: seq<Header>, names: Header, index: nat, indices: seq<nat>, matches: seq<bytes>)
    requires InFile(elf, names) && index < |hs| && Matches(elf, hs, names, index, indices, matches)
    ensures !NamedBootstrap(elf, names, hs[index]) ==> Matches(elf, hs, names, index + 1, indices, matches)
    ensures NamedBootstrap(elf, names, hs[index]) && Loadable(elf, hs[index]) ==>
              Matches(elf, hs, names, index + 1, indices + [index], matches + [ContentOf(elf, hs[index])])
    ensures NamedBootstrap(elf, names, hs[index]) && !Loadable(elf, hs[index]) ==> !FinderAccepts(elf, hs, names)
  {
    hide NamedBootstrap, ContentOf, AnyBit;
  }

  lemma OneMatch(elf: bytes, hs: seq<Header>, names: Header, indices: seq<nat>, matches: seq<bytes>)
    requires InFile(elf, names) && Matches(elf, hs, names, |hs|, indices, matches)
    ensures |matches| == 1 <==> FinderAccepts(elf, hs, names)
  {
    hide NamedBootstrap, Loadable, ContentOf;
    if |matches| == 1 {
      assert NamedBootstrap(elf, names, hs[indices[0]]);
    } else if |matches| > 1 {
      assert NamedBootstrap(elf, names, hs[indices[0]]) && NamedBootstrap(elf, names, hs[indices[1]]);
    }
  }

  method BootstrapSection(elf: bytes) returns (r: Result<bytes>)
    ensures r.Ok? <==> Found(elf).Some?
    ensures r.Ok? ==> Found(elf) == Some(r.value)
  {
    FoundWhenAccepted(elf);
    hide SectionAt, NamedBootstrap, Found, ContentOf, Loadable, FinderAccepts;
    if !FinderTables(elf) { return Rejected; }
    var t := TablesOf(elf);
    var names := SectionAt(elf, t, t.namesIndex);
    var hs := HeadersOf(elf, t);
    var matches: seq<bytes> := [];
    ghost var indices: seq<nat> := [];
    for index := 0 to t.sectionCount
      invariant Matches(elf, hs, names, index, indices, matches)
    {
      hide Matches, FinderTables, HeadersOf, TablesOf;
      var current := hs[index];
      NextMatch(elf, hs, names, index, indices, matches);
      if NamedBootstrap(elf, names, current) {
        if !Loadable(elf, current) { return Rejected; }
        LoadableInFile(elf, current);
        matches := matches + [ContentOf(elf, current)];
        indices := indices + [index];
      }
    }
    OneMatch(elf, hs, names, indices, matches);
    if |matches| != 1 { return Rejected; }
    FoundContent(elf, indices[0]);
    return Ok(matches[0]);
  }

  lemma LoadableInFile(elf: bytes, h: Header)
    requires Loadable(elf, h)
    ensures InFile(elf, h)
  {
  }

  // ----- the CMB1 checks of the package verifier

  predicate Cmb1Header(section: bytes) {
    && |section| >= 12
    && U32(section, 0) == CMB1 && U16(section, 4) == 1 && U16(section, 6) == 24
    && 1 <= U32(section, 8) <= 64
    && |section| == 12 + U32(section, 8) * 24
  }

  predicate Cmb1Record(section: bytes, k: nat)
    requires 12 + (k + 1) * 24 <= |section|
  {
    var at := 12 + k * 24;
    && U32(section, at) != 0 && U32(section, at + 4) != 0 && U32(section, at + 12) != 0 && U32(section, at + 20) == 0
  }

  ghost predicate Cmb1Records(section: bytes)
    requires Cmb1Header(section)
  {
    forall k :: 0 <= k < U32(section, 8) ==> Cmb1Record(section, k)
  }

  /** The target word of record `k`. */
  function TargetOf(section: bytes, k: nat): u32
    requires 12 + (k + 1) * 24 <= |section|
  {
    U32(section, 12 + k * 24 + 4)
  }

  method VerifyRecords(section: bytes) returns (r: Result<()>)
    ensures r.Ok? <==> Cmb1Header(section) && Cmb1Records(section)
  {
    if !Cmb1Header(section) { return Rejected; }
    for k := 0 to U32(section, 8)
      invariant forall j :: 0 <= j < k ==> Cmb1Record(section, j)
    {
      if !Cmb1Record(section, k) { return Rejected; }
    }
    return Ok(());
  }

  // ----- agreement

  lemma {:induction false} FindZeroShift(data: bytes, base: nat, from: nat, limit: nat)
    requires from <= limit && base + limit <= |data|
    ensures var inside := FindZero(data[base..base + limit], from, limit);
            FindZero(data, base + from, base + limit) ==
              if inside.Some? then Some(base + inside.value) else None
    decreases limit - from
  {
    if from < limit && data[base + from] != 0 {
      FindZeroShift(data, base, from + 1, limit);
    }
  }

  /** The bootstrap name is ASCII. */
  lemma BootstrapNameAscii()
    ensures forall k :: 0 <= k < |BOOTSTRAP_NAME| ==> BOOTSTRAP_NAME[k] < 0x80
  {
  }

  lemma AsciiSlice(strings: bytes, from: nat, end: nat)
    requires from <= end <= |strings| && strings[from..end] == BOOTSTRAP_NAME
    ensures forall k :: from <= k < end ==> strings[k] < 0x80
  {
    BootstrapNameAscii();
    var name := strings[from..end];
    assert forall k :: 0 <= k < |name| ==> name[k] < 0x80;
    assert forall k :: from <= k < end ==> strings[k] == name[k - from];
  }

  /** A name is the bootstrap name whether or not it is first tested to be ASCII. */
  lemma NameIsBootstrap(strings: bytes, h: Header)
    ensures IsBootstrap(strings, h) <==>
              && h.nameOffset < |strings|
              && var end := FindZero(strings, h.nameOffset, |strings|);
              && end.Some? && strings[h.nameOffset..end.value] == BOOTSTRAP_NAME
  {
    hide BOOTSTRAP_NAME, FindZero;
    if h.nameOffset < |strings| {
      var end := FindZero(strings, h.nameOffset, |strings|);
      if end.Some? && strings[h.nameOffset..end.value] == BOOTSTRAP_NAME {
        AsciiSlice(strings, h.nameOffset, end.value);
      }
    }
  }

  lemma SameEnd(elf: bytes, names: Header, from: nat)
    requires InFile(elf, names) && from < names.storedSize
    ensures |ContentOf(elf, names)| == names.storedSize
    ensures var end := FindZero(ContentOf(elf, names), from, names.storedSize);
            FindZero(elf, names.fileOffset + from, names.fileOffset + names.storedSize) ==
              if end.Some? then Some(names.fileOffset + end.value) else None
  {
    hide FindZero;
    FindZeroShift(elf, names.fileOffset, from, names.storedSize);
  }

  /** Both finders read the same name. */
  lemma SameNames(elf: bytes, names: Header, h: Header)
    requires InFile(elf, names)
    ensures NamedBootstrap(elf, names, h) <==> IsBootstrap(ContentOf(elf, names), h)
  {
    hide BOOTSTRAP_NAME, FindZero, IsBootstrap, ContentOf;
    var strings := ContentOf(elf, names);
    ContentLength(elf, names);
    NameIsBootstrap(strings, h);
    if h.nameOffset < names.storedSize {
      SameEnd(elf, names, h.nameOffset);
      var end := FindZero(strings, h.nameOffset, |strings|);
      if end.Some? {
        SliceOfContent(elf, names, h.nameOffset, end.value);
      }
    }
  }

  lemma ContentLength(elf: bytes, h: Header)
    requires InFile(elf, h)
    ensures |ContentOf(elf, h)| == h.storedSize
  {
  }

  lemma SliceOfContent(elf: bytes, h: Header, from: nat, end: nat)
    requires InFile(elf, h) && from <= end <= h.storedSize
    ensures |ContentOf(elf, h)| == h.storedSize
    ensures ContentOf(elf, h)[from..end] == elf[h.fileOffset + from..h.fileOffset + end]
  {
    SliceOfSlice(elf, h.fileOffset, h.fileOffset + h.storedSize, from, end);
  }

  lemma SliceOfSlice(s: bytes, lo: nat, hi: nat, from: nat, end: nat)
    requires lo <= hi <= |s| && from <= end <= hi - lo
    ensures s[lo..hi][from..end] == s[lo + from..lo + end]
  {
    var a, b := s[lo..hi][from..end], s[lo + from..lo + end];
    assert forall k :: 0 <= k < |a| ==> a[k] == s[lo..hi][from + k] == b[k];
  }

  lemma FinderAgrees(elf: bytes, kinds: set<nat>, h: Header)
    requires ElfAccepts(elf, kinds) && IsBootstrapOf(elf, h)
    ensures InFile(elf, h) && Found(elf) == Some(ContentOf(elf, h))
  {
    var t := TablesOf(elf);
    NamesIndexLegal(elf, t);
    var hs := HeadersOf(elf, t);
    var names := hs[t.namesIndex];
    assert names == SectionAt(elf, t, t.namesIndex);
    hide LoadsOf, SectionAt, SegmentsAccept, NamesAccept, SectionsLegal, TablesLegal, IsBootstrap, NamedBootstrap,
      BootstrapAccepts, HeadersOf, ContentOf, FinderAccepts;
    FinderAcceptsToo(elf, hs, names, LoadsOf(elf, t));
    var index :| 0 <= index < |hs| && hs[index] == h;
    SameNames(elf, names, h);
    ValidTables(elf, t);
    FoundContent(elf, index);
  }

  lemma ValidTables(elf: bytes, t: Tables)
    requires TablesLegal(elf, t)
    ensures t.sectionCount > 0
  {
  }

  lemma FinderAcceptsToo(elf: bytes, hs: seq<Header>, names: Header, segments: seq<Segment>)
    requires InFile(elf, names) && BootstrapAccepts(elf, hs, ContentOf(elf, names), segments)
    ensures FinderAccepts(elf, hs, names)
  {
    hide IsBootstrap, NamedBootstrap, Contains, AnyBit, U16, U32, RecordsLegal, ContentOf;
    forall i | 0 <= i < |hs|
      ensures NamedBootstrap(elf, names, hs[i]) <==> IsBootstrap(ContentOf(elf, names), hs[i])
    {
      SameNames(elf, names, hs[i]);
    }
    var k :| 0 <= k < |hs| && IsBootstrap(ContentOf(elf, names), hs[k]);
    assert NamedBootstrap(elf, names, hs[k]);
  }

  lemma ContentWord(elf: bytes, h: Header, at: nat)
    requires InFile(elf, h) && at + 4 <= h.storedSize
    ensures U32(ContentOf(elf, h), at) == U32(elf, h.fileOffset + at)
  {
  }

  lemma ContentHalf(elf: bytes, h: Header, at: nat)
    requires InFile(elf, h) && at + 2 <= h.storedSize
    ensures U16(ContentOf(elf, h), at) == U16(elf, h.fileOffset + at)
  {
  }

  lemma HeaderAgrees(elf: bytes, h: Header, segments: seq<Segment>)
    requires BootstrapHeaderLegal(elf, h, segments)
    ensures Cmb1Header(ContentOf(elf, h)) && U32(ContentOf(elf, h), 8) == U32(elf, h.fileOffset + 8)
  {
    hide AnyBit, Contains;
    ContentWord(elf, h, 0);
    ContentHalf(elf, h, 4);
    ContentHalf(elf, h, 6);
    ContentWord(elf, h, 8);
  }

  /** A record the validator accepts fails the verifier only for a zero target. */
  lemma RecordAgrees(elf: bytes, h: Header, segments: seq<Segment>, k: nat)
    requires InFile(elf, h) && 12 + (k + 1) * 24 <= h.storedSize
    requires RecordLegal(elf, h.fileOffset + 12 + k * 24, segments)
    ensures Cmb1Record(ContentOf(elf, h), k) <==> TargetOf(ContentOf(elf, h), k) != 0
  {
    ContentWord(elf, h, 12 + k * 24);
    ContentWord(elf, h, 12 + k * 24 + 12);
    ContentWord(elf, h, 12 + k * 24 + 20);
    hide U32, Contains, BitAnd;
  }

  /**
   What the validator accepts, the verifier finds: the same bytes, a good CMB1 header, and records that pass
   exactly when none has a zero target.
   */
  lemma BootstrapAgreement(elf: bytes, kinds: set<nat>)
    requires ElfAccepts(elf, kinds)
    ensures Found(elf).Some?
    ensures var section := Found(elf).value;
            && (exists h :: IsBootstrapOf(elf, h) && InFile(elf, h) && section == ContentOf(elf, h))
            && Cmb1Header(section)
            && (Cmb1Records(section) <==> forall k :: 0 <= k < U32(section, 8) ==> TargetOf(section, k) != 0)
  {
    hide Found, IsBootstrapOf, TablesLegal, ContentsAccept, LoadsOf, RecordLegal, BootstrapHeaderLegal, Cmb1Record,
      TargetOf, Cmb1Header, RecordsLegal, ContentOf;
    var h := TheBootstrap(elf, kinds);
    FinderAgrees(elf, kinds, h);
    AcceptedTables(elf, kinds);
    var segments := LoadsOf(elf, TablesOf(elf));
    RecordsAgree(elf, h, segments);
  }

  lemma AcceptedTables(elf: bytes, kinds: set<nat>)
    requires ElfAccepts(elf, kinds)
    ensures |elf| >= 52 && TablesLegal(elf, TablesOf(elf))
  {
  }

  lemma RecordsAgree(elf: bytes, h: Header, segments: seq<Segment>)
    requires BootstrapHeaderLegal(elf, h, segments) && RecordsLegal(elf, h, segments)
    ensures InFile(elf, h) && Cmb1Header(ContentOf(elf, h))
    ensures var section := ContentOf(elf, h);
            Cmb1Records(section) <==> forall k :: 0 <= k < U32(section, 8) ==> TargetOf(section, k) != 0
  {
    hide RecordLegal, BootstrapHeaderLegal, Cmb1Record, TargetOf, Cmb1Header, ContentOf, U32;
    RecordsInside(elf, h, segments);
    HeaderAgrees(elf, h, segments);
    var section := ContentOf(elf, h);
    HeaderCounts(section);
    forall k | 0 <= k < U32(section, 8)
      ensures Cmb1Record(section, k) <==> TargetOf(section, k) != 0
    {
      assert RecordLegal(elf, h.fileOffset + 12 + k * 24, segments);
      RecordAgrees(elf, h, segments, k);
    }
  }

  lemma HeaderCounts(section: bytes)
    requires Cmb1Header(section)
    ensures |section| == 12 + U32(section, 8) * 24
  {
  }

  lemma RecordsInside(elf: bytes, h: Header, segments: seq<Segment>)
    requires BootstrapHeaderLegal(elf, h, segments)
    ensures InFile(elf, h) && h.storedSize == 12 + U32(elf, h.fileOffset + 8) * 24
  {
  }

  lemma TheBootstrap(elf: bytes, kinds: set<nat>) returns (h: Header)
    requires ElfAccepts(elf, kinds)
    ensures IsBootstrapOf(elf, h) && InFile(elf, h)
    ensures BootstrapHeaderLegal(elf, h, LoadsOf(elf, TablesOf(elf)))
    ensures RecordsLegal(elf, h, LoadsOf(elf, TablesOf(elf)))
  {
    var t := TablesOf(elf);
    NamesIndexLegal(elf, t);
    var hs, segments := HeadersOf(elf, t), LoadsOf(elf, t);
    hide LoadsOf, HeadersOf, SegmentsAccept, NamesAccept, SectionsLegal, TablesLegal, IsBootstrap, RecordLegal;
    var index :| 0 <= index < |hs| && IsBootstrap(ContentOf(elf, hs[t.namesIndex]), hs[index]);
    h := hs[index];
    hide Contains, AnyBit, U16, U32;
  }

  // ----- what the finder and the verifier ask, field by field

  /** The bytes of the name are its characters. */
  lemma NameCharacters()
    ensures |BOOTSTRAP_NAME| == 16 == |".cemod.bootstrap"|
    ensures forall k :: 0 <= k < 16 ==> BOOTSTRAP_NAME[k] as int == ".cemod.bootstrap"[k] as int
  {
  }

  /** The section headers are in the file, and so is the section of names. */
  predicate HasNames(elf: bytes, h: ElfHeader) {
    && h.sectionSize >= 40 && h.namesIndex < h.sectionCount
    && h.sectionOffset + h.sectionSize * h.sectionCount <= |elf|
    && var at := h.sectionOffset + h.namesIndex * h.sectionSize;
    && at + 40 <= |elf| && HeaderAt(elf, at).fileOffset + HeaderAt(elf, at).storedSize <= |elf|
  }

  /** The finder goes on exactly with the headers of a PowerPC object and a section of names. */
  lemma FinderTablesExactly(elf: bytes, h: ElfHeader)
    requires Begins(elf, h)
    ensures FinderTables(elf) <==> IsPowerPc(h) && HasNames(elf, h)
  {
    hide Begins, IsPowerPcElf, IsPowerPc, TablesOf, HeaderAt, TablesLegal, HasTables;
    ElfHeaderExactly(elf, h);
    if h.namesIndex < h.sectionCount && h.sectionOffset + h.sectionSize * h.sectionCount <= |elf| {
      TableEntry(h.sectionOffset, h.sectionSize, h.sectionCount, h.namesIndex, |elf|);
    }
  }

  /** The name stands, terminated, in the section of names. */
  predicate NameStandsAt(elf: bytes, names: Header, offset: nat)
    requires InFile(elf, names)
  {
    && offset + 17 <= names.storedSize
    && var at := names.fileOffset + offset;
    && elf[at..at + 16] == BOOTSTRAP_NAME && elf[at + 16] == 0
  }

  lemma NamedExactly(elf: bytes, names: Header, h: Header)
    requires InFile(elf, names)
    ensures NamedBootstrap(elf, names, h) <==> NameStandsAt(elf, names, h.nameOffset)
  {
    NameCharacters();
    hide BOOTSTRAP_NAME;
    if h.nameOffset < names.storedSize {
      var start, limit := names.fileOffset + h.nameOffset, names.fileOffset + names.storedSize;
      var end := FindZero(elf, start, limit);
      if NameStandsAt(elf, names, h.nameOffset) {
        forall k | start <= k < start + 16
          ensures elf[k] != 0
        {
          assert elf[k] == elf[start..start + 16][k - start] && ".cemod.bootstrap"[k - start] != '\0';
        }
        assert end == Some(start + 16);
      }
    }
  }

  /** One section has the name; it is in the file, and allocated. */
  ghost predicate OneNamed(elf: bytes, hs: seq<Header>, names: Header, i: nat)
    requires InFile(elf, names) && i < |hs|
  {
    && NameStandsAt(elf, names, hs[i].nameOffset)
    && (forall j :: 0 <= j < |hs| && j != i ==> !NameStandsAt(elf, names, hs[j].nameOffset))
    && hs[i].fileOffset + hs[i].storedSize <= |elf| && hs[i].flags / 2 % 2 == 1
  }

  lemma FinderAcceptsExactly(elf: bytes, hs: seq<Header>, names: Header)
    requires InFile(elf, names)
    ensures FinderAccepts(elf, hs, names) <==> exists i :: 0 <= i < |hs| && OneNamed(elf, hs, names, i)
    ensures forall i :: 0 <= i < |hs| && OneNamed(elf, hs, names, i) ==> NamedBootstrap(elf, names, hs[i])
  {
    forall i | 0 <= i < |hs|
      ensures NamedBootstrap(elf, names, hs[i]) <==> NameStandsAt(elf, names, hs[i].nameOffset)
      ensures Loadable(elf, hs[i]) <==> hs[i].fileOffset + hs[i].storedSize <= |elf| && hs[i].flags / 2 % 2 == 1
    {
      NamedExactly(elf, names, hs[i]);
      FlagBits(hs[i].flags);
    }
    hide NamedBootstrap, NameStandsAt, Loadable;
    if FinderAccepts(elf, hs, names) {
      var i :| 0 <= i < |hs| && NamedBootstrap(elf, names, hs[i]);
      assert OneNamed(elf, hs, names, i);
    }
    if i :| 0 <= i < |hs| && OneNamed(elf, hs, names, i) {
      assert NamedBootstrap(elf, names, hs[i]);
    }
  }

  /** The finder returns the content of the one section that has the name. */
  lemma FoundExactly(elf: bytes)
    requires FinderTables(elf)
    ensures var t := TablesOf(elf);
            var hs, names := HeadersOf(elf, t), SectionAt(elf, t, t.namesIndex);
            && (Found(elf).Some? <==> exists i :: 0 <= i < |hs| && OneNamed(elf, hs, names, i))
            && forall i :: 0 <= i < |hs| && OneNamed(elf, hs, names, i) ==> Found(elf) == Some(ContentOf(elf, hs[i]))
  {
    hide SectionAt, NamedBootstrap, FinderAccepts, ContentOf, Found;
    var t := TablesOf(elf);
    var hs, names := HeadersOf(elf, t), SectionAt(elf, t, t.namesIndex);
    FoundWhenAccepted(elf);
    FinderAcceptsExactly(elf, hs, names);
    forall i | 0 <= i < |hs| && OneNamed(elf, hs, names, i)
      ensures Found(elf) == Some(ContentOf(elf, hs[i]))
    {
      FoundContent(elf, i);
    }
  }

  /** A section is judged by its first three words and its size. */
  lemma Cmb1HeaderExactly(magic: u32, version: u16, recordSize: u16, count: u32, rest: bytes)
    ensures Cmb1Header(Cmb1Front(magic, version, recordSize, count) + rest) <==>
              Cmb1Works(magic, version, recordSize, count, 12 + |rest|)
  {
    hide U32, U16, Cmb1Front;
    var s := Cmb1Front(magic, version, recordSize, count) + rest;
    assert s[0..0 + 12] == Cmb1Front(magic, version, recordSize, count);
    FrontStands(s, 0, magic, version, recordSize, count);
  }

  /** What the verifier asks of a record: a module, a target and a mask, and no flags. */
  predicate RecordPasses(r: Record) {
    r.moduleHash != 0 && r.target != 0 && r.mask != 0 && r.flags == 0
  }

  /** The verifier passes exactly the sections of 1 to 64 records that all pass. */
  lemma Cmb1Exactly(rs: Records)
    ensures Cmb1Header(Cmb1Section(rs)) <==> 1 <= |rs| <= 64
    ensures Cmb1Header(Cmb1Section(rs)) ==>
              (Cmb1Records(Cmb1Section(rs)) <==> forall k :: 0 <= k < |rs| ==> RecordPasses(rs[k]))
  {
    hide U32, U16, Cmb1Section, Cmb1Record, RecordPasses;
    var s := Cmb1Section(rs);
    assert s[0..0 + |s|] == s;
    RecordsStand(s, 0, rs);
    forall k | 0 <= k < |rs|
      ensures Cmb1Record(s, k) <==> RecordPasses(rs[k])
    {
      PrintedRecordPasses(rs, k);
    }
  }

  lemma PrintedRecordPasses(rs: Records, k: nat)
    requires k < |rs|
    ensures Cmb1Record(Cmb1Section(rs), k) <==> RecordPasses(rs[k])
  {
    hide U32, Cmb1Section;
    var s := Cmb1Section(rs);
    assert s[0..0 + |s|] == s;
    RecordStands(s, 0, rs, k, 0);
    RecordStands(s, 0, rs, k, 1);
    RecordStands(s, 0, rs, k, 3);
    RecordStands(s, 0, rs, k, 5);
  }
}
