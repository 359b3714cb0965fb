/** The parts of a trusted-native ELF image, printed from any fields: exactly when the validator accepts them. */
module ElfExact {
  import opened Bytes
  import opened Words
  import opened Intervals
  import opened CStrings
  import opened SectionHeaders
  import opened ElfHeaders
  import opened ElfValidate

  // ----- load segments

  /** The eight words of a program header; the physical address and the alignment are not read. */
  datatype ProgramHeader = ProgramHeader(kind: u32, offset: u32, address: u32, physical: u32, fileSize: u32,
                                         memorySize: u32, flags: u32, alignment: u32)

  function EncodeProgram(p: ProgramHeader): (s: bytes)
    ensures |s| == 32
  {
    PackWords([p.kind, p.offset, p.address, p.physical, p.fileSize, p.memorySize, p.flags, p.alignment])
  }

  lemma StandsU32(elf: bytes, at: nat, chunk: bytes, j: nat)
    requires Stands(elf, at, chunk) && j + 4 <= |chunk|
    ensures at + j + 4 <= |elf| && U32(elf, at + j) == U32(chunk, j)
  {
  }

  lemma StandsWord(elf: bytes, at: nat, words: seq<u32>, j: nat)
    requires Stands(elf, at, PackWords(words)) && j < |words|
    ensures at + 4 * j + 4 <= |elf| && U32(elf, at + 4 * j) == words[j]
  {
    hide *;
    ghost var chunk, k := PackWords(words), 4 * j;
    PackedWord(words, j);
    assert U32(chunk, k) == words[j];
    StandsU32(elf, at, chunk, k);
  }

  /** The header is one of a loaded segment. */
  predicate Loaded(p: ProgramHeader) {
    p.kind == 1
  }

  /** In the file, no larger there than in memory, below 4 GiB, and not both writable and executable. */
  predicate ProgramWorks(p: ProgramHeader, fileSize: nat) {
    && p.fileSize <= p.memorySize && p.offset + p.fileSize <= fileSize
    && p.address + p.memorySize <= 0x1_0000_0000
    && !(p.flags % 2 == 1 && p.flags / 2 % 2 == 1)
  }

  /** A printed program header is judged, and read, by its fields. */
  lemma ProgramExactly(elf: bytes, t: Tables, i: nat, p: ProgramHeader)
    requires TablesLegal(elf, t) && i < t.programCount
    requires Stands(elf, t.programOffset + i * t.programSize, EncodeProgram(p))
    ensures IsLoad(elf, t, i) <==> Loaded(p)
    ensures SegmentAt(elf, t, i) == Segment(p.address, p.memorySize, p.flags)
    ensures SegmentLegal(elf, t, i) <==> ProgramWorks(p, |elf|)
    ensures SegmentAt(elf, t, i).Executable() <==> p.flags % 2 == 1
  {
    var words := [p.kind, p.offset, p.address, p.physical, p.fileSize, p.memorySize, p.flags, p.alignment];
    hide U32, PackWords, TablesLegal, AnyBit, AllBits, Stands;
    var at := ProgramAt(elf, t, i);
    StandsWord(elf, at, words, 0);
    StandsWord(elf, at, words, 1);
    StandsWord(elf, at, words, 2);
    StandsWord(elf, at, words, 4);
    StandsWord(elf, at, words, 5);
    StandsWord(elf, at, words, 6);
    AllBitsOfTwo(p.flags);
    FlagBits(p.flags);
  }

  /** There is code exactly when some executable segment is not empty. */
  lemma {:induction false} CodeExactly(segments: seq<Segment>)
    ensures CodeBytes(segments) > 0 <==>
              exists i :: 0 <= i < |segments| && segments[i].flags % 2 == 1 && segments[i].memorySize > 0
  {
    if segments != [] {
      var front, last := segments[..|segments| - 1], segments[|segments| - 1];
      CodeExactly(front);
      FlagBits(last.flags);
      hide AnyBit;
      assert forall i :: 0 <= i < |front| ==> front[i] == segments[i];
      if i :| 0 <= i < |front| && front[i].flags % 2 == 1 && front[i].memorySize > 0 {
        assert segments[i].flags % 2 == 1 && segments[i].memorySize > 0;
      }
    }
  }

  /** The bytes from `address` on lie in segment `s`. */
  predicate Encloses(s: Segment, address: nat, size: nat) {
    s.address <= address && address + size <= s.address + s.memorySize
  }

  ghost predicate InImage(segments: seq<Segment>, address: nat, size: nat) {
    exists i :: 0 <= i < |segments| && Encloses(segments[i], address, size)
  }

  ghost predicate InCode(segments: seq<Segment>, address: nat, size: nat) {
    exists i :: 0 <= i < |segments| && segments[i].flags % 2 == 1 && Encloses(segments[i], address, size)
  }

  lemma ContainsExactly(segments: seq<Segment>, address: nat, size: nat)
    ensures Contains(segments, address, size, false) <==> InImage(segments, address, size)
    ensures Contains(segments, address, size, true) <==> InCode(segments, address, size)
  {
    hide AnyBit;
    forall i | 0 <= i < |segments|
      ensures Holds(segments[i], address, size, false) <==> Encloses(segments[i], address, size)
      ensures Holds(segments[i], address, size, true) <==>
                segments[i].flags % 2 == 1 && Encloses(segments[i], address, size)
    {
      FlagBits(segments[i].flags);
    }
    hide Holds, Encloses;
  }

  // ----- section names

  /** The name stands at `offset` of the strings: a terminated run of non-zero ASCII bytes. */
  predicate NameStands(strings: bytes, offset: nat, name: bytes) {
    && offset + |name| < |strings| && strings[offset..offset + |name|] == name && strings[offset + |name|] == 0
    && forall k :: 0 <= k < |name| ==> 1 <= name[k] < 0x80
  }

  lemma NameExactly(strings: bytes, offset: nat, name: bytes)
    ensures NameAt(strings, offset) == Some(name) <==> NameStands(strings, offset, name)
  {
    if offset < |strings| {
      var found := FindZero(strings, offset, |strings|);
      hide FindZero;
      if offset + |name| < |strings| && strings[offset..offset + |name|] == name {
        assert forall k :: 0 <= k < |name| ==> name[k] == strings[offset + k];
        assert forall k :: offset <= k < offset + |name| ==> strings[k] == name[k - offset];
      }
    }
  }

  // ----- symbols

  datatype ElfSymbol = ElfSymbol(name: u32, value: u32, size: u32, info: byte, other: byte, section: u16)

  function ElfSymbolWord(y: ElfSymbol, j: nat): u32 {
    if j == 0 then y.name else if j == 1 then y.value else if j == 2 then y.size
    else y.info * 0x100_0000 + y.other * 0x1_0000 + y.section
  }

  function ElfSymbolWords(symbols: seq<ElfSymbol>): (words: seq<u32>)
    ensures |words| == 4 * |symbols|
  {
    seq(4 * |symbols|, i requires 0 <= i < 4 * |symbols| => ElfSymbolWord(symbols[i / 4], i % 4))
  }

  /** Every symbol but the first belongs to a section. */
  predicate AllDefined(symbols: seq<ElfSymbol>) {
    forall k :: 1 <= k < |symbols| ==> symbols[k].section != 0
  }

  lemma ElfSymbolSection(elf: bytes, at: nat, symbols: seq<ElfSymbol>, k: nat)
    requires Stands(elf, at, PackWords(ElfSymbolWords(symbols))) && k < |symbols|
    ensures at + 16 * k + 16 <= |elf| && U16(elf, at + 16 * k + 14) == symbols[k].section
  {
    hide U32, U16, PackWords, Stands;
    var y := symbols[k];
    StandsWord(elf, at, ElfSymbolWords(symbols), 4 * k + 3);
    InfoAndSection(elf, at + 16 * k + 12, y.info, y.other, y.section);
  }

  /** A printed symbol table is accepted exactly when every symbol after the first is defined. */
  lemma ElfSymbolsExactly(elf: bytes, hs: seq<Header>, h: Header, symbols: seq<ElfSymbol>, segments: seq<Segment>,
                          kinds: set<nat>)
    requires h.kind == 2 || h.kind == 11
    requires h.entrySize == 16 && h.storedSize == 16 * |symbols|
    requires Stands(elf, h.fileOffset, PackWords(ElfSymbolWords(symbols)))
    ensures SectionLegal(elf, hs, h, segments, kinds) <==> AllDefined(symbols)
  {
    hide U16, PackWords, ElfSymbolWords;
    assert h.storedSize / 16 == |symbols| && h.storedSize % 16 == 0;
    forall k | 1 <= k < |symbols|
      ensures U16(elf, EntryAt(elf, h, k) + 14) == symbols[k].section
    {
      ElfSymbolSection(elf, h.fileOffset, symbols, k);
    }
  }

  // ----- relocations

  /** A supported type for a symbol there is; two or four bytes of the image, unless the type patches nothing. */
  ghost predicate ElfEntryWorks(segments: seq<Segment>, e: Entry, symbolCount: nat, kinds: set<nat>) {
    var kind: int := e.kind;
    && kind in kinds && e.symbol < symbolCount
    && (kind == 4 || kind == 5 || kind == 6 ==> InImage(segments, e.offset, 2))
    && (kind == 0 || kind == 4 || kind == 5 || kind == 6 || InImage(segments, e.offset, 4))
  }

  lemma ElfEntryExactly(elf: bytes, at: nat, e: Entry, symbolCount: nat, segments: seq<Segment>, kinds: set<nat>)
    requires at + 8 <= |elf| && U32(elf, at) == e.offset && U32(elf, at + 4) == e.symbol * 0x100 + e.kind
    ensures RelocationLegal(elf, at, symbolCount, segments, kinds) <==>
              ElfEntryWorks(segments, e, symbolCount, kinds)
  {
    hide U32, Contains, InImage, InCode;
    ElfInfo(e.symbol, e.kind);
    ContainsExactly(segments, e.offset, 2);
    ContainsExactly(segments, e.offset, 4);
  }

  lemma ElfEntryFields(elf: bytes, at: nat, entries: seq<Entry>, k: nat)
    requires Packable(entries) && Stands(elf, at, PackWords(EntryWords(entries, true))) && k < |entries|
    ensures at + 12 * k + 12 <= |elf| && U32(elf, at + 12 * k) == entries[k].offset
    ensures U32(elf, at + 12 * k + 4) == entries[k].symbol * 0x100 + entries[k].kind
  {
    hide U32, PackWords, Stands;
    StandsWord(elf, at, EntryWords(entries, true), 3 * k);
    StandsWord(elf, at, EntryWords(entries, true), 3 * k + 1);
    StandsWord(elf, at, EntryWords(entries, true), 3 * k + 2);
  }

  /** A printed relocation table for a symbol table of 16-byte entries: every entry must work. */
  lemma ElfRelocationsExactly(elf: bytes, hs: seq<Header>, h: Header, entries: seq<Entry>, segments: seq<Segment>,
                              kinds: set<nat>)
    requires h.kind == 4 && h.entrySize == 12 && h.storedSize == 12 * |entries| && Packable(entries)
    requires Stands(elf, h.fileOffset, PackWords(EntryWords(entries, true)))
    requires h.link < |hs| && (hs[h.link].kind == 2 || hs[h.link].kind == 11)
    requires hs[h.link].entrySize == 16 && hs[h.link].storedSize % 16 == 0
    ensures SectionLegal(elf, hs, h, segments, kinds) <==>
              forall k :: 0 <= k < |entries| ==> ElfEntryWorks(segments, entries[k], hs[h.link].storedSize / 16, kinds)
  {
    hide U32, PackWords, EntryWords, RelocationLegal, ElfEntryWorks;
    assert h.storedSize / 12 == |entries| && h.storedSize % 12 == 0;
    forall k | 0 <= k < |entries|
      ensures RelocationLegal(elf, EntryAt(elf, h, k), hs[h.link].storedSize / 16, segments, kinds)
         <==> ElfEntryWorks(segments, entries[k], hs[h.link].storedSize / 16, kinds)
    {
      ElfEntryFields(elf, h.fileOffset, entries, k);
      ElfEntryExactly(elf, EntryAt(elf, h, k), entries[k], hs[h.link].storedSize / 16, segments, kinds);
    }
  }

  /** A relocation table needs a symbol table with whole entries of at least 16 bytes, and 12-byte entries itself. */
  lemma ElfShapesExactly(elf: bytes, hs: seq<Header>, h: Header, segments: seq<Segment>, kinds: set<nat>)
    requires SectionLegal(elf, hs, h, segments, kinds)
    ensures h.kind != 9 && (h.kind != 8 ==> h.fileOffset + h.storedSize <= |elf|)
    ensures h.kind == 2 || h.kind == 11 ==> h.entrySize >= 16 && h.storedSize % h.entrySize == 0
    ensures h.kind == 4 ==>
              && h.entrySize >= 12 && h.storedSize % h.entrySize == 0 && h.link < |hs|
              && (hs[h.link].kind == 2 || hs[h.link].kind == 11)
              && hs[h.link].entrySize >= 16 && hs[h.link].storedSize % hs[h.link].entrySize == 0
  {
    hide SymbolsDefined, RelocationsLegal;
  }

  // ----- the CMB1 bootstrap section

  datatype Record = Record(moduleHash: u32, target: u32, expected: u32, mask: u32, handler: u32, flags: u32) {
    function Word(j: nat): u32 {
      if j == 0 then moduleHash else if j == 1 then target else if j == 2 then expected
      else if j == 3 then mask else if j == 4 then handler else flags
    }
  }

  type Records = rs: seq<Record> | |rs| < 0x100_0000

  function RecordWords(rs: Records): (words: seq<u32>)
    ensures |words| == 3 + 6 * |rs|
  {
    [0x434D_4231, 0x0001_0018, |rs|]
    + seq(6 * |rs|, i requires 0 <= i < 6 * |rs| => rs[i / 6].Word(i % 6))
  }

  /** Magic, version 1 and record size 24, the count, and six words for each record. */
  function Cmb1Section(rs: Records): (s: bytes)
    ensures |s| == 12 + 24 * |rs|
  {
    PackWords(RecordWords(rs))
  }

  /** The words of a section that holds printed records, wherever it stands. */
  lemma RecordsStand(elf: bytes, at: nat, rs: Records)
    requires Stands(elf, at, Cmb1Section(rs))
    ensures at + 12 + 24 * |rs| <= |elf|
    ensures U32(elf, at) == 0x434D_4231 && U16(elf, at + 4) == 1 && U16(elf, at + 6) == 24 && U32(elf, at + 8) == |rs|
  {
    hide U32, PackWords, Stands;
    var words := RecordWords(rs);
    StandsWord(elf, at, words, 0);
    StandsWord(elf, at, words, 1);
    StandsWord(elf, at, words, 2);
    StandsInside(elf, at, Cmb1Section(rs));
    TwoHalves(elf, at + 4, 1, 24);
  }

  lemma StandsInside(elf: bytes, at: nat, chunk: bytes)
    requires Stands(elf, at, chunk)
    ensures at + |chunk| <= |elf|
  {
  }

  lemma TwoHalves(s: bytes, at: nat, high: u16, low: u16)
    requires at + 4 <= |s| && U32(s, at) == high * 0x1_0000 + low
    ensures U16(s, at) == high && U16(s, at + 2) == low
  {
  }

  lemma RecordStands(elf: bytes, at: nat, rs: Records, k: nat, j: nat)
    requires Stands(elf, at, Cmb1Section(rs)) && k < |rs| && j < 6
    ensures at + 12 + 24 * k + 4 * j + 4 <= |elf| && U32(elf, at + 12 + 24 * k + 4 * j) == rs[k].Word(j)
  {
    hide U32, PackWords, Stands;
    QuotientUnique(6 * k + j, 6, k, j);
    StandsWord(elf, at, RecordWords(rs), 3 + (6 * k + j));
  }

  /** Names a module, patches an aligned word under a mask, and enters a word of code. */
  ghost predicate RecordWorks(segments: seq<Segment>, r: Record) {
    && r.moduleHash != 0 && r.target % 4 == 0 && r.mask != 0 && r.flags == 0
    && InCode(segments, r.handler, 4)
  }

  lemma RecordExactly(elf: bytes, at: nat, rs: Records, k: nat, segments: seq<Segment>)
    requires Stands(elf, at, Cmb1Section(rs)) && k < |rs|
    ensures at + 12 + k * 24 + 24 <= |elf|
    ensures RecordLegal(elf, at + 12 + k * 24, segments) <==> RecordWorks(segments, rs[k])
  {
    hide U32, Stands, Cmb1Section, Contains, InCode, BitAnd;
    RecordStands(elf, at, rs, k, 0);
    RecordStands(elf, at, rs, k, 1);
    RecordStands(elf, at, rs, k, 3);
    RecordStands(elf, at, rs, k, 4);
    RecordStands(elf, at, rs, k, 5);
    LowTwoBits(rs[k].target);
    ContainsExactly(segments, rs[k].handler, 4);
  }

  lemma LowTwoBits(target: nat)
    ensures BitAnd(target, 3) == 0 <==> target % 4 == 0
  {
    assert Pow2(2) == 4;
    BitAndLowBits(target, 2);
  }

  /**
   A section that holds printed records is a legal bootstrap section exactly when it is an allocated section of
   program bits inside the image with 1 to 64 records, and they are legal exactly when each of them works.
   */
  lemma ElfRecordsExactly(elf: bytes, h: Header, rs: Records, segments: seq<Segment>)
    requires Stands(elf, h.fileOffset, Cmb1Section(rs)) && h.storedSize == 12 + 24 * |rs|
    ensures BootstrapHeaderLegal(elf, h, segments) <==>
              && h.kind == 1 && h.flags / 2 % 2 == 1 && InImage(segments, h.address, h.storedSize)
              && 1 <= |rs| <= 64
    ensures BootstrapHeaderLegal(elf, h, segments) ==>
              (RecordsLegal(elf, h, segments) <==> forall k :: 0 <= k < |rs| ==> RecordWorks(segments, rs[k]))
  {
    RecordsStand(elf, h.fileOffset, rs);
    FlagBits(h.flags);
    ContainsExactly(segments, h.address, h.storedSize);
    hide U32, U16, Stands, Contains, InImage, AnyBit, RecordLegal, RecordWorks, Cmb1Section;
    forall k | 0 <= k < |rs|
      ensures h.fileOffset + 12 + k * 24 + 24 <= |elf|
      ensures RecordLegal(elf, h.fileOffset + 12 + k * 24, segments) <==> RecordWorks(segments, rs[k])
    {
      RecordExactly(elf, h.fileOffset, rs, k, segments);
    }
    if BootstrapHeaderLegal(elf, h, segments) {
      RecordsAgree(elf, h, rs, segments);
    }
  }

  lemma RecordsAgree(elf: bytes, h: Header, rs: Records, segments: seq<Segment>)
    requires BootstrapHeaderLegal(elf, h, segments) && U32(elf, h.fileOffset + 8) == |rs|
    requires h.fileOffset + 12 + 24 * |rs| <= |elf|
    requires forall k :: 0 <= k < |rs| ==>
               (RecordLegal(elf, h.fileOffset + 12 + k * 24, segments) <==> RecordWorks(segments, rs[k]))
    ensures RecordsLegal(elf, h, segments) <==> forall k :: 0 <= k < |rs| ==> RecordWorks(segments, rs[k])
  {
    hide BootstrapHeaderLegal, RecordLegal, RecordWorks, U32;
    if forall k :: 0 <= k < |rs| ==> RecordWorks(segments, rs[k]) {
      forall k | 0 <= k < U32(elf, h.fileOffset + 8)
        ensures RecordLegal(elf, h.fileOffset + 12 + k * 24, segments)
      {
        assert RecordWorks(segments, rs[k]);
      }
    }
    if RecordsLegal(elf, h, segments) {
      forall k | 0 <= k < |rs|
        ensures RecordWorks(segments, rs[k])
      {
        assert RecordLegal(elf, h.fileOffset + 12 + k * 24, segments);
      }
    }
  }

  // ----- the program headers together

  /** The segments of the loaded program headers, in order. */
  function LoadedOf(programs: seq<ProgramHeader>): seq<Segment> {
    if programs == [] then []
    else
      var p := programs[|programs| - 1];
      LoadedOf(programs[..|programs| - 1]) + if Loaded(p) then [Segment(p.address, p.memorySize, p.flags)] else []
  }

  ghost predicate ProgramsStand(elf: bytes, t: Tables, programs: seq<ProgramHeader>)
    requires TablesLegal(elf, t)
  {
    && |programs| == t.programCount
    && forall i :: 0 <= i < |programs| ==>
         Stands(elf, t.programOffset + i * t.programSize, EncodeProgram(programs[i]))
  }

  lemma {:induction false} LoadsRead(elf: bytes, t: Tables, programs: seq<ProgramHeader>, n: nat)
    requires TablesLegal(elf, t) && ProgramsStand(elf, t, programs) && n <= |programs|
    ensures Loads(elf, t, n) == LoadedOf(programs[..n])
  {
    hide TablesLegal, IsLoad, SegmentAt, EncodeProgram, Stands;
    if n > 0 {
      LoadsRead(elf, t, programs, n - 1);
      ProgramExactly(elf, t, n - 1, programs[n - 1]);
      assert programs[..n][..n - 1] == programs[..n - 1];
    }
  }

  /** No byte is in two segments, and no empty segment lies inside another. */
  ghost predicate SegmentsApart(segments: seq<Segment>) {
    forall i, j :: 0 <= i < j < |segments| ==>
      segments[i].address + segments[i].memorySize <= segments[j].address
      || segments[j].address + segments[j].memorySize <= segments[i].address
  }

  /**
   Printed program headers are accepted exactly when the loaded ones work, lie apart, hold some code and are together
   at most 10 MiB; their segments are what is read.
   */
  lemma SegmentsExactly(elf: bytes, t: Tables, programs: seq<ProgramHeader>)
    requires TablesLegal(elf, t) && ProgramsStand(elf, t, programs)
    ensures LoadsOf(elf, t) == LoadedOf(programs)
    ensures SegmentsAccept(elf, t) <==>
              && (forall i :: 0 <= i < |programs| && Loaded(programs[i]) ==> ProgramWorks(programs[i], |elf|))
              && var segments := LoadedOf(programs);
              && SegmentsApart(segments)
              && (exists i :: 0 <= i < |segments| && segments[i].flags % 2 == 1 && segments[i].memorySize > 0)
              && SumOf(segments, MemorySize) <= 10 * 1024 * 1024
  {
    LoadsRead(elf, t, programs, |programs|);
    assert programs[..|programs|] == programs;
    hide TablesLegal, LoadedOf, EncodeProgram, Stands, IsLoad, SegmentLegal, ProgramWorks, Loaded;
    forall i | 0 <= i < |programs|
      ensures IsLoad(elf, t, i) <==> Loaded(programs[i])
      ensures SegmentLegal(elf, t, i) <==> ProgramWorks(programs[i], |elf|)
    {
      ProgramExactly(elf, t, i, programs[i]);
    }
    CodeExactly(LoadedOf(programs));
    ImageExactly(LoadedOf(programs));
    hide CodeBytes, ImageBytes;
  }

  function MemorySize(s: Segment): nat {
    s.memorySize
  }

  lemma {:induction false} ImageExactly(segments: seq<Segment>)
    ensures ImageBytes(segments) == SumOf(segments, MemorySize)
  {
    if segments != [] {
      var front := segments[..|segments| - 1];
      ImageExactly(front);
      assert Sizes(Extents(segments))[..|front|] == Sizes(Extents(front));
    }
  }

  // ----- the header of a CMB1 section

  /** The first three words of a section, any others behind them. */
  function Cmb1Front(magic: u32, version: u16, recordSize: u16, count: u32): (s: bytes)
    ensures |s| == 12
  {
    PackWords([magic, version * 0x1_0000 + recordSize, count])
  }

  /** The CMB1 magic, version 1, records of 24 bytes, 1 to 64 of them, and nothing else. */
  predicate Cmb1Works(magic: u32, version: u16, recordSize: u16, count: u32, size: nat) {
    magic == 0x434D_4231 && version == 1 && recordSize == 24 && 1 <= count <= 64 && size == 12 + 24 * count
  }

  lemma FrontStands(s: bytes, at: nat, magic: u32, version: u16, recordSize: u16, count: u32)
    requires Stands(s, at, Cmb1Front(magic, version, recordSize, count))
    ensures at + 12 <= |s| && U32(s, at) == magic && U16(s, at + 4) == version && U16(s, at + 6) == recordSize
    ensures U32(s, at + 8) == count
  {
    hide U32, PackWords, Stands;
    var words := [magic, version * 0x1_0000 + recordSize, count];
    StandsWord(s, at, words, 0);
    StandsWord(s, at, words, 1);
    StandsWord(s, at, words, 2);
    TwoHalves(s, at + 4, version, recordSize);
  }

  /** A bootstrap section of at least twelve bytes is judged by its header and the three words in front. */
  lemma ElfBootstrapExactly(elf: bytes, h: Header, magic: u32, version: u16, recordSize: u16, count: u32,
                            segments: seq<Segment>)
    requires Stands(elf, h.fileOffset, Cmb1Front(magic, version, recordSize, count)) && h.storedSize >= 12
    ensures BootstrapHeaderLegal(elf, h, segments) <==>
              && h.kind == 1 && h.flags / 2 % 2 == 1 && InImage(segments, h.address, h.storedSize)
              && h.fileOffset + h.storedSize <= |elf|
              && Cmb1Works(magic, version, recordSize, count, h.storedSize)
  {
    FrontStands(elf, h.fileOffset, magic, version, recordSize, count);
    FlagBits(h.flags);
    ContainsExactly(segments, h.address, h.storedSize);
    hide U32, U16, Stands, Contains, InImage, AnyBit, Cmb1Front;
  }

  // ----- all of it in an accepted image

  ghost predicate HasName(strings: bytes, h: Header) {
    exists name :: NameStands(strings, h.nameOffset, name)
  }

  /** The same name stands for both sections, and is not empty. */
  ghost predicate NamedAlike(strings: bytes, a: Header, b: Header) {
    exists name :: name != [] && NameStands(strings, a.nameOffset, name) && NameStands(strings, b.nameOffset, name)
  }

  lemma HasNameExactly(strings: bytes, h: Header)
    ensures NameAt(strings, h.nameOffset).Some? <==> HasName(strings, h)
  {
    hide NameAt, NameStands;
    if NameAt(strings, h.nameOffset).Some? {
      NameExactly(strings, h.nameOffset, NameAt(strings, h.nameOffset).value);
    }
    if name :| NameStands(strings, h.nameOffset, name) {
      NameExactly(strings, h.nameOffset, name);
    }
  }

  lemma NamedAlikeExactly(strings: bytes, a: Header, b: Header)
    ensures SameName(strings, a, b) <==> NamedAlike(strings, a, b)
  {
    hide NameAt, NameStands;
    if SameName(strings, a, b) {
      NameExactly(strings, a.nameOffset, NameAt(strings, a.nameOffset).value);
      NameExactly(strings, b.nameOffset, NameAt(strings, a.nameOffset).value);
    }
    if name :| name != [] && NameStands(strings, a.nameOffset, name) && NameStands(strings, b.nameOffset, name) {
      NameExactly(strings, a.nameOffset, name);
      NameExactly(strings, b.nameOffset, name);
    }
  }

  lemma NamesExactly(hs: seq<Header>, strings: bytes)
    ensures NamesAccept(hs, strings) <==>
              && (forall i :: 0 <= i < |hs| ==> HasName(strings, hs[i]))
              && (forall i, j :: 0 <= i < j < |hs| ==> !NamedAlike(strings, hs[i], hs[j]))
  {
    hide NameAt, HasName, NamedAlike, SameName;
    forall i | 0 <= i < |hs|
      ensures NameAt(strings, hs[i].nameOffset).Some? <==> HasName(strings, hs[i])
    {
      HasNameExactly(strings, hs[i]);
    }
    forall i, j | 0 <= i < j < |hs|
      ensures SameName(strings, hs[i], hs[j]) <==> NamedAlike(strings, hs[i], hs[j])
    {
      NamedAlikeExactly(strings, hs[i], hs[j]);
    }
  }

  /** What every accepted image is: a small PowerPC object with a table of names, in which no two sections share one. */
  lemma AcceptedElf(elf: bytes, kinds: set<nat>)
    requires ElfAccepts(elf, kinds)
    ensures 52 <= |elf| <= 10 * 1024 * 1024
    ensures var h := HeaderIn(elf);
            IsPowerPc(h) && HasTables(h, |elf|)
    ensures TablesLegal(elf, TablesOf(elf))
    ensures var hs := HeadersOf(elf, TablesOf(elf));
            var names := hs[TablesOf(elf).namesIndex];
            && names.kind == 3 && names.fileOffset + names.storedSize <= |elf|
            && (forall i :: 0 <= i < |hs| ==> HasName(ContentOf(elf, names), hs[i]))
            && (forall i, j :: 0 <= i < j < |hs| ==> !NamedAlike(ContentOf(elf, names), hs[i], hs[j]))
  {
    HeaderExists(elf);
    ElfHeaderExactly(elf, HeaderIn(elf));
    hide HeaderIn, IsPowerPcElf, TablesLegal, SegmentsAccept, SectionsLegal, BootstrapAccepts, NamesAccept, LoadsOf,
      HasName, NamedAlike, SectionAt, ContentOf, Begins, IsPowerPc, HasTables;
    NamesIndexLegal(elf, TablesOf(elf));
    var hs := HeadersOf(elf, TablesOf(elf));
    NamesExactly(hs, ContentOf(elf, hs[TablesOf(elf).namesIndex]));
  }
}
