/** The test suite's trusted-native ELF image, for any CMB1 records, symbols and relocations: exactly when accepted. */
module ElfFixture {
  import opened Bytes
  import opened Words
  import opened Intervals
  import opened CStrings
  import opened SectionHeaders
  import opened ElfExact
  import opened ElfValidate
  import opened ElfGeometry
  import opened Bootstrap

  /** Names a module, patches an aligned word under a mask, and enters the one code segment of the image. */
  predicate RecordFits(r: Record) {
    && r.moduleHash != 0 && r.target % 4 == 0 && r.mask != 0 && r.flags == 0
    && 0x1000_0000 <= r.handler <= 0x1000_0FFC
  }

  /** The CMB1 records, and the symbols and relocations, which the suite's own image has none of. */
  datatype ImageFields = Image(records: Records, symbols: seq<ElfSymbol>, relocations: seq<Entry>)

  /** As many as the 32-bit fields of the image can count. */
  type Image = f: ImageFields |
      && |f.symbols| < 0x100_0000 && |f.relocations| < 0x100_0000
      && Packable(f.relocations)
    witness Image([], [], [])

  function Suite(records: Records): (f: Image)
    ensures f.records == records && f.symbols == [] && f.relocations == []
  {
    Image(records, [], [])
  }

  /** There is a symbol table and a relocation table behind the section headers. */
  predicate Linked(f: Image) {
    f.symbols != [] || f.relocations != []
  }

  /** The word at which the section headers start: the suite's place, or behind the records. */
  function TableWord(f: Image): nat {
    if |f.records| <= 10 then 160 else 99 + 6 * |f.records|
  }

  /** The words of symbols and relocations start behind the five section headers. */
  function SymbolStart(f: Image): nat {
    TableWord(f) + 50
  }

  function EntryStart(f: Image): nat {
    SymbolStart(f) + 4 * |f.symbols|
  }

  function WordCount(f: Image): nat {
    if Linked(f) then EntryStart(f) + 3 * |f.relocations| else TableWord(f) + 32
  }

  function SectionCount(f: Image): nat {
    if Linked(f) then 5 else 3
  }

  const NULL_HEADER: Header := Header(0, 0, 0, 0, 0, 0, 0, 0, 0, 0)
  const NAMES_HEADER: Header := Header(1, STRTAB, 2, 0x1000_0000, 0x100, 28, 0, 0, 1, 0)

  function BootstrapHeader(f: Image): Header {
    Header(11, PROGBITS, 2, 0x1000_0100, 0x180, 12 + 24 * |f.records|, 0, 0, 4, 0)
  }

  function SymbolsHeader(f: Image): Header {
    Header(0, SYMTAB, 0, 0, 4 * SymbolStart(f), 16 * |f.symbols|, 0, 0, 4, 16)
  }

  function EntriesHeader(f: Image): Header {
    Header(0, RELA, 0, 0, 4 * EntryStart(f), 12 * |f.relocations|, 3, 2, 4, 12)
  }

  function Headers(f: Image): (hs: seq<Header>)
    ensures |hs| == SectionCount(f) && hs[0] == NULL_HEADER && hs[1] == NAMES_HEADER && hs[2] == BootstrapHeader(f)
    ensures Linked(f) ==> hs[3] == SymbolsHeader(f) && hs[4] == EntriesHeader(f)
  {
    [NULL_HEADER, NAMES_HEADER, BootstrapHeader(f)] + if Linked(f) then [SymbolsHeader(f), EntriesHeader(f)] else []
  }

  function HeaderField(h: Header, m: nat): u32 {
    if m == 0 then h.nameOffset else if m == 1 then h.kind else if m == 2 then h.flags else if m == 3 then h.address
    else if m == 4 then h.fileOffset else if m == 5 then h.storedSize else if m == 6 then h.link
    else if m == 7 then h.info else if m == 8 then h.alignment else h.entrySize
  }

  /** Word `j` of the section headers. */
  function HeaderWord(f: Image, j: nat): u32 {
    if j < 10 * SectionCount(f) then HeaderField(Headers(f)[j / 10], j % 10) else 0
  }

  /** Word `k` of the image up to its section headers: ELF header, program header, names, bootstrap section. */
  function FrontWord(f: Image, k: nat): u32 {
    var t := TableWord(f);
    if k < 13 then
      [0x7F45_4C46, 0x0102_0100, 0, 0, 0x0003_0014, 1, 0, 52, 4 * t, 0, 0x0034_0020, 0x0001_0028,
       if Linked(f) then 0x0005_0001 else 0x0003_0001][k]
    else if k < 21 then [1, 0, 0x1000_0000, 0, 4 * (t + 32), 0x1000, 5, 0x1000][k - 13]
    else if 64 <= k < 71 then
      [0x002E_7368, 0x7374_7274, 0x6162_002E, 0x6365_6D6F, 0x642E_626F, 0x6F74_7374, 0x7261_7000][k - 64]
    else if 96 <= k < 99 + 6 * |f.records| then RecordWords(f.records)[k - 96]
    else 0
  }

  function FixtureWord(f: Image, k: nat): u32
    requires k < WordCount(f)
  {
    if k < TableWord(f) then FrontWord(f, k)
    else if k < SymbolStart(f) then HeaderWord(f, k - TableWord(f))
    else if k < EntryStart(f) then ElfSymbolWords(f.symbols)[k - SymbolStart(f)]
    else EntryWords(f.relocations, true)[k - EntryStart(f)]
  }

  function WordsOf(f: Image): (words: seq<u32>)
    ensures |words| == WordCount(f)
    ensures forall k :: 0 <= k < |words| ==> words[k] == FixtureWord(f, k)
  {
    seq(WordCount(f), k requires 0 <= k < WordCount(f) => FixtureWord(f, k))
  }

  function Fixture(f: Image): (elf: bytes)
    ensures |elf| == 4 * WordCount(f)
  {
    PackWords(WordsOf(f))
  }

  lemma WordIs(f: Image, k: nat)
    requires k < WordCount(f)
    ensures U32(Fixture(f), 4 * k) == FixtureWord(f, k)
  {
    hide PackWords, U32, FixtureWord;
    PackedWord(WordsOf(f), k);
  }

  lemma HalvesAre(f: Image, k: nat, high: u16, low: u16)
    requires k < WordCount(f) && FixtureWord(f, k) == high * 0x1_0000 + low
    ensures U16(Fixture(f), 4 * k) == high && U16(Fixture(f), 4 * k + 2) == low
  {
    hide Fixture, FixtureWord;
    WordIs(f, k);
  }

  lemma BytesAre(f: Image, k: nat, a: byte, b: byte, c: byte, d: byte)
    requires k < WordCount(f)
    requires FixtureWord(f, k) == ((a as int * 0x100 + b as int) * 0x100 + c as int) * 0x100 + d as int
    ensures var elf := Fixture(f);
            elf[4 * k] == a && elf[4 * k + 1] == b && elf[4 * k + 2] == c && elf[4 * k + 3] == d
  {
    hide Fixture, FixtureWord;
    WordIs(f, k);
  }

  /** A slice of the words is packed where it stands. */
  lemma SliceStands(f: Image, at: nat, words: seq<u32>)
    requires at + |words| <= WordCount(f) && forall k :: 0 <= k < |words| ==> words[k] == FixtureWord(f, at + k)
    ensures Stands(Fixture(f), 4 * at, PackWords(words))
  {
    hide PackWords, FixtureWord;
    PackedSlice(WordsOf(f), at, words);
  }

  lemma {:induction false} PackedSlice(all: seq<u32>, at: nat, words: seq<u32>)
    requires at + |words| <= |all| && forall k :: 0 <= k < |words| ==> words[k] == all[at + k]
    ensures Stands(PackWords(all), 4 * at, PackWords(words))
  {
    hide EncodeU32;
    assert all == all[..at] + words + all[at + |words|..];
    PackedAppend(all[..at], words);
    PackedAppend(all[..at] + words, all[at + |words|..]);
  }

  lemma {:induction false} PackedAppend(a: seq<u32>, b: seq<u32>)
    ensures PackWords(a + b) == PackWords(a) + PackWords(b)
  {
    hide EncodeU32;
    if b == [] {
      assert a + b == a;
    } else {
      var front := b[..|b| - 1];
      PackedAppend(a, front);
      assert (a + b)[..|a + b| - 1] == a + front;
    }
  }

  function TablesFor(f: Image): Tables {
    Tables(52, 32, 1, 4 * TableWord(f), 40, SectionCount(f), 1)
  }

  const SEGMENT: Segment := Segment(0x1000_0000, 0x1000, 5)
  // ----- header, segment and sections

  lemma IdentFields(f: Image)
    ensures FixtureWord(f, 0) == 0x7F45_4C46 && FixtureWord(f, 1) == 0x0102_0100 && FixtureWord(f, 4) == 0x0003_0014
    ensures FixtureWord(f, 5) == 1
  {
  }

  lemma FixtureIdent(f: Image)
    ensures IsPowerPcElf(Fixture(f))
  {
    hide Fixture, FixtureWord, U16, U32;
    IdentFields(f);
    BytesAre(f, 0, 0x7F, 0x45, 0x4C, 0x46);
    BytesAre(f, 1, 1, 2, 1, 0);
    HalvesAre(f, 4, 3, 20);
    WordIs(f, 5);
    assert Fixture(f)[..7] == ELF_IDENT;
  }

  lemma TableFields(f: Image)
    ensures FixtureWord(f, 7) == 52 && FixtureWord(f, 8) == 4 * TableWord(f) && FixtureWord(f, 10) == 0x0034_0020
    ensures FixtureWord(f, 11) == 0x0001_0028 && FixtureWord(f, 12) == SectionCount(f) * 0x1_0000 + 1
  {
  }

  lemma FixtureTables(f: Image)
    ensures TablesOf(Fixture(f)) == TablesFor(f) && TablesLegal(Fixture(f), TablesFor(f))
  {
    hide Fixture, FixtureWord, U16, U32;
    TableFields(f);
    WordIs(f, 7);
    WordIs(f, 8);
    HalvesAre(f, 10, 52, 32);
    HalvesAre(f, 11, 1, 40);
    HalvesAre(f, 12, SectionCount(f), 1);
  }

  lemma SegmentFields(f: Image)
    ensures FixtureWord(f, 13) == 1 && FixtureWord(f, 14) == 0 && FixtureWord(f, 15) == 0x1000_0000
    ensures FixtureWord(f, 17) == 4 * (TableWord(f) + 32) && FixtureWord(f, 18) == 0x1000 && FixtureWord(f, 19) == 5
  {
  }

  lemma FixtureSegment(f: Image)
    ensures TablesLegal(Fixture(f), TablesFor(f)) && IsLoad(Fixture(f), TablesFor(f), 0)
    ensures SegmentAt(Fixture(f), TablesFor(f), 0) == SEGMENT
    ensures SegmentLegal(Fixture(f), TablesFor(f), 0) <==> 4 * (TableWord(f) + 32) <= 0x1000
  {
    hide Fixture, FixtureWord, U16, U32, TablesLegal, TablesOf, AllBits, AnyBit;
    FixtureTables(f);
    SegmentFlags();
    SegmentFields(f);
    WordIs(f, 13);
    WordIs(f, 14);
    WordIs(f, 15);
    WordIs(f, 17);
    WordIs(f, 18);
    WordIs(f, 19);
  }

  lemma SegmentFlags()
    ensures SEGMENT.Executable() && !AllBits(5, SEGMENT_WRITE_EXEC)
  {
  }

  lemma OneSegment(segments: seq<Segment>)
    requires segments == [SEGMENT] && SEGMENT.Executable()
    ensures Apart(segments) && CodeBytes(segments) == 0x1000 && ImageBytes(segments) == 0x1000
  {
    hide AnyBit;
    assert segments[..0] == [] && Sizes(Extents(segments)) == [0x1000];
    assert Sum([0x1000]) == Sum([0x1000][..0]) + 0x1000;
  }

  lemma FixtureLoads(f: Image)
    ensures TablesLegal(Fixture(f), TablesFor(f)) && LoadsOf(Fixture(f), TablesFor(f)) == [SEGMENT]
  {
    hide Fixture, IsLoad, SegmentAt, SegmentLegal, TablesLegal, AnyBit, TablesOf;
    FixtureTables(f);
    FixtureSegment(f);
    var elf, t := Fixture(f), TablesFor(f);
    assert Loads(elf, t, 0) == [];
    assert LoadsOf(elf, t) == [] + [SEGMENT] == [SEGMENT];
  }

  lemma FixtureSegments(f: Image)
    ensures TablesLegal(Fixture(f), TablesFor(f)) && LoadsOf(Fixture(f), TablesFor(f)) == [SEGMENT]
    ensures SegmentsAccept(Fixture(f), TablesFor(f)) <==> 4 * (TableWord(f) + 32) <= 0x1000
  {
    hide Fixture, IsLoad, SegmentAt, SegmentLegal, TablesLegal, AnyBit, TablesOf, LoadsOf, Apart, CodeBytes,
      ImageBytes, TableWord;
    FixtureLoads(f);
    SegmentFlags();
    FixtureSegment(f);
    OneSegment([SEGMENT]);
  }

  lemma HeaderWordIs(f: Image, i: nat, m: nat)
    requires i < SectionCount(f) && m < 10
    ensures 4 * (TableWord(f) + 10 * i + m) + 4 <= |Fixture(f)|
    ensures U32(Fixture(f), 4 * (TableWord(f) + 10 * i + m)) == HeaderField(Headers(f)[i], m)
  {
    hide U32, Fixture, Headers, FrontWord, HeaderField;
    var j := 10 * i + m;
    assert j / 10 == i && j % 10 == m;
    WordIs(f, TableWord(f) + j);
  }

  lemma HeaderIs(f: Image, i: nat)
    requires i < SectionCount(f)
    ensures TablesLegal(Fixture(f), TablesFor(f))
    ensures SectionAt(Fixture(f), TablesFor(f), i) == Headers(f)[i]
  {
    hide Fixture, TablesOf, TablesLegal, TableWord, U32, Headers, SectionCount;
    FixtureTables(f);
    HeaderWordIs(f, i, 0);
    HeaderWordIs(f, i, 1);
    HeaderWordIs(f, i, 2);
    HeaderWordIs(f, i, 3);
    HeaderWordIs(f, i, 4);
    HeaderWordIs(f, i, 5);
    HeaderWordIs(f, i, 6);
    HeaderWordIs(f, i, 7);
    HeaderWordIs(f, i, 8);
    HeaderWordIs(f, i, 9);
  }

  lemma FixtureHeaders(f: Image)
    ensures TablesLegal(Fixture(f), TablesFor(f))
    ensures HeadersOf(Fixture(f), TablesFor(f)) == Headers(f)
  {
    hide Fixture, SectionAt, TablesLegal, Headers;
    FixtureTables(f);
    TableFits(f);
    forall i | 0 <= i < SectionCount(f)
      ensures SectionAt(Fixture(f), TablesFor(f), i) == Headers(f)[i]
    {
      HeaderIs(f, i);
    }
  }

  lemma TableFits(f: Image)
    ensures SectionTableFits(Fixture(f), TablesFor(f))
  {
    FixtureTables(f);
    hide Fixture;
  }

  /** `"\0.shstrtab\0.cemod.bootstrap\0"` */
  const STRINGS: bytes := [0, 0x2E, 0x73, 0x68, 0x73, 0x74, 0x72, 0x74, 0x61, 0x62, 0] + BOOTSTRAP_NAME + [0]

  lemma NameWords(f: Image)
    ensures FixtureWord(f, 64) == 0x002E_7368 && FixtureWord(f, 65) == 0x7374_7274
    ensures FixtureWord(f, 66) == 0x6162_002E && FixtureWord(f, 67) == 0x6365_6D6F
    ensures FixtureWord(f, 68) == 0x642E_626F && FixtureWord(f, 69) == 0x6F74_7374
    ensures FixtureWord(f, 70) == 0x7261_7000
  {
  }

  lemma FixtureStrings(f: Image)
    ensures ContentOf(Fixture(f), NAMES_HEADER) == STRINGS
  {
    hide Fixture, FixtureWord;
    NameWords(f);
    BytesAre(f, 64, 0x00, 0x2E, 0x73, 0x68);
    BytesAre(f, 65, 0x73, 0x74, 0x72, 0x74);
    BytesAre(f, 66, 0x61, 0x62, 0x00, 0x2E);
    BytesAre(f, 67, 0x63, 0x65, 0x6D, 0x6F);
    BytesAre(f, 68, 0x64, 0x2E, 0x62, 0x6F);
    BytesAre(f, 69, 0x6F, 0x74, 0x73, 0x74);
    BytesAre(f, 70, 0x72, 0x61, 0x70, 0x00);
    StringsAt(Fixture(f));
  }

  lemma StringsAt(elf: bytes)
    requires |elf| >= 284
    requires elf[256] == 0x00 && elf[257] == 0x2E && elf[258] == 0x73 && elf[259] == 0x68
    requires elf[260] == 0x73 && elf[261] == 0x74 && elf[262] == 0x72 && elf[263] == 0x74
    requires elf[264] == 0x61 && elf[265] == 0x62 && elf[266] == 0x00 && elf[267] == 0x2E
    requires elf[268] == 0x63 && elf[269] == 0x65 && elf[270] == 0x6D && elf[271] == 0x6F
    requires elf[272] == 0x64 && elf[273] == 0x2E && elf[274] == 0x62 && elf[275] == 0x6F
    requires elf[276] == 0x6F && elf[277] == 0x74 && elf[278] == 0x73 && elf[279] == 0x74
    requires elf[280] == 0x72 && elf[281] == 0x61 && elf[282] == 0x70 && elf[283] == 0x00
    ensures elf[256..284] == STRINGS
  {
  }

  /** A zero-free ASCII name between `offset` and the zero at `end`. */
  lemma NameIs(strings: bytes, offset: nat, end: nat)
    requires offset <= end < |strings| && strings[end] == 0
    requires forall k :: offset <= k < end ==> 0 < strings[k] < 0x80
    ensures NameAt(strings, offset) == Some(strings[offset..end])
  {
    var found := FindZero(strings, offset, |strings|);
    assert strings[end] == 0;
    assert found == Some(end);
  }

  lemma NameBytes()
    ensures |STRINGS| == 28 && STRINGS[0] == 0 && STRINGS[10] == 0 && STRINGS[27] == 0
    ensures forall k :: 1 <= k < 10 ==> 0 < STRINGS[k] < 0x80
    ensures forall k :: 11 <= k < 27 ==> 0 < STRINGS[k] < 0x80
    ensures STRINGS[11..27] == BOOTSTRAP_NAME
  {
    assert forall j :: 0 <= j < 16 ==> STRINGS[11 + j] == BOOTSTRAP_NAME[j] && 0 < BOOTSTRAP_NAME[j] < 0x80;
    forall k | 11 <= k < 27
      ensures 0 < STRINGS[k] < 0x80
    {
      assert STRINGS[11 + (k - 11)] == BOOTSTRAP_NAME[k - 11];
    }
  }

  lemma NamesRead()
    ensures |STRINGS| == 28
    ensures NameAt(STRINGS, 0) == Some([]) && NameAt(STRINGS, 11) == Some(BOOTSTRAP_NAME)
    ensures NameAt(STRINGS, 1).Some? && |NameAt(STRINGS, 1).value| == 9
  {
    NameBytes();
    hide STRINGS, BOOTSTRAP_NAME, NameAt;
    NameIs(STRINGS, 0, 0);
    NameIs(STRINGS, 1, 10);
    NameIs(STRINGS, 11, 27);
  }

  lemma NamesDiffer(a: Header, b: Header, c: Header)
    requires a.nameOffset == 0 && b.nameOffset == 1 && c.nameOffset == 11
    ensures NameAt(STRINGS, 0).Some? && NameAt(STRINGS, 1).Some? && NameAt(STRINGS, 11).Some?
    ensures !SameName(STRINGS, a, b) && !SameName(STRINGS, a, c) && !SameName(STRINGS, b, c)
    ensures IsBootstrap(STRINGS, c) && !IsBootstrap(STRINGS, a) && !IsBootstrap(STRINGS, b)
  {
    NamesRead();
    assert |BOOTSTRAP_NAME| == 16;
    hide STRINGS, BOOTSTRAP_NAME, NameAt;
  }

  lemma FixtureNames(f: Image)
    ensures NamesAccept(Headers(f), STRINGS)
    ensures forall i :: 0 <= i < SectionCount(f) ==> (IsBootstrap(STRINGS, Headers(f)[i]) <==> i == 2)
  {
    hide STRINGS, NameAt, SameName, IsBootstrap, Headers;
    var hs := Headers(f);
    NamesDiffer(hs[0], hs[1], hs[2]);
    NamesRead();
    forall i | 3 <= i < SectionCount(f)
      ensures NameAt(STRINGS, hs[i].nameOffset).Some? && !IsBootstrap(STRINGS, hs[i])
      ensures !SameName(STRINGS, hs[0], hs[i]) && !SameName(STRINGS, hs[1], hs[i]) && !SameName(STRINGS, hs[2], hs[i])
      ensures !SameName(STRINGS, hs[3], hs[i])
    {
      assert i == 3 || i == 4;
      Nameless(hs[i]);
      NamesDiffer(hs[i], hs[1], hs[2]);
      NamelessDiffer(hs[0], hs[i]);
      NamelessDiffer(hs[3], hs[i]);
      NamesLikeEmpty(hs[1], hs[2], hs[i]);
    }
  }

  lemma Nameless(h: Header)
    requires h.nameOffset == 0
    ensures NameAt(STRINGS, h.nameOffset) == Some([])
  {
    NamesRead();
  }

  lemma NamelessDiffer(a: Header, b: Header)
    requires a.nameOffset == 0
    ensures !SameName(STRINGS, a, b)
  {
    NamesRead();
    hide STRINGS, NameAt;
  }

  lemma NamesLikeEmpty(b: Header, c: Header, h: Header)
    requires b.nameOffset == 1 && c.nameOffset == 11 && h.nameOffset == 0
    ensures !SameName(STRINGS, b, h) && !SameName(STRINGS, c, h)
  {
    NamesRead();
    hide STRINGS, NameAt;
  }

  /** What is asked of a relocation: a strict type, a symbol there is, and bytes of the one segment. */
  predicate EntryLegal(f: Image, e: Entry) {
    && e.symbol < |f.symbols|
    && (e.kind == 0 || e.kind == 1 || e.kind == 4 || e.kind == 5 || e.kind == 6 || e.kind == 10 || e.kind == 22
        || e.kind == 26)
    && (e.kind == 4 || e.kind == 5 || e.kind == 6 ==> 0x1000_0000 <= e.offset <= 0x1000_0FFE)
    && (e.kind == 1 || e.kind == 10 || e.kind == 22 || e.kind == 26 ==> 0x1000_0000 <= e.offset <= 0x1000_0FFC)
  }

  predicate LinkageLegal(f: Image) {
    AllDefined(f.symbols) && forall k :: 0 <= k < |f.relocations| ==> EntryLegal(f, f.relocations[k])
  }

  lemma FixtureEntry(f: Image, e: Entry)
    ensures ElfEntryWorks([SEGMENT], e, |f.symbols|, STRICT_RELOCATIONS) <==> EntryLegal(f, e)
  {
    InImageExactly(e.offset, 2);
    InImageExactly(e.offset, 4);
    hide InImage;
  }

  lemma InImageExactly(address: nat, size: nat)
    ensures InImage([SEGMENT], address, size) <==> 0x1000_0000 <= address && address + size <= 0x1000_1000
  {
    assert [SEGMENT][0] == SEGMENT;
    assert Encloses([SEGMENT][0], address, size) <==> 0x1000_0000 <= address && address + size <= 0x1000_1000;
  }

  lemma LinkageStands(f: Image)
    requires Linked(f)
    ensures Stands(Fixture(f), 4 * SymbolStart(f), PackWords(ElfSymbolWords(f.symbols)))
    ensures Stands(Fixture(f), 4 * EntryStart(f), PackWords(EntryWords(f.relocations, true)))
  {
    hide PackWords, Fixture, ElfSymbolWords, EntryWords, TableWord;
    SliceStands(f, SymbolStart(f), ElfSymbolWords(f.symbols));
    SliceStands(f, EntryStart(f), EntryWords(f.relocations, true));
  }

  lemma FrontSections(f: Image)
    ensures SectionLegal(Fixture(f), Headers(f), NULL_HEADER, [SEGMENT], STRICT_RELOCATIONS)
    ensures SectionLegal(Fixture(f), Headers(f), NAMES_HEADER, [SEGMENT], STRICT_RELOCATIONS)
    ensures SectionLegal(Fixture(f), Headers(f), BootstrapHeader(f), [SEGMENT], STRICT_RELOCATIONS)
  {
    hide Fixture, Headers;
  }

  lemma LinkageSections(f: Image)
    requires Linked(f)
    ensures SectionLegal(Fixture(f), Headers(f), SymbolsHeader(f), [SEGMENT], STRICT_RELOCATIONS)
       <==> AllDefined(f.symbols)
    ensures SectionLegal(Fixture(f), Headers(f), EntriesHeader(f), [SEGMENT], STRICT_RELOCATIONS)
       <==> forall k :: 0 <= k < |f.relocations| ==> EntryLegal(f, f.relocations[k])
  {
    hide Fixture, Headers, PackWords, ElfSymbolWords, EntryWords, Stands, SectionLegal, ElfEntryWorks, EntryLegal;
    var elf, hs := Fixture(f), Headers(f);
    LinkageStands(f);
    assert hs[3] == SymbolsHeader(f) && 16 * |f.symbols| / 16 == |f.symbols|;
    ElfSymbolsExactly(elf, hs, SymbolsHeader(f), f.symbols, [SEGMENT], STRICT_RELOCATIONS);
    ElfRelocationsExactly(elf, hs, EntriesHeader(f), f.relocations, [SEGMENT], STRICT_RELOCATIONS);
    forall k | 0 <= k < |f.relocations|
      ensures ElfEntryWorks([SEGMENT], f.relocations[k], |f.symbols|, STRICT_RELOCATIONS)
         <==> EntryLegal(f, f.relocations[k])
    {
      FixtureEntry(f, f.relocations[k]);
    }
  }

  lemma FixtureSections(f: Image)
    ensures SectionsLegal(Fixture(f), Headers(f), [SEGMENT], STRICT_RELOCATIONS) <==> LinkageLegal(f)
  {
    hide Fixture, SectionLegal, EntryLegal, BootstrapHeader, SymbolsHeader, EntriesHeader;
    FrontSections(f);
    if Linked(f) {
      LinkageSections(f);
      assert Headers(f)[3] == SymbolsHeader(f) && Headers(f)[4] == EntriesHeader(f);
    }
  }

  // ----- the bootstrap section

  lemma InCodeExactly(address: nat, size: nat)
    ensures InCode([SEGMENT], address, size) <==> 0x1000_0000 <= address && address + size <= 0x1000_1000
  {
    assert [SEGMENT][0] == SEGMENT;
    assert Encloses([SEGMENT][0], address, size) <==> 0x1000_0000 <= address && address + size <= 0x1000_1000;
  }

  lemma RecordsStandThere(f: Image)
    ensures Stands(Fixture(f), 0x180, Cmb1Section(f.records))
  {
    hide PackWords, Fixture, RecordWords;
    SliceStands(f, 96, RecordWords(f.records));
  }

  /** The section is good exactly when there are 1 to 64 records, and the records when each of them fits. */
  lemma FixtureBootstrap(f: Image)
    ensures U32(Fixture(f), 0x180 + 8) == |f.records|
    ensures BootstrapHeaderLegal(Fixture(f), BootstrapHeader(f), [SEGMENT]) <==> 1 <= |f.records| <= 64
    ensures BootstrapHeaderLegal(Fixture(f), BootstrapHeader(f), [SEGMENT]) ==>
              (RecordsLegal(Fixture(f), BootstrapHeader(f), [SEGMENT]) <==>
                 forall k :: 0 <= k < |f.records| ==> RecordFits(f.records[k]))
  {
    hide Fixture, U32, Cmb1Section, Stands, BootstrapHeaderLegal, RecordsLegal, InImage, InCode;
    RecordsStandThere(f);
    RecordsStand(Fixture(f), 0x180, f.records);
    ElfRecordsExactly(Fixture(f), BootstrapHeader(f), f.records, [SEGMENT]);
    InImageExactly(0x1000_0100, 12 + 24 * |f.records|);
    forall k | 0 <= k < |f.records|
      ensures RecordWorks([SEGMENT], f.records[k]) <==> RecordFits(f.records[k])
    {
      InCodeExactly(f.records[k].handler, 4);
    }
    hide RecordWorks, RecordFits;
  }

  lemma FixtureBootstraps(f: Image)
    ensures BootstrapAccepts(Fixture(f), Headers(f), STRINGS, [SEGMENT]) <==>
              1 <= |f.records| <= 64 && forall k :: 0 <= k < |f.records| ==> RecordFits(f.records[k])
  {
    hide IsBootstrap, BootstrapHeaderLegal, RecordsLegal, Fixture, STRINGS, BootstrapHeader;
    FixtureNames(f);
    FixtureBootstrap(f);
    assert IsBootstrap(STRINGS, Headers(f)[2]);
  }

  // ----- the whole image

  lemma FixtureContents(f: Image)
    ensures TablesLegal(Fixture(f), TablesFor(f))
    ensures ContentsAccept(Fixture(f), TablesFor(f), STRICT_RELOCATIONS) <==>
              && 1 <= |f.records| <= 64 && (forall k :: 0 <= k < |f.records| ==> RecordFits(f.records[k]))
              && LinkageLegal(f)
  {
    hide Fixture, HeadersOf, LoadsOf, SegmentsAccept, NamesAccept, SectionsLegal, BootstrapAccepts, STRINGS, ContentOf,
      TablesLegal, LinkageLegal;
    FixtureSegments(f);
    FixtureHeaders(f);
    FixtureStrings(f);
    FixtureNames(f);
    FixtureSections(f);
    FixtureBootstraps(f);
    assert NameTableLegal(Fixture(f), NAMES_HEADER);
  }

  lemma BootstrapInFile(f: Image)
    ensures InFile(Fixture(f), BootstrapHeader(f))
  {
  }

  lemma FixtureTarget(f: Image, section: bytes, k: nat)
    requires InFile(Fixture(f), BootstrapHeader(f)) && section == ContentOf(Fixture(f), BootstrapHeader(f))
    requires k < |f.records|
    ensures |section| == 12 + 24 * |f.records| && U32(section, 8) == |f.records|
    ensures TargetOf(section, k) == f.records[k].target
  {
    hide U32, Fixture, Cmb1Section, Stands;
    RecordsStandThere(f);
    RecordsStand(Fixture(f), 0x180, f.records);
    RecordStands(Fixture(f), 0x180, f.records, k, 1);
    ContentWord(Fixture(f), BootstrapHeader(f), 8);
    ContentWord(Fixture(f), BootstrapHeader(f), 16 + k * 24);
  }

  /**
   For any CMB1 records, symbols and relocations, the validator accepts the image exactly when it is small enough,
   there are 1 to 64 records, each of them legal, every symbol but the first has a section, and every relocation is
   legal; the verifier then finds the records, and accepts them exactly when none has a zero target.
   */
  lemma FixtureAccepted(f: Image)
    ensures ElfAccepts(Fixture(f), STRICT_RELOCATIONS) <==>
              && |Fixture(f)| <= 10 * 1024 * 1024
              && 1 <= |f.records| <= 64 && (forall k :: 0 <= k < |f.records| ==> RecordFits(f.records[k]))
              && LinkageLegal(f)
    ensures ElfAccepts(Fixture(f), STRICT_RELOCATIONS) ==> VerifierReads(f)
  {
    hide Fixture, IsPowerPcElf, TablesOf, TablesLegal, ContentsAccept, VerifierReads, RecordFits, LinkageLegal;
    FixtureIdent(f);
    FixtureTables(f);
    FixtureContents(f);
    if ElfAccepts(Fixture(f), STRICT_RELOCATIONS) {
      FixtureVerified(f);
    }
  }

  /** The verifier finds the section, and its record loop passes exactly when every target is there. */
  ghost predicate VerifierReads(f: Image) {
    && Found(Fixture(f)).Some?
    && var section := Found(Fixture(f)).value;
    && Cmb1Header(section) && (Cmb1Records(section) <==> forall k :: 0 <= k < |f.records| ==> f.records[k].target != 0)
  }

  lemma FixtureVerified(f: Image)
    requires ElfAccepts(Fixture(f), STRICT_RELOCATIONS) && |f.records| >= 1
    ensures VerifierReads(f)
  {
    hide Fixture, Found, ElfAccepts, IsBootstrapOf, Cmb1Header, Cmb1Records, TargetOf, ContentOf, U32;
    FixtureFound(f);
    BootstrapAgreement(Fixture(f), STRICT_RELOCATIONS);
    var section := Found(Fixture(f)).value;
    FixtureTarget(f, section, 0);
    forall k | 0 <= k < |f.records|
      ensures 12 + (k + 1) * 24 <= |section| && TargetOf(section, k) == f.records[k].target
    {
      FixtureTarget(f, section, k);
    }
  }

  lemma FixtureFound(f: Image)
    requires ElfAccepts(Fixture(f), STRICT_RELOCATIONS)
    ensures InFile(Fixture(f), BootstrapHeader(f))
    ensures Found(Fixture(f)) == Some(ContentOf(Fixture(f), BootstrapHeader(f)))
  {
    hide Fixture, Found, TablesOf, TablesLegal, HeadersOf, STRINGS, IsBootstrap, ContentsAccept, ContentOf,
      BootstrapHeader;
    FixtureTables(f);
    FixtureHeaders(f);
    FixtureStrings(f);
    FixtureNames(f);
    assert IsBootstrap(STRINGS, Headers(f)[2]);
    BootstrapInFile(f);
    FinderAgrees(Fixture(f), STRICT_RELOCATIONS, BootstrapHeader(f));
  }

  // ----- the suite's own record

  const SUITE_RECORD: Record := Record(1, 0x1000_0120, 0x4E80_0421, 0xFFFF_FFFF, 0x1000_0120, 0)

  /** The image of the suite itself: 768 bytes, accepted by both. */
  lemma SuiteAccepted()
    ensures |Fixture(Suite([SUITE_RECORD]))| == 0x300
    ensures ElfAccepts(Fixture(Suite([SUITE_RECORD])), STRICT_RELOCATIONS) && VerifierReads(Suite([SUITE_RECORD]))
  {
    hide Fixture, ElfAccepts, VerifierReads;
    FixtureAccepted(Suite([SUITE_RECORD]));
  }

  /** An image with an undefined symbol behind the first one is refused, whatever its other bytes say. */
  lemma UndefinedSymbolIsRefused(f: Image, k: nat)
    requires 1 <= k < |f.symbols| && f.symbols[k].section == 0
    ensures !ElfAccepts(Fixture(f), STRICT_RELOCATIONS)
  {
    hide Fixture, ElfAccepts, VerifierReads, EntryLegal, RecordFits;
    FixtureAccepted(f);
  }
}
