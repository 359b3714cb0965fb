/** The test suite's plugin image, with any metadata, hooks, relocations and exports: exactly when it is accepted. */
module WpsFixture {
  import opened Bytes
  import opened Words
  import opened Intervals
  import opened Utf8
  import opened CStrings
  import opened SectionHeaders
  import opened WpsSections
  import opened WpsGeometry
  import opened WpsLayout
  import opened WpsMetadata
  import opened WpsDescriptors
  import opened WpsInspect
  import opened WpsPrinter
  import opened WpsTables
  import opened WpsAssembly
  import opened WpsExact

  const REGIONS: Regions := Regions(0x1000, 0x20, 0x2000, 0x1000, 0x1000)
  const REPLACEMENT: Replacement :=
    Replacement(1, 0, 0, 0x1000_0000, 2, 0x1000_0010, 0x0200_0000, 0x1000_0030, 16)

  /** The null symbol, then the imported function of section 6. */
  const SYMBOL_WORDS: seq<u32> := [0, 0, 0, 0, 1, 0xC000_0000, 0, 0x1200_0006]

  /** The names of the replaced function and of its replacement, and room for the call-through word. */
  function DataContent(): bytes {
    Encode("OSReport") + Zeros(8) + Encode("my_OSReport") + Zeros(37)
  }

  function StringContent(): bytes {
    [0] + Encode("OSReport") + [0]
  }

  /** Flags the section pass allows: the suite uses ALLOC | EXEC. */
  predicate FlagsLegal(flags: u32) {
    !AnyBit(flags, COMPRESSED) && !(AnyBit(flags, WRITE) && AnyBit(flags, EXEC))
  }

  /**
   What varies: metadata, hooks, the flags of the import section, the relocations of .text, and the exports, which
   are all functions or all data.
   */
  datatype VariantFields = Variant(metadata: bytes, hooks: seq<Hook>, imports: u32, relocations: seq<Entry>,
                                   functions: bool, exports: seq<Export>)

  predicate Packed(v: VariantFields) {
    && Packable(v.relocations) && ExportsPackable(v.exports)
    && forall k :: 0 <= k < |v.exports| ==> v.exports[k].isFunction == v.functions
  }

  type Variant = v: VariantFields | Packed(v) ghost witness (NothingVaries(); Variant([], [], 0, [], true, []))

  lemma NothingVaries()
    ensures Packed(Variant([], [], 0, [], true, []))
  {
  }

  /** The suite's own image has one hook, one relocation and no exports. */
  function Suite(metadata: bytes, hook: u32, imports: u32): (v: Variant)
    ensures v.metadata == metadata && v.hooks == [Hook(hook, 0x0200_0000)] && v.imports == imports
    ensures v.relocations == [Entry(0x0200_0000, 1, 1, 0)] && v.exports == []
  {
    NothingVaries();
    Variant(metadata, [Hook(hook, 0x0200_0000)], imports, [Entry(0x0200_0000, 1, 1, 0)], true, [])
  }

  function ExportParts(v: Variant): (parts: seq<Part>)
    ensures |parts| == if v.exports == [] then 0 else 1
  {
    if v.exports == [] then []
    else [Part(if v.functions then ".fexports" else ".dexports", RPL_EXPORTS, if v.functions then 4 else 0, 0, 0, 0, 4,
               ExportContent(v.exports, 0))]
  }

  function BaseParts(v: Variant): (parts: seq<Part>)
    ensures |parts| == 10
  {
    [Part("", 0, 0, 0, 0, 0, 0, []),
     Part(".text", PROGBITS, 6, 0x0200_0000, 0, 0, 4, [0x4E, 0x80, 0x00, 0x20]),
     Part(".data", PROGBITS, 3, 0x1000_0000, 0, 0, 4, DataContent()),
     Part(".wups.meta", PROGBITS, 3, 0x1000_0100, 0, 0, 4, v.metadata),
     Part(".wups.hooks", PROGBITS, 3, 0x1000_0200, 0, 0, 4, PackWords(HookWords(v.hooks))),
     Part(".wups.load", PROGBITS, 3, 0x1000_0300, 0, 0, 4, PackWords(ReplacementWords([REPLACEMENT]))),
     Part(".fimport_coreinit", RPL_IMPORTS, v.imports, 0xC000_0000, 0, 0, 16, Zeros(16)),
     Part(".rela.text", RELA, 0, 0, 8, 1, 4, PackWords(EntryWords(v.relocations, true))),
     Part(".symtab", SYMTAB, 0, 0, 9, 0, 4, PackWords(SYMBOL_WORDS)),
     Part(".strtab", STRTAB, 0, 0, 0, 0, 1, StringContent())]
  }

  /** The suite's sections, and the exports behind them if there are any. */
  function Parts(v: Variant): (parts: seq<Part>)
    ensures |parts| == 10 + |ExportParts(v)|
  {
    BaseParts(v) + ExportParts(v)
  }

  lemma PartsAre(v: Variant)
    ensures forall i :: 0 <= i < 10 ==> Parts(v)[i] == BaseParts(v)[i]
    ensures v.exports != [] ==> Parts(v)[10] == ExportParts(v)[0]
  {
    hide BaseParts, ExportParts;
  }

  // ----- exactly when it is accepted

  /** The word at `address` is code: the one of .text, or in the import section when that is allocated code. */
  predicate IsCode(v: Variant, address: nat) {
    || address == 0x0200_0000
    || (v.imports / 2 % 2 == 1 && v.imports / 4 % 2 == 1 && 0xC000_0000 <= address <= 0xC000_000C)
  }

  /** A guest byte of one of the sections. */
  predicate IsGuest(v: Variant, address: nat) {
    || 0x0200_0000 <= address < 0x0200_0004 || 0x1000_0000 <= address < 0x1000_0040
    || 0x1000_0100 <= address < 0x1000_0100 + |v.metadata| || 0x1000_0200 <= address < 0x1000_0200 + 8 * |v.hooks|
    || 0x1000_0300 <= address < 0x1000_0324
    || (v.imports / 2 % 2 == 1 && 0xC000_0000 <= address < 0xC000_0010)
  }

  predicate HookFits(v: Variant, hook: Hook) {
    hook.kind <= 26 && hook.target % 4 == 0 && IsCode(v, hook.target)
  }

  /** The patched bytes lie in the four bytes of .text, and the symbol is one of the two. */
  predicate EntryFits(e: Entry) {
    && e.symbol < 2 && 0x0200_0000 <= e.offset
    && if e.kind == 0 then e.offset <= 0x0200_0004
       else if e.kind as int in {4, 5, 6, 11, 251, 252, 253} then e.offset <= 0x0200_0002
       else e.kind as int in {1, 10, 68, 78} && e.offset == 0x0200_0000
  }

  predicate ExportFits(v: Variant, e: Export) {
    e.name != "" && if e.isFunction then e.address % 4 == 0 && IsCode(v, e.address) else IsGuest(v, e.address)
  }

  /** Terminated, and its records make legal metadata. */
  ghost predicate RecordsLegal(metadata: bytes) {
    && metadata != [] && metadata[|metadata| - 1] == 0
    && ReadRecords(metadata, 0, map[]).Some? && MetadataLegal(ReadRecords(metadata, 0, map[]).value)
  }

  ghost predicate HooksFit(v: Variant) {
    && (forall k :: 0 <= k < |v.hooks| ==> HookFits(v, v.hooks[k]))
    && (forall j, k :: 0 <= j < k < |v.hooks| ==> v.hooks[j].kind != v.hooks[k].kind)
  }

  ghost predicate ExportsFit(v: Variant) {
    && |v.exports| <= 4096 && (forall k :: 0 <= k < |v.exports| ==> ExportFits(v, v.exports[k]))
    && forall j, k :: 0 <= j < k < |v.exports| ==> v.exports[j].name != v.exports[k].name
  }

  ghost predicate RelocationsFit(v: Variant) {
    forall k :: 0 <= k < |v.relocations| ==> EntryFits(v.relocations[k])
  }

  /** Metadata and hooks below their neighbours, and all of them legal. */
  ghost predicate VariantLegal(v: Variant) {
    && RecordsLegal(v.metadata) && |v.metadata| <= 0x100
    && 1 <= |v.hooks| <= 32 && HooksFit(v)
    && RelocationsFit(v) && ExportsFit(v)
  }

  // ----- masks and names

  lemma Masks()
    ensures AllBits(6, CODE) && AllBits(3, STORAGE) && AnyBit(6, ALLOC) && AnyBit(3, ALLOC) && !AnyBit(0, ALLOC)
    ensures AnyBit(6, EXEC) && !AnyBit(3, EXEC) && !AnyBit(4, ALLOC)
  {
  }

  const BASE_NAMES: seq<string> :=
    ["", ".text", ".data", ".wups.meta", ".wups.hooks", ".wups.load", ".fimport_coreinit", ".rela.text", ".symtab",
     ".strtab"]

  lemma BaseNames(v: Variant)
    ensures |BASE_NAMES| == 10 && forall i :: 0 <= i < 10 ==> BaseParts(v)[i].name == BASE_NAMES[i]
  {
    hide PackWords, HookWords, ReplacementWords, EntryWords, DataContent, StringContent, Zeros;
  }

  /** The list of names the inspection reads. */
  ghost predicate NamedFixture(names: seq<string>, v: Variant) {
    && names == BASE_NAMES
                + (if v.exports == [] then [] else [if v.functions then ".fexports" else ".dexports"])
                + [".shstrtab", "", ""]
    && DistinctNames(names)
  }

  lemma FixtureNames(v: Variant)
    ensures AllNames(Parts(v)) == BASE_NAMES
              + (if v.exports == [] then [] else [if v.functions then ".fexports" else ".dexports"])
              + [".shstrtab", "", ""]
  {
    hide BaseParts, BASE_NAMES, ExportContent;
    PartsAre(v);
    BaseNames(v);
  }

  lemma FixtureNamesDiffer(v: Variant)
    ensures NamedFixture(AllNames(Parts(v)), v)
  {
    hide Parts, AllNames, ExportContent;
    FixtureNames(v);
  }

  // ----- the sections, as read back

  ghost predicate IsFixture(ss: seq<Section>, v: Variant) {
    && |ss| == |Parts(v)| + 3 && IsTrailer(ss)
    && forall i :: 0 <= i < |Parts(v)| ==> Prints(ss[i], i, Parts(v)[i])
  }

  lemma PrintedFixture(image: bytes, v: Variant, zlib: Zlib)
    requires IsImageOf(image, Parts(v), REGIONS, zlib)
    ensures var parts := Parts(v);
            && NamesFit(parts) && Fits(Completed(parts, REGIONS, zlib))
            && IsFixture(PrintedSections(Completed(parts, REGIONS, zlib)), v)
  {
    var parts := Parts(v);
    hide Parts, Prints, IsTrailer, PrintedSections, Fits, NamesFit;
    CompletedMeans(parts, REGIONS, zlib);
    PrintedTrailer(parts, REGIONS, zlib);
    forall i | 0 <= i < |parts|
      ensures Prints(PrintedSections(Completed(parts, REGIONS, zlib))[i], i, parts[i])
    {
      PrintedPart(parts, REGIONS, zlib, i);
    }
  }

  /** Which sections hold symbols, relocations, imports and exports. */
  ghost predicate Kinds(ss: seq<Section>, v: Variant) {
    && |ss| == 13 + |ExportParts(v)|
    && forall i :: 0 <= i < |ss| ==>
         && (HoldsSymbols(ss[i]) <==> i == 8) && (IsRelocationSection(ss[i]) <==> i == 7)
         && (ss[i].header.kind == RPL_IMPORTS <==> i == 6)
         && (ss[i].header.kind == RPL_EXPORTS <==> i == 10 && v.exports != [])
  }

  /** Flags, addresses and sizes of the sections; what is behind .fimport_coreinit is not allocated. */
  ghost predicate Places(ss: seq<Section>, v: Variant) {
    && |ss| == 13 + |ExportParts(v)|
    && (forall i :: 0 <= i < |ss| && (i < 1 || i > 6) ==> ss[i].header.flags == 0 || ss[i].header.flags == 4)
    && ss[1].header.kind == PROGBITS && ss[1].header.flags == 6
    && ss[1].header.address == 0x0200_0000 && ss[1].expandedSize == 4
    && (forall i :: 2 <= i < 6 ==> ss[i].header.kind == PROGBITS && ss[i].header.flags == 3)
    && ss[2].header.address == 0x1000_0000 && ss[2].expandedSize == 64
    && ss[3].header.address == 0x1000_0100 && ss[3].expandedSize == |v.metadata|
    && ss[4].header.address == 0x1000_0200 && ss[4].expandedSize == 8 * |v.hooks|
    && ss[5].header.address == 0x1000_0300 && ss[5].expandedSize == 36
    && ss[6].header.kind == RPL_IMPORTS && ss[6].header.flags == v.imports
    && ss[6].header.address == 0xC000_0000 && ss[6].expandedSize == 16
  }

  /** What is stored in the sections that are read again. */
  ghost predicate Stored(ss: seq<Section>, v: Variant) {
    && |ss| == 13 + |ExportParts(v)|
    && ss[2].data == DataContent() && ss[3].data == v.metadata && ss[4].data == PackWords(HookWords(v.hooks))
    && ss[5].data == PackWords(ReplacementWords([REPLACEMENT]))
    && ss[7].header.kind == RELA && ss[7].header.entrySize == 12 && ss[7].header.link == 8 && ss[7].header.info == 1
    && ss[7].data == PackWords(EntryWords(v.relocations, true))
    && ss[8].index == 8 && ss[8].header.kind == SYMTAB && ss[8].header.link == 9 && ss[8].header.entrySize == 16
    && ss[8].data == PackWords(SYMBOL_WORDS)
    && ss[9].header.kind == STRTAB && ss[9].data == StringContent()
    && (v.exports != [] ==>
          ss[10].data == ExportContent(v.exports, 0) && (IsExecutable(ss[10]) <==> v.functions))
  }

  /** Section `i` has this kind, flags, address and size. */
  predicate Is(s: Section, kind: u32, flags: u32, address: u32, size: nat) {
    && s.header.kind == kind && s.header.flags == flags && s.header.address == address && s.expandedSize == size
  }

  lemma BaseSections(ss: seq<Section>, v: Variant)
    requires IsFixture(ss, v)
    ensures |ss| == 13 + |ExportParts(v)|
    ensures Is(ss[0], 0, 0, 0, 0) && Is(ss[1], PROGBITS, 6, 0x0200_0000, 4) && Is(ss[2], PROGBITS, 3, 0x1000_0000, 64)
    ensures Is(ss[3], PROGBITS, 3, 0x1000_0100, |v.metadata|)
    ensures Is(ss[4], PROGBITS, 3, 0x1000_0200, 8 * |v.hooks|) && Is(ss[5], PROGBITS, 3, 0x1000_0300, 36)
    ensures Is(ss[6], RPL_IMPORTS, v.imports, 0xC000_0000, 16)
    ensures Is(ss[7], RELA, 0, 0, 12 * |v.relocations|) && Is(ss[8], SYMTAB, 0, 0, 32) && Is(ss[9], STRTAB, 0, 0, 10)
  {
    PartsAre(v);
    hide PackWords, HookWords, ReplacementWords, EntryWords, Zeros, DataContent, StringContent, ExportParts;
    DataLength();
    var parts := BaseParts(v);
    assert forall i :: 0 <= i < 10 ==> Prints(ss[i], i, parts[i]);
    assert Prints(ss[0], 0, parts[0]) && Prints(ss[1], 1, parts[1]) && Prints(ss[2], 2, parts[2]);
    assert Prints(ss[3], 3, parts[3]) && Prints(ss[4], 4, parts[4]) && Prints(ss[5], 5, parts[5]);
    assert Prints(ss[6], 6, parts[6]) && Prints(ss[7], 7, parts[7]) && Prints(ss[8], 8, parts[8]);
    assert Prints(ss[9], 9, parts[9]);
  }

  lemma OtherSections(ss: seq<Section>, v: Variant)
    requires IsFixture(ss, v)
    ensures |ss| == 13 + |ExportParts(v)|
    ensures v.exports != [] ==> ss[10].header.kind == RPL_EXPORTS && ss[10].header.flags == if v.functions then 4 else 0
    ensures var n := 10 + |ExportParts(v)|;
            && ss[n].header.kind == STRTAB && ss[n + 1].header.kind == RPL_CRCS
            && ss[n + 2].header.kind == RPL_FILEINFO
            && ss[n].header.flags == 0 && ss[n + 1].header.flags == 0 && ss[n + 2].header.flags == 0
  {
    PartsAre(v);
    hide BaseParts, ExportContent;
    if v.exports != [] {
      assert Prints(ss[10], 10, Parts(v)[10]);
    }
  }

  /** What the kind of section `i` says. */
  predicate KindFits(kind: u32, i: nat, v: Variant) {
    && (kind == SYMTAB || kind == DYNSYM <==> i == 8) && (kind == RELA || kind == REL <==> i == 7)
    && (kind == RPL_IMPORTS <==> i == 6) && (kind == RPL_EXPORTS <==> i == 10 && v.exports != [])
  }

  lemma KindIs(ss: seq<Section>, v: Variant, i: nat)
    requires IsFixture(ss, v) && i < |ss|
    ensures KindFits(ss[i].header.kind, i, v)
  {
    hide IsFixture, Parts;
    BaseSections(ss, v);
    OtherSections(ss, v);
    if i >= 10 && !(i == 10 && v.exports != []) {
      var n := 10 + |ExportParts(v)|;
      assert i == n || i == n + 1 || i == n + 2;
    }
  }

  lemma FixtureKinds(ss: seq<Section>, v: Variant)
    requires IsFixture(ss, v)
    ensures Kinds(ss, v)
  {
    hide IsFixture, KindFits, Parts, ExportParts;
    BaseSections(ss, v);
    forall i | 0 <= i < |ss|
      ensures KindFits(ss[i].header.kind, i, v)
    {
      KindIs(ss, v, i);
    }
    KindsFit(ss, v);
  }

  lemma KindsFit(ss: seq<Section>, v: Variant)
    requires |ss| == 13 + |ExportParts(v)| && forall i :: 0 <= i < |ss| ==> KindFits(ss[i].header.kind, i, v)
    ensures Kinds(ss, v)
  {
    hide ExportParts;
  }

  lemma NotAllocated(ss: seq<Section>, v: Variant, i: nat)
    requires IsFixture(ss, v) && i < |ss| && (i < 1 || i > 6)
    ensures ss[i].header.flags == 0 || ss[i].header.flags == 4
  {
    hide IsFixture, Parts;
    BaseSections(ss, v);
    OtherSections(ss, v);
    if i >= 10 && !(i == 10 && v.exports != []) {
      var n := 10 + |ExportParts(v)|;
      assert i == n || i == n + 1 || i == n + 2;
    }
  }

  lemma FixturePlaces(ss: seq<Section>, v: Variant)
    requires IsFixture(ss, v)
    ensures Places(ss, v)
  {
    hide IsFixture, Parts, ExportParts;
    BaseSections(ss, v);
    forall i | 0 <= i < |ss| && (i < 1 || i > 6)
      ensures ss[i].header.flags == 0 || ss[i].header.flags == 4
    {
      NotAllocated(ss, v, i);
    }
  }

  lemma FixtureStored(ss: seq<Section>, v: Variant)
    requires IsFixture(ss, v)
    ensures Stored(ss, v)
  {
    PartsAre(v);
    hide PackWords, HookWords, ReplacementWords, EntryWords, Zeros, DataContent, StringContent, ExportContent;
    var parts := BaseParts(v);
    assert forall i :: 0 <= i < 10 ==> Prints(ss[i], i, parts[i]);
    assert Prints(ss[2], 2, parts[2]) && Prints(ss[3], 3, parts[3]) && Prints(ss[4], 4, parts[4]);
    assert Prints(ss[5], 5, parts[5]) && Prints(ss[7], 7, parts[7]) && Prints(ss[8], 8, parts[8]);
    assert Prints(ss[9], 9, parts[9]);
    if v.exports != [] {
      assert Prints(ss[10], 10, ExportParts(v)[0]);
    }
  }

  lemma DataLength()
    ensures |DataContent()| == 64 && |StringContent()| == 10
  {
    AsciiLength("OSReport");
    AsciiLength("my_OSReport");
    hide Encode;
  }

  // ----- guest memory

  /** Where the allocated sections lie; the others take no guest memory. */
  ghost predicate FixtureLayout(rs: seq<Range>, metadataSize: nat, hookSize: nat) {
    && |rs| >= 13
    && rs[1] == Range(0x0200_0000, 4) && rs[2] == Range(0x1000_0000, 64)
    && (rs[3].size > 0 ==> rs[3] == Range(0x1000_0100, metadataSize)) && rs[3].size == metadataSize
    && (rs[4].size > 0 ==> rs[4] == Range(0x1000_0200, hookSize)) && rs[4].size == hookSize
    && rs[5] == Range(0x1000_0300, 36)
    && (rs[6].size > 0 ==> rs[6] == Range(0xC000_0000, 16))
    && forall i :: 0 <= i < |rs| && (i < 1 || i > 6) ==> rs[i].size == 0
  }

  lemma FixtureRanges(ss: seq<Section>, v: Variant)
    requires Places(ss, v)
    ensures FixtureLayout(GuestRanges(ss), |v.metadata|, 8 * |v.hooks|)
  {
    Masks();
    hide AnyBit, IsRelocationSection, HoldsSymbols;
    assert forall i :: 2 <= i < 6 ==> ss[i].header.flags == 3;
  }

  lemma LayoutDisjoint(rs: seq<Range>, metadataSize: nat, hookSize: nat)
    requires FixtureLayout(rs, metadataSize, hookSize) && hookSize > 0
    ensures Disjoint(rs) <==> metadataSize <= 0x100 && hookSize <= 0x100
  {
    if metadataSize > 0x100 {
      assert Overlap(rs[3], rs[4]);
    }
    if hookSize > 0x100 {
      assert Overlap(rs[4], rs[5]);
    }
  }

  /** Code, data and imports where the suite puts them. */
  predicate InPlace(s: Section) {
    || (s.header.kind == PROGBITS && s.header.flags == 6 && s.header.address == 0x0200_0000 && s.expandedSize == 4)
    || (s.header.kind == PROGBITS && s.header.flags == 3 && 0x1000_0000 <= s.header.address <= 0x1000_0300
        && s.expandedSize <= 0x100)
    || (s.header.kind == RPL_IMPORTS && s.header.address == 0xC000_0000 && s.expandedSize == 16)
  }

  lemma InPlaceLegal(s: Section, name: string)
    requires InPlace(s)
    ensures AddressLegal(s, name) && FitsRegion(s, REGIONS.Info())
  {
    Masks();
    hide AnyBit;
  }

  lemma FixtureInPlace(ss: seq<Section>, v: Variant, i: nat)
    requires Places(ss, v) && |v.metadata| <= 0x100 && |v.hooks| <= 32 && i < |ss| && ss[i].Allocated()
    ensures InPlace(ss[i])
  {
    Masks();
    hide AnyBit, ExportParts;
    if 2 <= i < 6 {
      assert i == 2 || i == 3 || i == 4 || i == 5;
    }
  }

  lemma FixtureAddressesLegal(ss: seq<Section>, names: seq<string>, v: Variant)
    requires Places(ss, v) && |names| == |ss| && |v.metadata| <= 0x100 && |v.hooks| <= 32
    ensures forall i :: 0 <= i < |ss| && ss[i].Allocated() ==> AddressLegal(ss[i], names[i])
  {
    hide Places, AddressLegal, FitsRegion, InPlace, AnyBit;
    forall i | 0 <= i < |ss| && ss[i].Allocated()
      ensures AddressLegal(ss[i], names[i])
    {
      FixtureInPlace(ss, v, i);
      InPlaceLegal(ss[i], names[i]);
    }
  }

  /** The sections lie where they may exactly when metadata and hooks stay below their neighbours. */
  lemma FixtureAddresses(ss: seq<Section>, names: seq<string>, v: Variant)
    requires Places(ss, v) && |names| == |ss| && v.hooks != []
    ensures AddressesAccept(ss, names) <==> |v.metadata| <= 0x100 && |v.hooks| <= 32
  {
    hide Places, AddressLegal, GuestRanges, FixtureLayout, Disjoint;
    FixtureRanges(ss, v);
    LayoutDisjoint(GuestRanges(ss), |v.metadata|, 8 * |v.hooks|);
    if |v.metadata| <= 0x100 && |v.hooks| <= 32 {
      FixtureAddressesLegal(ss, names, v);
    }
  }

  lemma FixtureRegions(ss: seq<Section>, v: Variant)
    requires Places(ss, v) && |v.metadata| <= 0x100 && |v.hooks| <= 32
    ensures RegionsAccept(ss, REGIONS.Info())
  {
    hide Places, AddressLegal, FitsRegion, InPlace, AnyBit, Regions.Info;
    forall i | 0 <= i < |ss| && ss[i].Allocated()
      ensures FitsRegion(ss[i], REGIONS.Info())
    {
      FixtureInPlace(ss, v, i);
      InPlaceLegal(ss[i], "");
    }
  }

  lemma Flagged(s: Section)
    ensures s.header.flags == 0 || s.header.flags == 4 ==> !IsAllocated(s)
    ensures s.header.flags == 3 ==> IsAllocated(s) && IsWritable(s) && !IsExecutable(s)
    ensures s.header.flags == 6 ==> IsAllocated(s) && IsExecutable(s)
  {
  }

  lemma SectionFlags(ss: seq<Section>, v: Variant, i: nat)
    requires Places(ss, v) && i < |ss|
    ensures IsAllocated(ss[i]) ==> 1 <= i <= 6
    ensures 1 <= i < 6 ==> IsAllocated(ss[i])
    ensures 2 <= i < 6 ==> IsWritable(ss[i]) && !IsExecutable(ss[i])
    ensures i == 1 ==> IsExecutable(ss[i])
  {
    hide IsAllocated, IsExecutable, IsWritable, ExportParts;
    Flagged(ss[i]);
  }

  /** The sections from .text to .fimport_coreinit, and what their flags mean. */
  lemma FixtureFlags(ss: seq<Section>, v: Variant)
    requires Places(ss, v)
    ensures |ss| > 6
    ensures forall i :: 0 <= i < |ss| && IsAllocated(ss[i]) ==> 1 <= i <= 6
    ensures forall i :: 1 <= i < 6 ==> IsAllocated(ss[i])
    ensures forall i :: 2 <= i < 6 ==> IsWritable(ss[i]) && !IsExecutable(ss[i])
    ensures IsExecutable(ss[1])
  {
    hide IsAllocated, IsExecutable, IsWritable, Places, ExportParts;
    forall i | 0 <= i < |ss|
      ensures IsAllocated(ss[i]) ==> 1 <= i <= 6
      ensures 1 <= i < 6 ==> IsAllocated(ss[i])
      ensures 2 <= i < 6 ==> IsWritable(ss[i]) && !IsExecutable(ss[i])
      ensures i == 1 ==> IsExecutable(ss[i])
    {
      SectionFlags(ss, v, i);
    }
    assert |ss| > 6 by { EnoughSections(ss, v); }
  }

  lemma EnoughSections(ss: seq<Section>, v: Variant)
    requires Places(ss, v)
    ensures |ss| >= 13
  {
  }

  lemma FixtureCode(ss: seq<Section>, v: Variant, address: nat)
    requires Places(ss, v)
    ensures CodeAt(ss, address, 4) <==> IsCode(v, address)
  {
    FixtureFlags(ss, v);
    assert Encloses(ss[1], address, 4) <==> address == 0x0200_0000;
    assert Encloses(ss[6], address, 4) <==> 0xC000_0000 <= address <= 0xC000_000C;
    assert IsAllocated(ss[6]) && IsExecutable(ss[6]) <==> v.imports / 2 % 2 == 1 && v.imports / 4 % 2 == 1;
    hide Encloses, IsAllocated, IsExecutable, IsWritable, Places;
  }

  /** The guest bytes of section `i`. */
  predicate IsGuestIn(v: Variant, i: nat, address: nat) {
    if i == 1 then 0x0200_0000 <= address < 0x0200_0004
    else if i == 2 then 0x1000_0000 <= address < 0x1000_0040
    else if i == 3 then 0x1000_0100 <= address < 0x1000_0100 + |v.metadata|
    else if i == 4 then 0x1000_0200 <= address < 0x1000_0200 + 8 * |v.hooks|
    else if i == 5 then 0x1000_0300 <= address < 0x1000_0324
    else i == 6 && v.imports / 2 % 2 == 1 && 0xC000_0000 <= address < 0xC000_0010
  }

  lemma SectionGuest(ss: seq<Section>, v: Variant, i: nat, address: nat)
    requires Places(ss, v) && i < |ss|
    ensures IsAllocated(ss[i]) && Encloses(ss[i], address, 1) <==> IsGuestIn(v, i, address)
  {
    hide ExportParts, IsExecutable, IsWritable;
    SectionFlags(ss, v, i);
    if i == 6 {
      assert IsAllocated(ss[6]) <==> v.imports / 2 % 2 == 1;
    }
    hide IsAllocated;
    assert i == 1 || i == 2 || i == 3 || i == 4 || i == 5 || i == 6 || !IsAllocated(ss[i]);
  }

  lemma FixtureGuest(ss: seq<Section>, v: Variant, address: nat)
    requires Places(ss, v)
    ensures GuestAt(ss, address, 1) <==> IsGuest(v, address)
  {
    forall i | 0 <= i < |ss|
      ensures IsAllocated(ss[i]) && Encloses(ss[i], address, 1) <==> IsGuestIn(v, i, address)
    {
      SectionGuest(ss, v, i, address);
    }
    hide IsAllocated, Encloses;
    assert |ss| > 6;
    hide Places;
    GuestIn(v, address);
    if i: nat :| i <= 6 && IsGuestIn(v, i, address) {
      assert IsAllocated(ss[i]) && Encloses(ss[i], address, 1);
    }
  }

  lemma GuestIn(v: Variant, address: nat)
    ensures IsGuest(v, address) <==> exists i: nat :: i <= 6 && IsGuestIn(v, i, address)
    ensures forall i: nat :: IsGuestIn(v, i, address) ==> i <= 6
  {
    var i := if address < 0x1000_0000 then 1 else if address < 0x1000_0040 then 2
             else if 0x1000_0100 <= address < 0x1000_0100 + |v.metadata| then 3
             else if 0x1000_0200 <= address < 0x1000_0200 + 8 * |v.hooks| then 4
             else if 0x1000_0300 <= address < 0x1000_0324 then 5 else 6;
    assert IsGuest(v, address) ==> IsGuestIn(v, i, address);
  }

  // ----- descriptors

  lemma FixtureNamed(names: seq<string>, v: Variant)
    requires NamedFixture(names, v)
    ensures |names| == 13 + |ExportParts(v)| && DistinctNames(names)
    ensures names[1] == ".text" && names[3] == ".wups.meta" && names[4] == ".wups.hooks" && names[5] == ".wups.load"
    ensures names[6] == ".fimport_coreinit"
  {
    hide DistinctNames, ExportContent;
  }

  lemma FixtureByName(ss: seq<Section>, names: seq<string>, v: Variant)
    requires |ss| == 13 + |ExportParts(v)| && NamedFixture(names, v)
    ensures |names| == |ss|
    ensures ByName(ss, names, ".wups.meta") == Some(ss[3])
    ensures ByName(ss, names, ".wups.hooks") == Some(ss[4])
    ensures ByName(ss, names, ".wups.load") == Some(ss[5])
  {
    hide ByName, DistinctNames, NamedFixture, ExportParts;
    FixtureNamed(names, v);
    DistinctByName(ss, names, 3);
    DistinctByName(ss, names, 4);
    DistinctByName(ss, names, 5);
  }

  /** What is known of the sections and their names when the descriptors are read. */
  ghost predicate Known(ss: seq<Section>, names: seq<string>, v: Variant) {
    && Kinds(ss, v) && Places(ss, v) && Stored(ss, v) && |names| == |ss|
    && names[1] == ".text" && names[6] == ".fimport_coreinit"
    && ByName(ss, names, ".wups.meta") == Some(ss[3]) && ByName(ss, names, ".wups.hooks") == Some(ss[4])
    && ByName(ss, names, ".wups.load") == Some(ss[5])
  }

  lemma FixtureKnown(ss: seq<Section>, names: seq<string>, v: Variant)
    requires IsFixture(ss, v) && NamedFixture(names, v)
    ensures Known(ss, names, v)
  {
    FixtureKinds(ss, v);
    FixturePlaces(ss, v);
    FixtureStored(ss, v);
    hide IsFixture, Kinds, Places, ByName, NamedFixture, PackWords, ReplacementWords, StringContent, DataContent;
    FixtureNamed(names, v);
    FixtureByName(ss, names, v);
  }

  lemma FixtureMetadata(ss: seq<Section>, names: seq<string>, v: Variant)
    requires Known(ss, names, v)
    ensures ReadMetadata(ss, names).Some? <==> RecordsLegal(v.metadata)
    ensures RecordsLegal(v.metadata) ==> ReadMetadata(ss, names) == ReadRecords(v.metadata, 0, map[])
  {
    Masks();
    hide ByName, ReadRecords, MetadataLegal, AnyBit, PackWords, StringContent, DataContent, ExportContent,
      IsRelocationSection, HoldsSymbols;
  }

  /** The hook table is there, in an allocated section of program bits. */
  ghost predicate HooksThere(ss: seq<Section>, names: seq<string>, v: Variant) {
    && Places(ss, v) && |names| == |ss| > 10 && ByName(ss, names, ".wups.hooks") == Some(ss[4])
    && ss[4].data == PackWords(HookWords(v.hooks)) && ss[4].header.kind == PROGBITS && IsAllocated(ss[4])
  }

  lemma KnownHooks(ss: seq<Section>, names: seq<string>, v: Variant)
    requires Known(ss, names, v)
    ensures HooksThere(ss, names, v)
  {
    hide ByName, PackWords, HookWords, StringContent, DataContent, ExportContent, ExportParts, IsRelocationSection,
      HoldsSymbols, Kinds, IsExecutable;
  }

  lemma FixtureHooks(ss: seq<Section>, names: seq<string>, v: Variant)
    requires Known(ss, names, v)
    ensures HooksAccept(ss, names) <==> 1 <= |v.hooks| <= 64 && HooksFit(v)
    ensures HooksOf(ss, names) == v.hooks
  {
    hide Known, ByName, PackWords, HookWords, IsCode, CodeAt, HooksAccept, HooksOf, Places, IsAllocated;
    KnownHooks(ss, names, v);
    HooksExactly(ss, names, ss[4], v.hooks);
    forall k | 0 <= k < |v.hooks|
      ensures HookWorks(ss, v.hooks[k]) <==> HookFits(v, v.hooks[k])
    {
      FixtureCode(ss, v, v.hooks[k].target);
    }
    hide HookWorks, HookFits;
  }

  /** The two names in the data section. */
  lemma DataNames()
    ensures CString(DataContent(), 0, 255) == Some("OSReport")
    ensures CString(DataContent(), 16, 255) == Some("my_OSReport")
  {
    AsciiLength("OSReport");
    AsciiLength("my_OSReport");
    hide Encode, CString;
    var data := DataContent();
    assert data[0..8] == Encode("OSReport") && data[8] == 0;
    assert data[16..27] == Encode("my_OSReport") && data[27] == 0;
    CStringReads(data, 0, 255, "OSReport");
    CStringReads(data, 16, 255, "my_OSReport");
  }

  lemma DataShows(ss: seq<Section>, v: Variant, address: nat)
    requires Places(ss, v) && ss[2].data == DataContent() && 0x1000_0000 <= address < 0x1000_0040
    ensures !Shows(ss[0], address) && !Shows(ss[1], address) && Shows(ss[2], address)
    ensures ss[2].header.address == 0x1000_0000
  {
    Masks();
    DataLength();
    hide AnyBit, DataContent;
  }

  lemma NamesShown(ss: seq<Section>, v: Variant)
    requires Places(ss, v) && ss[2].data == DataContent()
    ensures GuestString(ss, 0x1000_0000) == Some("OSReport")
    ensures GuestString(ss, 0x1000_0010) == Some("my_OSReport")
  {
    hide DataContent, CString, GuestString, Shows, ExportParts;
    DataNames();
    DataShows(ss, v, 0x1000_0000);
    DataShows(ss, v, 0x1000_0010);
    ThirdShows(ss, 0x1000_0000);
    ThirdShows(ss, 0x1000_0010);
  }

  lemma ThirdShows(ss: seq<Section>, address: nat)
    requires |ss| >= 3 && !Shows(ss[0], address) && !Shows(ss[1], address) && Shows(ss[2], address)
    ensures GuestString(ss, address) == CString(ss[2].data, address - ss[2].header.address, 255)
  {
    hide CString, Shows;
    var rest := ss[1..][1..];
    assert rest[0] == ss[2];
    assert GuestString(ss, address) == GuestString(ss[1..], address) == GuestString(rest, address);
  }

  lemma FixtureStorage(ss: seq<Section>, v: Variant)
    requires Places(ss, v)
    ensures StorageAt(ss, 0x1000_0030, 4)
  {
    FixtureFlags(ss, v);
    assert Encloses(ss[2], 0x1000_0030, 4);
    hide IsAllocated, IsWritable, IsExecutable, Encloses, Places;
    assert |ss| > 2;
  }

  lemma FixtureReplacementWorks(ss: seq<Section>, v: Variant)
    requires Places(ss, v) && ss[2].data == DataContent()
    ensures ReplacementWorks(ss, REPLACEMENT)
  {
    hide GuestString, CodeAt, StorageAt, DataContent, Places;
    NamesShown(ss, v);
    FixtureCode(ss, v, 0x0200_0000);
    FixtureStorage(ss, v);
  }

  /** The load table is there, in an allocated section of program bits. */
  ghost predicate LoadThere(ss: seq<Section>, names: seq<string>, v: Variant) {
    && Places(ss, v) && |names| == |ss| > 10 && ByName(ss, names, ".wups.load") == Some(ss[5])
    && ss[2].data == DataContent() && ss[5].data == PackWords(ReplacementWords([REPLACEMENT]))
    && ss[5].header.kind == PROGBITS && IsAllocated(ss[5])
  }

  lemma KnownLoad(ss: seq<Section>, names: seq<string>, v: Variant)
    requires Known(ss, names, v)
    ensures LoadThere(ss, names, v)
  {
    hide ByName, PackWords, ReplacementWords, StringContent, DataContent, ExportContent, ExportParts,
      IsRelocationSection, HoldsSymbols, Kinds, IsExecutable;
  }

  lemma FixtureReplacement(ss: seq<Section>, names: seq<string>, v: Variant)
    requires Known(ss, names, v)
    ensures ReplacementsAccept(ss, names) && ReplacementsOf(ss, names) == [REPLACEMENT]
  {
    hide Known, ByName, PackWords, ReplacementWords, DataContent, ReplacementWorks, ReplacementsAccept, ReplacementsOf,
      Places, IsAllocated;
    KnownLoad(ss, names, v);
    FixtureReplacementWorks(ss, v);
    ReplacementsExactly(ss, names, ss[5], [REPLACEMENT]);
  }

  // ----- symbols, relocations, exports

  lemma SymbolFields(data: bytes)
    requires data == PackWords(SYMBOL_WORDS)
    ensures U32(data, 0) == 0 && U32(data, 4) == 0 && U32(data, 8) == 0 && data[12] == 0 && U16(data, 14) == 0
    ensures U32(data, 16) == 1 && U32(data, 20) == 0xC000_0000 && U32(data, 24) == 0
    ensures data[28] == 0x12 && U16(data, 30) == 6
  {
    hide PackWords, U32, U16;
    PackedWord(SYMBOL_WORDS, 0);
    PackedWord(SYMBOL_WORDS, 1);
    PackedWord(SYMBOL_WORDS, 2);
    PackedWord(SYMBOL_WORDS, 3);
    PackedWord(SYMBOL_WORDS, 4);
    PackedWord(SYMBOL_WORDS, 5);
    PackedWord(SYMBOL_WORDS, 6);
    PackedWord(SYMBOL_WORDS, 7);
    InfoAndSection(data, 12, 0, 0, 0);
    InfoAndSection(data, 28, 0x12, 0, 6);
  }

  lemma StringsRead()
    ensures CString(StringContent(), 0, 1024) == Some("") && CString(StringContent(), 1, 1024) == Some("OSReport")
    ensures StringContent() != [] && StringContent()[|StringContent()| - 1] == 0
  {
    AsciiLength("OSReport");
    assert Encode("") == [];
    hide Encode, CString;
    var data := StringContent();
    assert data[1..9] == Encode("OSReport");
    CStringReads(data, 0, 1024, "");
    CStringReads(data, 1, 1024, "OSReport");
  }

  const IMPORT: Import := Import("coreinit", "OSReport", true)

  lemma ImportRead(s: Section)
    requires s.header.address == 0xC000_0000 && s.expandedSize == 16
    ensures ImportOf(s, ".fimport_coreinit", "OSReport", 0xC000_0000, 0x12) == Some(IMPORT)
  {
    assert ".fimport_coreinit"[9..] == "coreinit" && Identifier("coreinit", 64);
  }

  const NULL_SYMBOL: Symbol := Symbol("", 0, 0, 0, 0, None)
  const IMPORTED_SYMBOL: Symbol := Symbol("OSReport", 0xC000_0000, 0, 0x12, 6, Some(IMPORT))

  lemma TwoSymbols(ss: seq<Section>, names: seq<string>)
    requires |names| == |ss| >= 13 && names[6] == ".fimport_coreinit"
    requires ss[0].header.kind != RPL_IMPORTS && ss[6].header.kind == RPL_IMPORTS
    requires ss[6].header.address == 0xC000_0000 && ss[6].expandedSize == 16
    ensures SymbolAt(ss, names, StringContent(), PackWords(SYMBOL_WORDS), 0) == Some(NULL_SYMBOL)
    ensures SymbolAt(ss, names, StringContent(), PackWords(SYMBOL_WORDS), 1) == Some(IMPORTED_SYMBOL)
  {
    hide PackWords, StringContent, CString, U32, U16, ImportOf;
    StringsRead();
    SymbolFields(PackWords(SYMBOL_WORDS));
    ImportRead(ss[6]);
  }

  /** The symbol table, its strings and the import section. */
  ghost predicate SymbolsThere(ss: seq<Section>, names: seq<string>) {
    && |names| == |ss| >= 13 && names[6] == ".fimport_coreinit"
    && ss[0].header.kind != RPL_IMPORTS && ss[6].header.kind == RPL_IMPORTS
    && ss[6].header.address == 0xC000_0000 && ss[6].expandedSize == 16
    && (forall i :: 0 <= i < |ss| ==> (HoldsSymbols(ss[i]) <==> i == 8))
    && ss[8].index == 8 && ss[8].header.link == 9 && ss[8].header.entrySize == 16
    && ss[8].data == PackWords(SYMBOL_WORDS)
    && ss[9].header.kind == STRTAB && ss[9].data == StringContent()
  }

  lemma KnownSymbols(ss: seq<Section>, names: seq<string>, v: Variant)
    requires Known(ss, names, v)
    ensures SymbolsThere(ss, names)
  {
    hide ByName, PackWords, StringContent, DataContent, ExportContent, ExportParts, HoldsSymbols, IsRelocationSection,
      IsExecutable;
  }

  lemma FixtureSymbols(ss: seq<Section>, names: seq<string>, v: Variant)
    requires Known(ss, names, v)
    ensures SymbolsAccept(ss, names) && SymbolSections(ss) == [ss[8]] && ss[8].index == 8
    ensures SymbolsOf(ss, names) == [NULL_SYMBOL, IMPORTED_SYMBOL]
  {
    hide Known;
    KnownSymbols(ss, names, v);
    SymbolsRead(ss, names);
  }

  lemma SymbolsRead(ss: seq<Section>, names: seq<string>)
    requires SymbolsThere(ss, names)
    ensures SymbolsAccept(ss, names) && SymbolSections(ss) == [ss[8]]
    ensures SymbolsOf(ss, names) == [NULL_SYMBOL, IMPORTED_SYMBOL]
  {
    hide PackWords, StringContent, SymbolAt, SymbolSections, HoldsSymbols;
    StringsRead();
    TwoSymbols(ss, names);
    OneSymbolSection(ss, 8);
  }

  lemma FixtureEntry(ss: seq<Section>, v: Variant, e: Entry)
    requires Places(ss, v)
    ensures EntryWorks(ss[1], e, 2) <==> EntryFits(e)
  {
    hide IsRelocationSection, HoldsSymbols;
  }

  lemma FixtureRelocations(ss: seq<Section>, names: seq<string>, v: Variant)
    requires Known(ss, names, v)
    ensures RelocationsAccept(ss, names, 8, 2) <==> RelocationsFit(v)
    ensures RelocationsOf(ss, names, |ss|) == AllReadAs(v.relocations, ".text")
  {
    hide ByName, PackWords, EntryWords, StringContent, DataContent, ExportContent, RelocationsOf, RelocationTableLegal,
      RelocationTable, HoldsSymbols, EntryWorks, EntryFits;
    RelocationsExactly(ss, names, ss[7], v.relocations, 8, 2);
    OneRelocationTable(ss, names, 7, |ss|);
    forall k | 0 <= k < |v.relocations|
      ensures EntryWorks(ss[1], v.relocations[k], 2) <==> EntryFits(v.relocations[k])
    {
      FixtureEntry(ss, v, v.relocations[k]);
    }
  }

  lemma {:induction false} OneRelocationTable(ss: seq<Section>, names: seq<string>, at: nat, n: nat)
    requires |names| == |ss| && at < |ss| && n <= |ss|
    requires forall i :: 0 <= i < |ss| ==> (IsRelocationSection(ss[i]) <==> i == at)
    ensures RelocationsOf(ss, names, n) == if n <= at then [] else RelocationTable(ss, names, ss[at])
  {
    hide RelocationTable, IsRelocationSection;
    if n > 0 {
      OneRelocationTable(ss, names, at, n - 1);
    }
  }

  lemma FixtureExport(ss: seq<Section>, v: Variant, e: Export)
    requires Places(ss, v)
    ensures ExportWorks(ss, e) <==> ExportFits(v, e)
  {
    hide Places, IsCode, IsGuest, CodeAt, GuestAt;
    FixtureCode(ss, v, e.address);
    FixtureGuest(ss, v, e.address);
  }

  /** The export table, if there are exports. */
  ghost predicate ExportsThere(ss: seq<Section>, v: Variant) {
    && Places(ss, v) && |ss| > 10
    && (forall i :: 0 <= i < |ss| ==> (ss[i].header.kind == RPL_EXPORTS <==> i == 10 && v.exports != []))
    && (v.exports != [] ==>
          ss[10].data == ExportContent(v.exports, 0) && (IsExecutable(ss[10]) <==> v.functions))
  }

  lemma KnownExports(ss: seq<Section>, names: seq<string>, v: Variant)
    requires Known(ss, names, v)
    ensures ExportsThere(ss, v)
  {
    hide ByName, PackWords, StringContent, DataContent, ExportContent, ExportParts, HoldsSymbols, IsRelocationSection,
      IsExecutable, Places;
  }

  lemma FixtureExports(ss: seq<Section>, names: seq<string>, v: Variant)
    requires Known(ss, names, v)
    ensures ExportsAccept(ss) <==> ExportsFit(v)
    ensures ExportsAccept(ss) ==> ExportsOf(ss, |ss|) == v.exports
  {
    hide Known, ExportContent, ExportsAccept, ExportsOf, ExportWorks, ExportFits, IsExecutable, Places;
    KnownExports(ss, names, v);
    if v.exports == [] {
      NoExportsAccepted(ss);
    } else {
      ExportsExactly(ss, 10, v.exports, 0);
      forall k | 0 <= k < |v.exports|
        ensures ExportWorks(ss, v.exports[k]) <==> ExportFits(v, v.exports[k])
      {
        FixtureExport(ss, v, v.exports[k]);
      }
    }
  }

  // ----- the whole image

  lemma FixtureDescriptors(ss: seq<Section>, names: seq<string>, v: Variant)
    requires Known(ss, names, v)
    ensures DescriptorsAccept(ss, names) <==>
              && RecordsLegal(v.metadata) && 1 <= |v.hooks| <= 64 && HooksFit(v) && RelocationsFit(v)
              && ExportsFit(v)
  {
    hide Known, RecordsLegal, ReadMetadata, HooksAccept, ReplacementsAccept, SymbolsAccept, RelocationsAccept,
      ExportsAccept, SymbolSections, SymbolsOf, HooksOf, ReplacementsOf, HooksFit, RelocationsFit, ExportsFit;
    FixtureMetadata(ss, names, v);
    FixtureHooks(ss, names, v);
    FixtureReplacement(ss, names, v);
    FixtureSymbols(ss, names, v);
    FixtureRelocations(ss, names, v);
    FixtureExports(ss, names, v);
  }

  /** What the image says: its sections, and what is read out of them. */
  ghost predicate ReportsFixture(report: Report, v: Variant) {
    && IsFixture(report.geometry.sections, v)
    && Some(report.metadata) == ReadRecords(v.metadata, 0, map[])
    && report.hooks == v.hooks && report.replacements == [REPLACEMENT]
    && report.symbols == [NULL_SYMBOL, IMPORTED_SYMBOL]
    && report.relocations == AllReadAs(v.relocations, ".text") && report.exports == v.exports
  }

  /** Accepted, with this report. */
  ghost predicate AcceptedFixture(image: bytes, zlib: Zlib, v: Variant) {
    WpsAccepts(image, zlib) && ReportsFixture(ReportOf(image, zlib), v)
  }

  /**
   The image is accepted exactly when its metadata is legal, and metadata and hooks fit below what is behind them;
   hooks enter code and are known and different; relocations patch .text; and exports lie in code or guest memory
   under different names. The report then holds what was printed.
   */
  lemma FixtureAccepted(image: bytes, v: Variant, zlib: Zlib)
    requires IsImageOf(image, Parts(v), REGIONS, zlib)
    ensures WpsAccepts(image, zlib) <==> VariantLegal(v)
    ensures WpsAccepts(image, zlib) ==> AcceptedFixture(image, zlib, v)
  {
    hide ReportsFixture, ReportOf, IsImageOf, Parts, GeometryAccepts, GeometryOf, DescriptorsAccept, RecordsLegal,
      IsFixture, NamedFixture, AddressesAccept, RegionsAccept, DistinctNames, AllNames, PrintedSections, Known,
      Kinds, Places, HooksFit, RelocationsFit, ExportsFit, PrintedGeometry, Regions.Legal, Regions.Info, Completed;
    CompletedGeometry(image, Parts(v), REGIONS, zlib);
    PrintedFixture(image, v, zlib);
    FixturePlaced(v, zlib);
    var g := PrintedGeometry(Parts(v), REGIONS, zlib);
    FixtureDescriptors(g.sections, g.names, v);
    if WpsAccepts(image, zlib) {
      FixtureReport(image, v, zlib);
    }
  }

  /** The printed geometry is that of the fixture, and legal when metadata and hooks fit. */
  lemma FixturePlaced(v: Variant, zlib: Zlib)
    requires NamesFit(Parts(v)) && Fits(Completed(Parts(v), REGIONS, zlib))
    requires IsFixture(PrintedSections(Completed(Parts(v), REGIONS, zlib)), v)
    ensures var g := PrintedGeometry(Parts(v), REGIONS, zlib);
            && |g.names| == |g.sections| && IsFixture(g.sections, v) && Known(g.sections, g.names, v)
            && (v.hooks != [] ==> (PlacedLegally(g, REGIONS) <==> |v.metadata| <= 0x100 && |v.hooks| <= 32))
  {
    hide IsFixture, NamedFixture, AddressesAccept, RegionsAccept, DistinctNames, AllNames, PrintedSections, Kinds,
      Places, Parts, Fits, NamesFit, Completed, Stored, ByName;
    var g := PrintedGeometry(Parts(v), REGIONS, zlib);
    FixtureNamesDiffer(v);
    FixtureNamed(g.names, v);
    FixtureKnown(g.sections, g.names, v);
    RegionsLegal();
    if v.hooks != [] {
      FixtureAddresses(g.sections, g.names, v);
      if |v.metadata| <= 0x100 && |v.hooks| <= 32 {
        FixtureRegions(g.sections, v);
      }
    }
  }

  lemma RegionsLegal()
    ensures REGIONS.Legal()
  {
  }

  lemma FixtureReport(image: bytes, v: Variant, zlib: Zlib)
    requires WpsAccepts(image, zlib) && IsFixture(GeometryOf(image, zlib).sections, v)
    requires Known(GeometryOf(image, zlib).sections, GeometryOf(image, zlib).names, v)
    ensures ReportsFixture(ReportOf(image, zlib), v)
  {
    hide GeometryAccepts, GeometryOf, IsFixture, Known, RecordsLegal, ReadRecords, HooksAccept, ReplacementsAccept,
      SymbolsAccept, RelocationsAccept, ExportsAccept, ReadMetadata, HooksOf, ReplacementsOf, SymbolsOf, RelocationsOf,
      ExportsOf, AllReadAs;
    var ss, names := GeometryOf(image, zlib).sections, GeometryOf(image, zlib).names;
    FixtureMetadata(ss, names, v);
    FixtureHooks(ss, names, v);
    FixtureReplacement(ss, names, v);
    FixtureSymbols(ss, names, v);
    FixtureRelocations(ss, names, v);
    FixtureExports(ss, names, v);
  }

  // ----- printing it

  lemma PlainName(name: string)
    requires |name| <= 255 && forall i :: 0 <= i < |name| ==> 0 < name[i] as int < 0x80
    ensures Nameable(name)
  {
    AsciiLength(name);
    hide Encode;
  }

  lemma BaseNamesNameable()
    ensures |BASE_NAMES| == 10 && forall i :: 0 <= i < 10 ==> Nameable(BASE_NAMES[i])
  {
    hide Nameable;
    PlainName("");
    PlainName(".text");
    PlainName(".data");
    PlainName(".wups.meta");
    PlainName(".wups.hooks");
    PlainName(".wups.load");
    PlainName(".fimport_coreinit");
    PlainName(".rela.text");
    PlainName(".symtab");
    PlainName(".strtab");
  }

  lemma BaseNameable(v: Variant)
    ensures forall i :: 0 <= i < 10 ==> Nameable(BaseParts(v)[i].name)
  {
    hide Nameable, BaseParts, BASE_NAMES;
    BaseNames(v);
    BaseNamesNameable();
  }

  lemma ExportsNameable(v: Variant)
    ensures v.exports != [] ==> Nameable(ExportParts(v)[0].name)
  {
    hide Nameable, ExportContent;
    PlainName(".fexports");
    PlainName(".dexports");
  }

  lemma FixtureNameable(v: Variant)
    ensures forall i :: 0 <= i < |Parts(v)| ==> Nameable(Parts(v)[i].name)
  {
    PartsAre(v);
    hide Nameable, BaseParts;
    BaseNameable(v);
    ExportsNameable(v);
  }

  /** What the section pass asks of a part. */
  predicate PartLegal(p: Part) {
    && p.kind != NOBITS && FlagsLegal(p.flags) && AlignmentLegal(p.alignment)
    && (AnyBit(p.flags, ALLOC) && p.alignment != 0 ==> BitAnd(p.address, p.alignment - 1) == 0)
  }

  lemma PartSpecLegal(parts: seq<Part>, i: nat, zlib: Zlib)
    requires NamesFit(parts) && i < |parts| && PartLegal(parts[i])
    ensures SpecLegal(PartSpec(parts, i), zlib)
  {
    hide BitAnd, NameStart, NameTable, PartNames;
  }

  lemma SmallMasks()
    ensures FlagsLegal(0) && FlagsLegal(3) && FlagsLegal(4) && FlagsLegal(6) && !AnyBit(0, ALLOC) && !AnyBit(4, ALLOC)
    ensures AlignmentLegal(0) && AlignmentLegal(1) && AlignmentLegal(4) && AlignmentLegal(16)
  {
  }

  lemma SmallAddresses()
    ensures BitAnd(0x0200_0000, 3) == 0 && BitAnd(0x1000_0000, 3) == 0 && BitAnd(0x1000_0100, 3) == 0
    ensures BitAnd(0x1000_0200, 3) == 0 && BitAnd(0x1000_0300, 3) == 0 && BitAnd(0xC000_0000, 15) == 0
  {
  }

  lemma FixturePartsLegal(v: Variant)
    requires FlagsLegal(v.imports)
    ensures forall i :: 0 <= i < |Parts(v)| ==> PartLegal(Parts(v)[i])
  {
    PartsAre(v);
    hide BitAnd, FlagsLegal, AlignmentLegal, AnyBit, PackWords, HookWords, ReplacementWords, DataContent, StringContent,
      Zeros, EntryWords, ExportContent;
    SmallMasks();
    SmallAddresses();
  }

  lemma FixtureSpecs(v: Variant, zlib: Zlib)
    requires NamesFit(Parts(v)) && FlagsLegal(v.imports)
    ensures SpecsLegal(Completed(Parts(v), REGIONS, zlib), zlib)
  {
    hide PartLegal, SpecsLegal, Completed, NamesFit, FlagsLegal;
    FixturePartsLegal(v);
    PartsComplete(Parts(v), zlib);
  }

  lemma PartsComplete(parts: seq<Part>, zlib: Zlib)
    requires NamesFit(parts) && parts != [] && parts[0].kind == 0 && parts[0].data == []
    requires forall i :: 0 <= i < |parts| ==> PartLegal(parts[i])
    ensures SpecsLegal(Completed(parts, REGIONS, zlib), zlib)
  {
    hide PartLegal, SpecLegal, NamesFit, NameStart, NameTable, PartNames, CrcTable;
    forall i | 0 <= i < |parts|
      ensures SpecLegal(PartSpec(parts, i), zlib)
    {
      PartSpecLegal(parts, i, zlib);
    }
    TrailerLegal(parts, zlib);
  }

  lemma TrailerLegal(parts: seq<Part>, zlib: Zlib)
    requires NamesFit(parts)
    ensures forall i :: |parts| <= i < |parts| + 3 ==> SpecLegal(Completed(parts, REGIONS, zlib)[i], zlib)
  {
    hide NameStart, NameTable, PartNames, CrcTable, PackWords, FlagsLegal, BitAnd, AlignmentLegal;
    SmallMasks();
    NoFlags();
  }

  lemma NoFlags()
    ensures !AnyBit(0, COMPRESSED) && !AnyBit(0, WRITE) && !AnyBit(0, EXEC)
  {
  }

  /** The cursor when no content is longer than 4 MiB. */
  lemma {:induction false} CursorBound(specs: seq<Spec>, k: nat)
    requires k <= |specs| && forall i :: 0 <= i < |specs| ==> |specs[i].stored| <= 0x40_0000
    ensures CursorAt(specs, k) <= TABLE_OFFSET + |specs| * 40 + 3 + k * 0x40_0003
  {
    if k > 0 {
      CursorBound(specs, k - 1);
    }
  }

  lemma ModerateFits(specs: seq<Spec>)
    requires 5 <= |specs| <= 14 && forall i :: 0 <= i < |specs| ==> |specs[i].stored| <= 0x40_0000
    ensures Fits(specs)
  {
    hide CursorAt;
    CursorBound(specs, |specs|);
  }

  /** The contents that vary are at most 4 MiB long. */
  predicate Moderate(v: Variant) {
    && |v.metadata| <= 0x40_0000 && 8 * |v.hooks| <= 0x40_0000 && 12 * |v.relocations| <= 0x40_0000
    && |ExportContent(v.exports, 0)| <= 0x40_0000
  }

  lemma FixtureSizes(v: Variant, zlib: Zlib)
    requires Moderate(v)
    ensures NamesFit(Parts(v))
    ensures var specs := Completed(Parts(v), REGIONS, zlib);
            5 <= |specs| <= 14 && forall i :: 0 <= i < |specs| ==> |specs[i].stored| <= 0x40_0000
  {
    var parts := Parts(v);
    hide Nameable, NameStart, NameTable, CrcTable, PackWords, HookWords, ReplacementWords, DataContent,
      StringContent, Encode, EntryWords, ExportContent;
    FixtureNameable(v);
    TrailingName();
    NameTableSize(PartNames(parts));
    DataLength();
  }

  /** The image can be printed as long as its contents are moderate. */
  lemma FixtureCompletable(v: Variant, zlib: Zlib)
    requires Moderate(v) && FlagsLegal(v.imports)
    ensures Completable(Parts(v), REGIONS, zlib)
  {
    hide Completed, Fits, SpecsLegal, Nameable, NamesFit, Moderate, FlagsLegal, Parts;
    FixtureNameable(v);
    FixtureSizes(v, zlib);
    FixtureSpecs(v, zlib);
    ModerateFits(Completed(Parts(v), REGIONS, zlib));
  }

  /** The image, with the checks it passes. */
  method WpsImage(v: Variant, zlib: Zlib) returns (image: bytes)
    requires Moderate(v) && FlagsLegal(v.imports)
    ensures IsImageOf(image, Parts(v), REGIONS, zlib)
    ensures WpsAccepts(image, zlib) <==> VariantLegal(v)
    ensures WpsAccepts(image, zlib) ==> AcceptedFixture(image, zlib, v)
  {
    hide Parts, Completable, WpsAccepts, AcceptedFixture, VariantLegal, IsImageOf, FlagsLegal, Moderate;
    FixtureCompletable(v, zlib);
    image := PrintParts(Parts(v), REGIONS, zlib);
    FixtureAccepted(image, v, zlib);
  }

  // ----- its default metadata

  const DEFAULT_RECORDS: seq<Record> :=
    [("name", "SDK Test"), ("author", "Test"), ("version", "1.0"), ("license", "MIT"), ("description", "Fixture"),
     ("wups", "0.9.1"), ("buildtimestamp", "Jul 23 2026"), ("storage_id", "sdk.test")]

  lemma {:induction false} RecordsSize(records: seq<Record>, m: nat)
    requires forall i :: 0 <= i < |records| ==> |RecordText(records[i])| < m && IsAscii(RecordText(records[i]))
    ensures |PrintRecords(records)| <= m * |records|
  {
    hide RecordText, IsAscii, Encode;
    if records != [] {
      AsciiLength(RecordText(records[0]));
      RecordsSize(records[1..], m);
    }
  }

  predicate PlainRecord(record: Record) {
    && Identifier(record.0, 64) && |record.0| + |record.1| < 31
    && forall i :: 0 <= i < |record.1| ==> 0 < record.1[i] as int < 0x80
  }

  lemma PlainMeans(record: Record)
    requires PlainRecord(record)
    ensures |RecordText(record)| < 32 && IsAscii(RecordText(record)) && IsAscii(record.1) && Printable(record)
  {
    var text := RecordText(record);
    forall i | 0 <= i < |text|
      ensures text[i] as int < 0x80
    {
      if i < |record.0| {
        assert IdentifierChar(record.0[i]);
      }
    }
    AsciiLength(text);
  }

  lemma DefaultPlain()
    ensures forall i :: 0 <= i < 8 ==> PlainRecord(DEFAULT_RECORDS[i])
  {
    assert PlainRecord(("name", "SDK Test"));
    assert PlainRecord(("author", "Test"));
    assert PlainRecord(("version", "1.0"));
    assert PlainRecord(("license", "MIT"));
    assert PlainRecord(("description", "Fixture"));
    assert PlainRecord(("wups", "0.9.1"));
    assert PlainRecord(("buildtimestamp", "Jul 23 2026"));
    assert PlainRecord(("storage_id", "sdk.test"));
    hide PlainRecord;
  }

  lemma DefaultKeys()
    ensures DistinctKeys(DEFAULT_RECORDS)
  {
  }

  lemma DefaultValue(i: nat)
    requires i < 8
    ensures DEFAULT_RECORDS[i].0 in MapOf(DEFAULT_RECORDS)
    ensures MapOf(DEFAULT_RECORDS)[DEFAULT_RECORDS[i].0] == DEFAULT_RECORDS[i].1
  {
    DefaultKeys();
    hide MapOf, DistinctKeys;
    MapHolds(DEFAULT_RECORDS, DEFAULT_RECORDS[i].0);
  }

  lemma DefaultHasNoDebug()
    ensures "debug" !in MapOf(DEFAULT_RECORDS)
  {
    DefaultKeys();
    hide MapOf, DistinctKeys;
    MapHolds(DEFAULT_RECORDS, "debug");
  }

  lemma DefaultMetadata()
    ensures MetadataLegal(MapOf(DEFAULT_RECORDS))
  {
    assert SafeText("SDK Test", 128) && Identifier("sdk.test", 128);
    hide MapOf, SafeText, Identifier;
    DefaultValue(0);
    DefaultValue(5);
    DefaultValue(7);
    DefaultHasNoDebug();
    assert DEFAULT_RECORDS[0] == ("name", "SDK Test") && DEFAULT_RECORDS[5] == ("wups", "0.9.1");
    assert DEFAULT_RECORDS[7] == ("storage_id", "sdk.test");
  }

  lemma DefaultLegal()
    ensures RecordsLegal(PrintRecords(DEFAULT_RECORDS)) && |PrintRecords(DEFAULT_RECORDS)| <= 0x100
    ensures ReadRecords(PrintRecords(DEFAULT_RECORDS), 0, map[]) == Some(MapOf(DEFAULT_RECORDS))
  {
    hide PrintRecords, ReadRecords, MapOf, RecordText, IsAscii, MetadataLegal, PlainRecord, DistinctKeys, Printable;
    DefaultPlain();
    DefaultKeys();
    DefaultMetadata();
    forall i | 0 <= i < 8
      ensures var r := DEFAULT_RECORDS[i];
              |RecordText(r)| < 32 && IsAscii(RecordText(r)) && IsAscii(r.1) && Printable(r)
    {
      PlainMeans(DEFAULT_RECORDS[i]);
    }
    RecordsSize(DEFAULT_RECORDS, 32);
    RecordsTerminated(DEFAULT_RECORDS);
    AsciiRoundTrip(DEFAULT_RECORDS);
  }

  lemma SuiteFlags()
    ensures FlagsLegal(6) && FlagsLegal(4) && !AnyBit(4, ALLOC)
  {
  }

  /** The suite's image with legal metadata of at most 256 bytes and a known hook. */
  lemma SuiteLegal(metadata: bytes, hook: u32, imports: u32)
    requires RecordsLegal(metadata) && |metadata| <= 0x100 && hook <= 26
    ensures VariantLegal(Suite(metadata, hook, imports)) && Moderate(Suite(metadata, hook, imports))
  {
    hide RecordsLegal;
    assert |ExportContent([], 0)| == 9;
  }

  /** The suite's default image is accepted. */
  method DefaultImage(zlib: Zlib) returns (image: bytes)
    ensures AcceptedFixture(image, zlib, Suite(PrintRecords(DEFAULT_RECORDS), 17, 6))
  {
    hide WpsAccepts, PrintRecords, ReadRecords, MapOf, RecordsLegal, IsImageOf, AcceptedFixture, FlagsLegal,
      DEFAULT_RECORDS, VariantLegal, Moderate;
    SuiteFlags();
    DefaultLegal();
    SuiteLegal(PrintRecords(DEFAULT_RECORDS), 17, 6);
    image := WpsImage(Suite(PrintRecords(DEFAULT_RECORDS), 17, 6), zlib);
  }
}
