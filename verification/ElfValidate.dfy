/** The validator of trusted-native PowerPC ELF payloads, and the image geometry it establishes. */
module ElfValidate {
  import opened Bytes
  import opened Intervals
  import opened CStrings
  import opened SectionHeaders

  const MAX_TRUSTED_ELF_BYTES: nat := 10 * 1024 * 1024
  const ELF_IDENT: bytes := [0x7F, 0x45, 0x4C, 0x46, 1, 2, 1]
  const BOOTSTRAP_NAME: bytes :=
    [0x2E, 0x63, 0x65, 0x6D, 0x6F, 0x64, 0x2E, 0x62, 0x6F, 0x6F, 0x74, 0x73, 0x74, 0x72, 0x61, 0x70]
  const CMB1: u32 := 0x434D_4231

  // segment flags
  const SEGMENT_EXEC: nat := 1
  const SEGMENT_WRITE_EXEC: nat := 3

  // section flags
  const ALLOC: nat := 2

  // relocation types
  const R_PPC_NONE: nat := 0
  const R_PPC_ADDR32: nat := 1
  const R_PPC_UADDR32: nat := 24
  const STRICT_RELOCATIONS: set<nat> := {0, 1, 4, 5, 6, 10, 22, 26}
  const RELAXED_RELOCATIONS: set<nat> := {0, 1, 4, 5, 6, 10, 22, 26, R_PPC_UADDR32}

  // ----- tables

  datatype Tables = Tables(programOffset: nat, programSize: nat, programCount: nat,
                           sectionOffset: nat, sectionSize: nat, sectionCount: nat, namesIndex: nat) {
    function ProgramExtent(): Range {
      Range(programOffset, programSize * programCount)
    }

    function SectionExtent(): Range {
      Range(sectionOffset, sectionSize * sectionCount)
    }
  }

  predicate IsPowerPcElf(elf: bytes) {
    && |elf| >= 52
    && elf[..7] == ELF_IDENT && U16(elf, 16) == 3 && U16(elf, 18) == 20 && U32(elf, 20) == 1
  }

  function TablesOf(elf: bytes): Tables
    requires |elf| >= 52
  {
    Tables(U32(elf, 28), U16(elf, 42), U16(elf, 44), U32(elf, 32), U16(elf, 46), U16(elf, 48), U16(elf, 50))
  }

  predicate SectionTableFits(elf: bytes, t: Tables) {
    t.sectionSize >= 40 && t.sectionOffset + t.sectionSize * t.sectionCount <= |elf|
  }

  predicate TablesLegal(elf: bytes, t: Tables) {
    && t.programSize >= 32 && 0 < t.programCount <= 128
    && 0 < t.sectionCount <= 1024 && t.namesIndex < t.sectionCount
    && t.programOffset + t.programSize * t.programCount <= |elf|
    && SectionTableFits(elf, t)
  }

  // ----- load segments

  datatype Segment = Segment(address: nat, memorySize: nat, flags: nat) {
    function Extent(): Range {
      Range(address, memorySize)
    }

    predicate Executable() {
      AnyBit(flags, SEGMENT_EXEC)
    }
  }

  lemma TableEntry(start: nat, size: nat, count: nat, i: nat, limit: nat)
    requires i < count && start + size * count <= limit
    ensures start + i * size + size <= limit
  {
    ProductGrows(size, i + 1, count);
    assert size * (i + 1) == i * size + size;
  }

  lemma ProductGrows(a: nat, b: nat, c: nat)
    requires b <= c
    ensures a * b <= a * c
  {
  }

  function ProgramAt(elf: bytes, t: Tables, i: nat): (at: nat)
    requires TablesLegal(elf, t) && i < t.programCount
    ensures at + 32 <= |elf|
  {
    TableEntry(t.programOffset, t.programSize, t.programCount, i, |elf|);
    t.programOffset + i * t.programSize
  }

  predicate IsLoad(elf: bytes, t: Tables, i: nat)
    requires TablesLegal(elf, t) && i < t.programCount
  {
    U32(elf, ProgramAt(elf, t, i)) == 1
  }

  function SegmentAt(elf: bytes, t: Tables, i: nat): Segment
    requires TablesLegal(elf, t) && i < t.programCount
  {
    var at := ProgramAt(elf, t, i);
    Segment(U32(elf, at + 8), U32(elf, at + 20), U32(elf, at + 24))
  }

  predicate SegmentLegal(elf: bytes, t: Tables, i: nat)
    requires TablesLegal(elf, t) && i < t.programCount
  {
    var at := ProgramAt(elf, t, i);
    var fileOffset, fileSize, segment := U32(elf, at + 4), U32(elf, at + 16), SegmentAt(elf, t, i);
    && fileSize <= segment.memorySize
    && fileOffset + fileSize <= |elf|
    && !AllBits(segment.flags, SEGMENT_WRITE_EXEC)
    && segment.address + segment.memorySize <= TWO_32
  }

  /** The load segments among the first `n` program headers, in order. */
  function Loads(elf: bytes, t: Tables, n: nat): seq<Segment>
    requires TablesLegal(elf, t) && n <= t.programCount
  {
    if n == 0 then []
    else Loads(elf, t, n - 1) + if IsLoad(elf, t, n - 1) then [SegmentAt(elf, t, n - 1)] else []
  }

  function LoadsOf(elf: bytes, t: Tables): seq<Segment>
    requires TablesLegal(elf, t)
  {
    Loads(elf, t, t.programCount)
  }

  function Extents(segments: seq<Segment>): (rs: seq<Range>)
    ensures |rs| == |segments|
    ensures forall i :: 0 <= i < |rs| ==> rs[i] == segments[i].Extent()
  {
    seq(|segments|, i requires 0 <= i < |segments| => segments[i].Extent())
  }

  /** No two load segments overlap, empty ones included. */
  ghost predicate Apart(segments: seq<Segment>) {
    forall i, j :: 0 <= i < j < |segments| ==> !Overlap(segments[i].Extent(), segments[j].Extent())
  }

  function CodeBytes(segments: seq<Segment>): nat {
    if segments == [] then 0
    else
      var last := segments[|segments| - 1];
      CodeBytes(segments[..|segments| - 1]) + if last.Executable() then last.memorySize else 0
  }

  function ImageBytes(segments: seq<Segment>): nat {
    Sum(Sizes(Extents(segments)))
  }

  ghost predicate SegmentsAccept(elf: bytes, t: Tables)
    requires TablesLegal(elf, t)
  {
    && (forall i :: 0 <= i < t.programCount && IsLoad(elf, t, i) ==> SegmentLegal(elf, t, i))
    && var segments := LoadsOf(elf, t);
    && Apart(segments)
    && CodeBytes(segments) > 0
    && ImageBytes(segments) <= MAX_TRUSTED_ELF_BYTES
  }

  lemma {:induction false} LoadsGrow(elf: bytes, t: Tables, m: nat, n: nat)
    requires TablesLegal(elf, t) && m <= n <= t.programCount
    ensures Loads(elf, t, m) <= Loads(elf, t, n)
    ensures Apart(Loads(elf, t, n)) ==> Apart(Loads(elf, t, m))
    decreases n
  {
    hide IsLoad, SegmentAt, TablesLegal;
    if m < n {
      LoadsGrow(elf, t, m, n - 1);
    }
    assert forall i :: 0 <= i < |Loads(elf, t, m)| ==> Loads(elf, t, m)[i] == Loads(elf, t, n)[i];
  }

  lemma NextSegment(segments: seq<Segment>, next: Segment)
    requires Apart(segments)
    ensures Apart(segments + [next]) <==>
              forall k :: 0 <= k < |Extents(segments)| ==> !Overlap(next.Extent(), Extents(segments)[k])
    ensures ImageBytes(segments + [next]) == ImageBytes(segments) + next.memorySize
    ensures CodeBytes(segments + [next]) == CodeBytes(segments) + if next.Executable() then next.memorySize else 0
  {
    hide AnyBit;
    var all := segments + [next];
    assert all[..|segments|] == segments && all[|segments|] == next;
    assert Sizes(Extents(all))[..|segments|] == Sizes(Extents(segments));
    if Apart(all) {
      forall k | 0 <= k < |segments|
        ensures !Overlap(next.Extent(), segments[k].Extent())
      {
        assert all[k] == segments[k];
      }
    } else {
      var i, j :| 0 <= i < j < |all| && Overlap(all[i].Extent(), all[j].Extent());
      assert all[i] == segments[i] && j == |segments|;
      assert Overlap(next.Extent(), Extents(segments)[i]);
    }
  }

  lemma NoSegments()
    ensures Apart([]) && CodeBytes([]) == 0 && ImageBytes([]) == 0
  {
  }

  method ReadSegments(elf: bytes, t: Tables) returns (r: Result<seq<Segment>>)
    requires TablesLegal(elf, t)
    ensures r.Ok? <==> SegmentsAccept(elf, t)
    ensures r.Ok? ==> r.value == LoadsOf(elf, t)
  {
    hide TablesLegal, IsLoad, SegmentAt, SegmentLegal, Apart, ImageBytes, CodeBytes, AnyBit, Overlap;
    var segments: seq<Segment> := [];
    var codeBytes, dataBytes := 0, 0;
    NoSegments();
    for index := 0 to t.programCount
      invariant segments == Loads(elf, t, index) && Apart(segments)
      invariant codeBytes == CodeBytes(segments) && codeBytes + dataBytes == ImageBytes(segments)
      invariant forall i :: 0 <= i < index && IsLoad(elf, t, i) ==> SegmentLegal(elf, t, i)
    {
      if !IsLoad(elf, t, index) { continue; }
      if !SegmentLegal(elf, t, index) { return Rejected; }
      var segment := SegmentAt(elf, t, index);
      NextSegment(segments, segment);
      LoadsGrow(elf, t, index + 1, t.programCount);
      var meets := MeetsAny(segment.Extent(), Extents(segments));
      if meets { return Rejected; }
      segments := segments + [segment];
      if segment.Executable() {
        codeBytes := codeBytes + segment.memorySize;
      } else {
        dataBytes := dataBytes + segment.memorySize;
      }
    }
    if segments == [] || codeBytes == 0 || codeBytes + dataBytes > MAX_TRUSTED_ELF_BYTES { return Rejected; }
    return Ok(segments);
  }

  /** `[address, address + size)` lies in one load segment, an executable one when asked for. */
  predicate Contains(segments: seq<Segment>, address: nat, size: nat, executable: bool) {
    exists i :: 0 <= i < |segments| && Holds(segments[i], address, size, executable)
  }

  predicate Holds(s: Segment, address: nat, size: nat, executable: bool) {
    && (executable ==> s.Executable())
    && address >= s.address
    && address - s.address <= s.memorySize
    && size <= s.memorySize - (address - s.address)
  }

  // ----- section names

  function SectionAt(elf: bytes, t: Tables, i: nat): Header
    requires SectionTableFits(elf, t) && i < t.sectionCount
  {
    TableEntry(t.sectionOffset, t.sectionSize, t.sectionCount, i, |elf|);
    HeaderAt(elf, t.sectionOffset + i * t.sectionSize)
  }

  function HeadersOf(elf: bytes, t: Tables): (hs: seq<Header>)
    requires SectionTableFits(elf, t)
    ensures |hs| == t.sectionCount
  {
    seq(t.sectionCount, i requires 0 <= i < t.sectionCount => SectionAt(elf, t, i))
  }

  predicate InFile(elf: bytes, h: Header) {
    h.fileOffset + h.storedSize <= |elf|
  }

  function ContentOf(elf: bytes, h: Header): bytes
    requires InFile(elf, h)
  {
    elf[h.fileOffset..h.fileOffset + h.storedSize]
  }

  /** The ASCII name at an offset of the name strings, as its bytes. */
  function NameAt(strings: bytes, offset: nat): Option<bytes> {
    if offset >= |strings| then None
    else
      match FindZero(strings, offset, |strings|)
      case None => None
      case Some(end) =>
        if forall k :: offset <= k < end ==> strings[k] < 0x80 then Some(strings[offset..end]) else None
  }

  ghost predicate NamesAccept(hs: seq<Header>, strings: bytes) {
    && (forall i :: 0 <= i < |hs| ==> NameAt(strings, hs[i].nameOffset).Some?)
    && (forall i, j :: 0 <= i < j < |hs| ==> !SameName(strings, hs[i], hs[j]))
  }

  /** Both sections have the same non-empty name. */
  predicate SameName(strings: bytes, a: Header, b: Header) {
    var name := NameAt(strings, a.nameOffset);
    name.Some? && name.value != [] && name == NameAt(strings, b.nameOffset)
  }

  method CheckNames(hs: seq<Header>, strings: bytes) returns (r: Result<seq<bytes>>)
    ensures r.Ok? <==> NamesAccept(hs, strings)
    ensures r.Ok? ==> |r.value| == |hs|
    ensures r.Ok? ==> forall i :: 0 <= i < |hs| ==> NameAt(strings, hs[i].nameOffset) == Some(r.value[i])
  {
    hide NameAt;
    var names: seq<bytes> := [];
    var seen: set<bytes> := {};
    for i := 0 to |hs|
      invariant |names| == i
      invariant forall j :: 0 <= j < i ==> NameAt(strings, hs[j].nameOffset) == Some(names[j])
      invariant forall n :: n in seen <==> n in names
      invariant forall j, k :: 0 <= j < k < i ==> !SameName(strings, hs[j], hs[k])
    {
      var name := NameAt(strings, hs[i].nameOffset);
      if name.None? { return Rejected; }
      if name.value != [] && name.value in seen {
        var j :| 0 <= j < i && names[j] == name.value;
        assert SameName(strings, hs[j], hs[i]);
        return Rejected;
      }
      seen := seen + {name.value};
      names := names + [name.value];
    }
    return Ok(names);
  }

  // ----- symbol and relocation sections

  predicate IsSymbolTable(h: Header) {
    h.kind == SYMTAB || h.kind == DYNSYM
  }

  predicate SymbolTableShape(h: Header) {
    h.entrySize >= 16 && h.storedSize % h.entrySize == 0
  }

  lemma EntryInside(h: Header, k: nat)
    requires h.entrySize > 0 && h.storedSize % h.entrySize == 0 && k < h.storedSize / h.entrySize
    ensures k * h.entrySize + h.entrySize <= h.storedSize
  {
    var n := h.storedSize / h.entrySize;
    assert h.storedSize == h.entrySize * n;
    TableEntry(0, h.entrySize, n, k, h.storedSize);
  }

  /** Where entry `k` of a table section starts in the file. */
  function EntryAt(elf: bytes, h: Header, k: nat): (at: nat)
    requires InFile(elf, h) && h.entrySize > 0 && h.storedSize % h.entrySize == 0 && k < h.storedSize / h.entrySize
    ensures at == h.fileOffset + k * h.entrySize
    ensures at + h.entrySize <= h.fileOffset + h.storedSize <= |elf|
  {
    EntryInside(h, k);
    h.fileOffset + k * h.entrySize
  }

  /** Every symbol but the first is defined. */
  predicate SymbolsDefined(elf: bytes, h: Header)
    requires InFile(elf, h) && SymbolTableShape(h)
  {
    forall k :: 1 <= k < h.storedSize / h.entrySize ==> U16(elf, EntryAt(elf, h, k) + 14) != 0
  }

  predicate RelocationTableShape(hs: seq<Header>, h: Header) {
    && h.entrySize >= 12 && h.storedSize % h.entrySize == 0
    && h.link < |hs| && IsSymbolTable(hs[h.link]) && SymbolTableShape(hs[h.link])
  }

  function SymbolCount(hs: seq<Header>, h: Header): nat
    requires RelocationTableShape(hs, h)
  {
    hs[h.link].storedSize / hs[h.link].entrySize
  }

  function PatchWidth(kind: nat): nat {
    if kind in {4, 5, 6} then 2 else 4
  }

  predicate RelocationLegal(elf: bytes, at: nat, symbolCount: nat, segments: seq<Segment>, kinds: set<nat>)
    requires at + 8 <= |elf|
  {
    var info := U32(elf, at + 4);
    var kind, symbol := info % 0x100, info / 0x100;
    && kind in kinds && symbol < symbolCount
    && (kind != R_PPC_NONE ==> Contains(segments, U32(elf, at), PatchWidth(kind), false))
  }

  predicate RelocationsLegal(elf: bytes, hs: seq<Header>, h: Header, segments: seq<Segment>, kinds: set<nat>)
    requires InFile(elf, h) && RelocationTableShape(hs, h)
  {
    forall k :: 0 <= k < h.storedSize / h.entrySize ==>
      RelocationLegal(elf, EntryAt(elf, h, k), SymbolCount(hs, h), segments, kinds)
  }

  predicate SectionLegal(elf: bytes, hs: seq<Header>, h: Header, segments: seq<Segment>, kinds: set<nat>) {
    && (h.kind != NOBITS ==> InFile(elf, h))
    && h.kind != REL
    && (IsSymbolTable(h) ==> SymbolTableShape(h) && SymbolsDefined(elf, h))
    && (h.kind == RELA ==> RelocationTableShape(hs, h) && RelocationsLegal(elf, hs, h, segments, kinds))
  }

  method CheckSymbols(elf: bytes, h: Header) returns (r: Result<()>)
    requires InFile(elf, h) && SymbolTableShape(h)
    ensures r.Ok? <==> SymbolsDefined(elf, h)
  {
    var k := 1;
    while k < h.storedSize / h.entrySize
      invariant 1 <= k
      invariant forall j :: 1 <= j < k && j < h.storedSize / h.entrySize ==> U16(elf, EntryAt(elf, h, j) + 14) != 0
    {
      if U16(elf, EntryAt(elf, h, k) + 14) == 0 { return Rejected; }
      k := k + 1;
    }
    return Ok(());
  }

  method CheckRelocations(elf: bytes, hs: seq<Header>, h: Header, segments: seq<Segment>, kinds: set<nat>)
    returns (r: Result<()>)
    requires InFile(elf, h) && RelocationTableShape(hs, h)
    ensures r.Ok? <==> RelocationsLegal(elf, hs, h, segments, kinds)
  {
    hide RelocationLegal;
    for k := 0 to h.storedSize / h.entrySize
      invariant forall j :: 0 <= j < k ==> RelocationLegal(elf, EntryAt(elf, h, j), SymbolCount(hs, h), segments, kinds)
    {
      if !RelocationLegal(elf, EntryAt(elf, h, k), SymbolCount(hs, h), segments, kinds) { return Rejected; }
    }
    return Ok(());
  }

  ghost predicate SectionsLegal(elf: bytes, hs: seq<Header>, segments: seq<Segment>, kinds: set<nat>) {
    forall i :: 0 <= i < |hs| ==> SectionLegal(elf, hs, hs[i], segments, kinds)
  }

  method CheckSections(elf: bytes, hs: seq<Header>, segments: seq<Segment>, kinds: set<nat>) returns (r: Result<()>)
    ensures r.Ok? <==> SectionsLegal(elf, hs, segments, kinds)
  {
    hide SymbolsDefined, RelocationsLegal, SymbolTableShape, RelocationTableShape;
    for i := 0 to |hs|
      invariant forall j :: 0 <= j < i ==> SectionLegal(elf, hs, hs[j], segments, kinds)
    {
      var h := hs[i];
      if h.kind != NOBITS && !InFile(elf, h) { return Rejected; }
      if h.kind == REL { return Rejected; }
      if IsSymbolTable(h) {
        if !SymbolTableShape(h) { return Rejected; }
        var symbols := CheckSymbols(elf, h);
        if symbols.Rejected? { return Rejected; }
      }
      if h.kind == RELA {
        if !RelocationTableShape(hs, h) { return Rejected; }
        var relocations := CheckRelocations(elf, hs, h, segments, kinds);
        if relocations.Rejected? { return Rejected; }
      }
    }
    return Ok(());
  }

  // ----- the CMB1 bootstrap section

  predicate RecordLegal(elf: bytes, at: nat, segments: seq<Segment>)
    requires at + 24 <= |elf|
  {
    && U32(elf, at) != 0 && BitAnd(U32(elf, at + 4), 3) == 0 && U32(elf, at + 12) != 0
    && U32(elf, at + 20) == 0 && Contains(segments, U32(elf, at + 16), 4, true)
  }

  predicate BootstrapHeaderLegal(elf: bytes, h: Header, segments: seq<Segment>) {
    && h.kind == PROGBITS && AnyBit(h.flags, ALLOC) && h.storedSize >= 12
    && Contains(segments, h.address, h.storedSize, false) && InFile(elf, h)
    && U32(elf, h.fileOffset) == CMB1 && U16(elf, h.fileOffset + 4) == 1 && U16(elf, h.fileOffset + 6) == 24
    && var count := U32(elf, h.fileOffset + 8);
    && 1 <= count <= 64 && h.storedSize == 12 + count * 24
  }

  predicate RecordsLegal(elf: bytes, h: Header, segments: seq<Segment>)
    requires BootstrapHeaderLegal(elf, h, segments)
  {
    forall k :: 0 <= k < U32(elf, h.fileOffset + 8) ==> RecordLegal(elf, h.fileOffset + 12 + k * 24, segments)
  }

  predicate IsBootstrap(strings: bytes, h: Header) {
    NameAt(strings, h.nameOffset) == Some(BOOTSTRAP_NAME)
  }

  ghost predicate BootstrapAccepts(elf: bytes, hs: seq<Header>, strings: bytes, segments: seq<Segment>) {
    && (exists i :: 0 <= i < |hs| && IsBootstrap(strings, hs[i]))
    && (forall i, j :: 0 <= i < j < |hs| && IsBootstrap(strings, hs[i]) ==> !IsBootstrap(strings, hs[j]))
    && forall i :: 0 <= i < |hs| && IsBootstrap(strings, hs[i]) ==>
         BootstrapHeaderLegal(elf, hs[i], segments) && RecordsLegal(elf, hs[i], segments)
  }

  method CheckRecords(elf: bytes, h: Header, segments: seq<Segment>) returns (r: Result<()>)
    requires BootstrapHeaderLegal(elf, h, segments)
    ensures r.Ok? <==> RecordsLegal(elf, h, segments)
  {
    hide RecordLegal, BootstrapHeaderLegal;
    BootstrapFits(elf, h, segments);
    for k := 0 to U32(elf, h.fileOffset + 8)
      invariant forall j :: 0 <= j < k ==> RecordLegal(elf, h.fileOffset + 12 + j * 24, segments)
    {
      if !RecordLegal(elf, h.fileOffset + 12 + k * 24, segments) { return Rejected; }
    }
    return Ok(());
  }

  method CheckBootstrap(elf: bytes, hs: seq<Header>, strings: bytes, segments: seq<Segment>) returns (r: Result<()>)
    ensures r.Ok? <==> BootstrapAccepts(elf, hs, strings, segments)
  {
    hide IsBootstrap, RecordsLegal, BootstrapHeaderLegal;
    var bootstrap: seq<nat> := [];
    for i := 0 to |hs|
      invariant forall k :: 0 <= k < |bootstrap| ==> bootstrap[k] < i && IsBootstrap(strings, hs[bootstrap[k]])
      invariant forall j, k :: 0 <= j < k < |bootstrap| ==> bootstrap[j] < bootstrap[k]
      invariant forall j :: 0 <= j < i && IsBootstrap(strings, hs[j]) ==> j in bootstrap
    {
      if IsBootstrap(strings, hs[i]) {
        bootstrap := bootstrap + [i];
      }
    }
    if |bootstrap| != 1 {
      if |bootstrap| > 1 {
        assert IsBootstrap(strings, hs[bootstrap[0]]) && IsBootstrap(strings, hs[bootstrap[1]]);
      }
      return Rejected;
    }
    var h := hs[bootstrap[0]];
    if !BootstrapHeaderLegal(elf, h, segments) { return Rejected; }
    r := CheckRecords(elf, h, segments);
  }

  lemma BootstrapFits(elf: bytes, h: Header, segments: seq<Segment>)
    requires BootstrapHeaderLegal(elf, h, segments)
    ensures InFile(elf, h) && h.storedSize >= 12
    ensures h.fileOffset + 12 + U32(elf, h.fileOffset + 8) * 24 <= |elf|
  {
  }

  // ----- the whole validator

  predicate NameTableLegal(elf: bytes, h: Header) {
    h.kind == STRTAB && InFile(elf, h)
  }

  /** The checks that follow once the tables are known to be in bounds. */
  ghost predicate ContentsAccept(elf: bytes, t: Tables, kinds: set<nat>)
    requires TablesLegal(elf, t)
  {
    var hs, segments := HeadersOf(elf, t), LoadsOf(elf, t);
    && SegmentsAccept(elf, t)
    && NameTableLegal(elf, hs[t.namesIndex])
    && NamesAccept(hs, ContentOf(elf, hs[t.namesIndex]))
    && SectionsLegal(elf, hs, segments, kinds)
    && BootstrapAccepts(elf, hs, ContentOf(elf, hs[t.namesIndex]), segments)
  }

  /** The validator accepts, with the given relocation types; the tool itself uses the strict ones. */
  ghost predicate ElfAccepts(elf: bytes, kinds: set<nat>) {
    && |elf| <= MAX_TRUSTED_ELF_BYTES && IsPowerPcElf(elf)
    && TablesLegal(elf, TablesOf(elf))
    && ContentsAccept(elf, TablesOf(elf), kinds)
  }

  method ValidateElf(elf: bytes, kinds: set<nat> := STRICT_RELOCATIONS) returns (r: Result<()>)
    ensures r.Ok? <==> ElfAccepts(elf, kinds)
  {
    hide TablesLegal, SegmentsAccept, NamesAccept, SectionsLegal, BootstrapAccepts, LoadsOf, HeadersOf;
    if !(52 <= |elf| <= MAX_TRUSTED_ELF_BYTES) { return Rejected; }
    if !IsPowerPcElf(elf) { return Rejected; }
    var t := TablesOf(elf);
    if !TablesLegal(elf, t) { return Rejected; }
    NamesIndexLegal(elf, t);
    var segments := ReadSegments(elf, t);
    if segments.Rejected? { return Rejected; }
    var sections := HeadersOf(elf, t);
    var table := sections[t.namesIndex];
    if !NameTableLegal(elf, table) { return Rejected; }
    var strings := ContentOf(elf, table);
    var names := CheckNames(sections, strings);
    if names.Rejected? { return Rejected; }
    var checked := CheckSections(elf, sections, segments.value, kinds);
    if checked.Rejected? { return Rejected; }
    r := CheckBootstrap(elf, sections, strings, segments.value);
  }

  lemma NamesIndexLegal(elf: bytes, t: Tables)
    requires TablesLegal(elf, t)
    ensures t.namesIndex < t.sectionCount && SectionTableFits(elf, t)
  {
  }
}
