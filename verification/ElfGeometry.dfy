/** What an accepted trusted-native ELF image guarantees about its memory. */
module ElfGeometry {
  import opened Bytes
  import opened Intervals
  import opened SectionHeaders
  import opened ElfValidate

  /** Segment `i` holds the whole range and no other segment holds any byte of it. */
  ghost predicate SolelyIn(segments: seq<Segment>, i: nat, address: nat, size: nat) {
    && i < |segments|
    && (forall x :: address <= x < address + size ==> segments[i].Extent().Contains(x))
    && forall j, x :: 0 <= j < |segments| && address <= x < address + size ==>
         segments[j].Extent().Contains(x) ==> j == i
  }

  lemma HeldSolely(segments: seq<Segment>, i: nat, address: nat, size: nat, executable: bool)
    requires Apart(segments) && i < |segments| && Holds(segments[i], address, size, executable)
    ensures SolelyIn(segments, i, address, size)
  {
    forall j, x | 0 <= j < |segments| && address <= x < address + size && segments[j].Extent().Contains(x)
      ensures j == i
    {
      OverlapMeansShared(segments[i].Extent(), segments[j].Extent());
    }
  }

  /** Load segments are disjoint, below 4 GiB, never writable and executable, and small in total. */
  lemma SegmentGeometry(elf: bytes, kinds: set<nat>)
    requires ElfAccepts(elf, kinds)
    ensures var segments := LoadsOf(elf, TablesOf(elf));
            && Disjoint(Extents(segments))
            && (forall i :: 0 <= i < |segments| ==>
                  && !AllBits(segments[i].flags, SEGMENT_WRITE_EXEC)
                  && segments[i].Extent().End() <= TWO_32)
            && |AllPoints(Extents(segments))| == ImageBytes(segments) <= MAX_TRUSTED_ELF_BYTES
  {
    hide NamesAccept, SectionsLegal, BootstrapAccepts, AllBits, TablesLegal, SegmentAt;
    var t := TablesOf(elf);
    LoadsLegal(elf, t, t.programCount);
    DisjointCover(Extents(LoadsOf(elf, t)));
  }

  lemma {:induction false} LoadsLegal(elf: bytes, t: Tables, n: nat)
    requires TablesLegal(elf, t) && n <= t.programCount
    requires forall i :: 0 <= i < n && IsLoad(elf, t, i) ==> SegmentLegal(elf, t, i)
    ensures forall i :: 0 <= i < |Loads(elf, t, n)| ==>
              && !AllBits(Loads(elf, t, n)[i].flags, SEGMENT_WRITE_EXEC)
              && Loads(elf, t, n)[i].Extent().End() <= TWO_32
  {
    hide AllBits, TablesLegal, ProgramAt;
    if n > 0 {
      LoadsLegal(elf, t, n - 1);
    }
  }

  /** Each relocation that patches anything patches bytes of exactly one segment. */
  lemma PatchOwner(elf: bytes, kinds: set<nat>, section: nat, k: nat) returns (i: nat)
    requires ElfAccepts(elf, kinds)
    requires section < |HeadersOf(elf, TablesOf(elf))|
    requires var h := HeadersOf(elf, TablesOf(elf))[section];
             && h.kind == RELA && h.entrySize > 0 && k < h.storedSize / h.entrySize
    ensures var hs := HeadersOf(elf, TablesOf(elf));
            && RelocationTableShape(hs, hs[section]) && InFile(elf, hs[section])
            && var at := EntryAt(elf, hs[section], k);
            && var kind := U32(elf, at + 4) % 0x100;
            && (kind != R_PPC_NONE ==> SolelyIn(LoadsOf(elf, TablesOf(elf)), i, U32(elf, at), PatchWidth(kind)))
  {
    var t := TablesOf(elf);
    NamesIndexLegal(elf, t);
    hide TablesLegal, NamesAccept, BootstrapAccepts, LoadsOf, HeadersOf, SegmentLegal, SymbolsDefined, SolelyIn, Holds;
    var hs, segments := HeadersOf(elf, t), LoadsOf(elf, t);
    var h := hs[section];
    assert SectionLegal(elf, hs, h, segments, kinds);
    assert RelocationLegal(elf, EntryAt(elf, h, k), SymbolCount(hs, h), segments, kinds);
    var at := EntryAt(elf, h, k);
    var kind := U32(elf, at + 4) % 0x100;
    i := 0;
    if kind != R_PPC_NONE {
      i :| 0 <= i < |segments| && Holds(segments[i], U32(elf, at), PatchWidth(kind), false);
      HeldSolely(segments, i, U32(elf, at), PatchWidth(kind), false);
    }
  }

  /** `h` is the CMB1 bootstrap section of the image. */
  ghost predicate IsBootstrapOf(elf: bytes, h: Header) {
    && |elf| >= 52 && TablesLegal(elf, TablesOf(elf))
    && var hs := HeadersOf(elf, TablesOf(elf));
    && var names := hs[TablesOf(elf).namesIndex];
    && h in hs && InFile(elf, names) && IsBootstrap(ContentOf(elf, names), h)
  }

  /** Each CMB1 handler word lies in exactly one segment, executable and not writable. */
  lemma HandlerOwner(elf: bytes, kinds: set<nat>, h: Header, k: nat) returns (i: nat)
    requires ElfAccepts(elf, kinds) && IsBootstrapOf(elf, h)
    requires 12 + (k + 1) * 24 <= h.storedSize
    ensures InFile(elf, h)
    ensures var segments := LoadsOf(elf, TablesOf(elf));
            && SolelyIn(segments, i, U32(elf, h.fileOffset + 12 + k * 24 + 16), 4)
            && segments[i].Executable() && !AllBits(segments[i].flags, SEGMENT_WRITE_EXEC)
  {
    var t := TablesOf(elf);
    NamesIndexLegal(elf, t);
    var hs, segments := HeadersOf(elf, t), LoadsOf(elf, t);
    hide TablesLegal, NamesAccept, SectionsLegal, LoadsOf, HeadersOf, IsBootstrap, SolelyIn, Holds, AllBits,
      BootstrapAccepts, AllPoints, ImageBytes;
    i := HandlerHeld(elf, hs, ContentOf(elf, hs[t.namesIndex]), segments, h, k);
    var handler := U32(elf, h.fileOffset + 12 + k * 24 + 16);
    HeldSolely(segments, i, handler, 4, true);
    HeldByExecutable(segments[i], handler);
    SegmentGeometry(elf, kinds);
  }

  lemma HandlerHeld(elf: bytes, hs: seq<Header>, strings: bytes, segments: seq<Segment>, h: Header, k: nat)
    returns (i: nat)
    requires BootstrapAccepts(elf, hs, strings, segments) && h in hs && IsBootstrap(strings, h)
    requires 12 + (k + 1) * 24 <= h.storedSize
    ensures InFile(elf, h) && i < |segments|
    ensures Holds(segments[i], U32(elf, h.fileOffset + 12 + k * 24 + 16), 4, true)
  {
    hide IsBootstrap, Holds;
    var section :| 0 <= section < |hs| && hs[section] == h;
    assert BootstrapHeaderLegal(elf, h, segments) && RecordsLegal(elf, h, segments);
    assert RecordLegal(elf, h.fileOffset + 12 + k * 24, segments);
    i :| 0 <= i < |segments| && Holds(segments[i], U32(elf, h.fileOffset + 12 + k * 24 + 16), 4, true);
  }

  lemma HeldByExecutable(s: Segment, address: nat)
    requires Holds(s, address, 4, true)
    ensures s.Executable()
  {
  }
}
