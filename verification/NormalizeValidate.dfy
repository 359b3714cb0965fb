/** Normalising turns exactly the images that are valid up to type 24 into strictly valid ones. */
module NormalizeValidate {
  import opened Bytes
  import opened Intervals
  import opened SectionHeaders
  import opened ElfValidate
  import opened Normalize
  import opened NormalizeLaws

  /**
   No relocation table overlaps the ELF header, the program headers, the section headers or the contents of
   any other section.
   */
  ghost predicate RelasIsolated(elf: bytes)
    requires Normalizable(elf)
  {
    var t := TablesOf(elf);
    forall j :: 0 <= j < t.sectionCount && SectionAt(elf, t, j).kind == RELA ==> Isolated(elf, t, j)
  }

  ghost predicate Isolated(elf: bytes, t: Tables, j: nat)
    requires SectionTableFits(elf, t) && j < t.sectionCount
  {
    var h := SectionAt(elf, t, j);
    && Clear(h, Range(0, 52)) && Clear(h, t.SectionExtent()) && Clear(h, t.ProgramExtent())
    && forall i :: 0 <= i < t.sectionCount && i != j && SectionAt(elf, t, i).kind != NOBITS ==>
         Clear(h, Extent(SectionAt(elf, t, i)))
  }

  lemma IsolatedIsApart(elf: bytes)
    requires Normalizable(elf) && RelasIsolated(elf)
    ensures HeadersSafe(elf) && RelasApart(elf)
  {
    hide SectionAt, Clear;
    assert forall j :: 0 <= j < TablesOf(elf).sectionCount && SectionAt(elf, TablesOf(elf), j).kind == RELA ==>
             Isolated(elf, TablesOf(elf), j);
    ClearIsSafe(elf);
  }

  /** A range that every relocation table is clear of keeps its bytes. */
  lemma RangeKept(elf: bytes, r: Range)
    requires Normalized(elf).Some? && HeadersSafe(elf) && r.End() <= |elf|
    requires forall j :: 0 <= j < TablesOf(elf).sectionCount && SectionAt(elf, TablesOf(elf), j).kind == RELA ==>
               Clear(SectionAt(elf, TablesOf(elf), j), r)
    ensures forall p :: r.start <= p < r.End() ==> Normalized(elf).value.0[p] == elf[p]
  {
    var t := TablesOf(elf);
    hide SectionAt, Normalized, HeadersSafe, Clear;
    forall p | r.start <= p < r.End()
      ensures Normalized(elf).value.0[p] == elf[p]
    {
      forall j | 0 <= j < t.sectionCount && SectionAt(elf, t, j).kind == RELA
        ensures !Extent(SectionAt(elf, t, j)).Contains(p)
      {
        if Extent(SectionAt(elf, t, j)).Contains(p) {
          NotClear(SectionAt(elf, t, j), r, p);
        }
      }
      UnmarkedKept(elf, p);
    }
  }

  // ----- segments

  lemma ProgramKept(a: bytes, b: bytes, t: Tables, i: nat)
    requires TablesLegal(a, t) && |a| == |b| && TablesLegal(b, t) && i < t.programCount
    requires forall p :: t.programOffset <= p < t.ProgramExtent().End() ==> a[p] == b[p]
    ensures IsLoad(a, t, i) <==> IsLoad(b, t, i)
    ensures SegmentAt(a, t, i) == SegmentAt(b, t, i)
    ensures SegmentLegal(a, t, i) <==> SegmentLegal(b, t, i)
  {
    hide TablesLegal, AllBits;
    TableEntry(t.programOffset, t.programSize, t.programCount, i, t.ProgramExtent().End());
    var at := ProgramAt(a, t, i);
    ProgramSizeLegal(a, t);
    assert forall p :: at <= p < at + 32 ==> a[p] == b[p];
    SameWord(a, b, at);
    SameWord(a, b, at + 4);
    SameWord(a, b, at + 8);
    SameWord(a, b, at + 16);
    SameWord(a, b, at + 20);
    SameWord(a, b, at + 24);
  }

  lemma ProgramSizeLegal(elf: bytes, t: Tables)
    requires TablesLegal(elf, t)
    ensures t.programSize >= 32
  {
  }

  lemma {:induction false} LoadsKept(a: bytes, b: bytes, t: Tables, n: nat)
    requires TablesLegal(a, t) && |a| == |b| && TablesLegal(b, t) && n <= t.programCount
    requires forall p :: t.programOffset <= p < t.ProgramExtent().End() ==> a[p] == b[p]
    ensures Loads(a, t, n) == Loads(b, t, n)
    ensures forall i :: 0 <= i < n ==>
              (IsLoad(a, t, i) <==> IsLoad(b, t, i)) && (SegmentLegal(a, t, i) <==> SegmentLegal(b, t, i))
  {
    hide TablesLegal, SegmentLegal, SegmentAt, IsLoad;
    if n > 0 {
      LoadsKept(a, b, t, n - 1);
      ProgramKept(a, b, t, n - 1);
    }
  }

  // ----- sections

  ghost predicate SameContent(a: bytes, b: bytes, h: Header) {
    |a| == |b| && forall p :: h.fileOffset <= p < h.fileOffset + h.storedSize && p < |a| ==> a[p] == b[p]
  }

  lemma ContentKept(a: bytes, b: bytes, h: Header)
    requires SameContent(a, b, h) && InFile(a, h)
    ensures InFile(b, h) && ContentOf(a, h) == ContentOf(b, h)
  {
    var x, y := ContentOf(a, h), ContentOf(b, h);
    assert forall p :: 0 <= p < |x| ==> x[p] == a[h.fileOffset + p] && y[p] == b[h.fileOffset + p];
  }

  lemma SymbolsKept(a: bytes, b: bytes, h: Header)
    requires SameContent(a, b, h) && InFile(a, h) && SymbolTableShape(h)
    ensures InFile(b, h) && (SymbolsDefined(a, h) <==> SymbolsDefined(b, h))
  {
    forall k | 1 <= k < h.storedSize / h.entrySize
      ensures U16(a, EntryAt(a, h, k) + 14) == U16(b, EntryAt(b, h, k) + 14)
    {
      hide U16;
      SameHalf(a, b, EntryAt(a, h, k) + 14);
    }
  }

  lemma SameHalf(a: bytes, b: bytes, at: nat)
    requires |a| == |b| && at + 2 <= |a| && a[at] == b[at] && a[at + 1] == b[at + 1]
    ensures U16(a, at) == U16(b, at)
  {
  }

  /** A section that is not a relocation table is judged the same. */
  lemma OtherSectionKept(a: bytes, b: bytes, hs: seq<Header>, h: Header, segments: seq<Segment>)
    requires h.kind != RELA && (h.kind != NOBITS ==> SameContent(a, b, h)) && |a| == |b|
    ensures SectionLegal(a, hs, h, segments, RELAXED_RELOCATIONS)
       <==> SectionLegal(b, hs, h, segments, STRICT_RELOCATIONS)
  {
    hide SymbolsDefined, SymbolTableShape;
    if IsSymbolTable(h) && SymbolTableShape(h) && InFile(a, h) {
      SymbolsKept(a, b, h);
    }
  }

  /** The words of a relocation entry before and after. */
  ghost predicate EntryMapped(a: bytes, b: bytes, at: nat) {
    && |a| == |b| && at + 8 <= |a|
    && U32(b, at) == U32(a, at)
    && U32(b, at + 4) / 0x100 == U32(a, at + 4) / 0x100
    && U32(b, at + 4) % 0x100 ==
         if U32(a, at + 4) % 0x100 == R_PPC_UADDR32 then R_PPC_ADDR32 else U32(a, at + 4) % 0x100
  }

  /** Relaxed legality before is strict legality after. */
  lemma RelocationMapped(a: bytes, b: bytes, at: nat, symbolCount: nat, segments: seq<Segment>)
    requires EntryMapped(a, b, at)
    ensures RelocationLegal(a, at, symbolCount, segments, RELAXED_RELOCATIONS)
       <==> RelocationLegal(b, at, symbolCount, segments, STRICT_RELOCATIONS)
  {
    hide U32, Contains;
  }

  lemma RelaSectionMapped(a: bytes, b: bytes, hs: seq<Header>, h: Header, segments: seq<Segment>)
    requires h.kind == RELA && TableMapped(a, b, h)
    ensures SectionLegal(a, hs, h, segments, RELAXED_RELOCATIONS)
       <==> SectionLegal(b, hs, h, segments, STRICT_RELOCATIONS)
  {
    hide RelocationLegal, EntryMapped;
    if RelocationTableShape(hs, h) {
      forall k | 0 <= k < h.storedSize / h.entrySize
        ensures RelocationLegal(a, EntryAt(a, h, k), SymbolCount(hs, h), segments, RELAXED_RELOCATIONS)
           <==> RelocationLegal(b, EntryAt(b, h, k), SymbolCount(hs, h), segments, STRICT_RELOCATIONS)
      {
        Commutes(h.entrySize, k);
        RelocationMapped(a, b, EntryStart(h, k), SymbolCount(hs, h), segments);
      }
    }
  }

  lemma Commutes(a: nat, b: nat)
    ensures a * b == b * a
  {
  }

  /** Every entry of table `j` is mapped. */
  ghost predicate TableMapped(a: bytes, b: bytes, h: Header) {
    && |a| == |b| && RelaLegal(a, h)
    && forall k :: 0 <= k < EntryCount(h) ==> EntryMapped(a, b, EntryStart(h, k))
  }

  function EntryStart(h: Header, k: nat): nat {
    StepsNonNegative(h.entrySize, k);
    h.fileOffset + h.entrySize * k
  }

  lemma RelaEntriesMapped(elf: bytes, j: nat)
    requires Normalized(elf).Some? && HeadersSafe(elf) && RelasApart(elf)
    requires j < TablesOf(elf).sectionCount && SectionAt(elf, TablesOf(elf), j).kind == RELA
    ensures TableMapped(elf, Normalized(elf).value.0, SectionAt(elf, TablesOf(elf), j))
  {
    RelasWereLegal(elf);
    hide SectionAt, Normalized, HeadersSafe, RelasApart, EntryCount, EntryMapped, RelaLegal, EntryStart;
    var h := SectionAt(elf, TablesOf(elf), j);
    forall k | 0 <= k < EntryCount(h)
      ensures EntryMapped(elf, Normalized(elf).value.0, EntryStart(h, k))
    {
      MappedEntry(elf, j, k);
    }
  }

  lemma MappedEntry(elf: bytes, j: nat, k: nat)
    requires Normalized(elf).Some? && HeadersSafe(elf) && RelasApart(elf)
    requires j < TablesOf(elf).sectionCount && SectionAt(elf, TablesOf(elf), j).kind == RELA
    requires var h := SectionAt(elf, TablesOf(elf), j);
             RelaLegal(elf, h) && k < EntryCount(h)
    ensures EntryMapped(elf, Normalized(elf).value.0, EntryStart(SectionAt(elf, TablesOf(elf), j), k))
  {
    EntryFields(elf, j, k);
    assert RelocationAt(elf, TablesOf(elf), j, k) == EntryStart(SectionAt(elf, TablesOf(elf), j), k);
    hide SectionAt, Normalized, HeadersSafe, RelasApart, EntryCount, RelocationAt, U32;
  }

  lemma OtherContentKept(elf: bytes, i: nat)
    requires Normalized(elf).Some? && RelasIsolated(elf)
    requires i < TablesOf(elf).sectionCount
    requires SectionAt(elf, TablesOf(elf), i).kind != RELA && SectionAt(elf, TablesOf(elf), i).kind != NOBITS
    ensures SameContent(elf, Normalized(elf).value.0, SectionAt(elf, TablesOf(elf), i))
  {
    var t := TablesOf(elf);
    IsolatedIsApart(elf);
    hide SectionAt, Normalized, HeadersSafe, RelasApart;
    var h := SectionAt(elf, t, i);
    forall p | h.fileOffset <= p < h.fileOffset + h.storedSize && p < |elf|
      ensures Normalized(elf).value.0[p] == elf[p]
    {
      forall j | 0 <= j < t.sectionCount && SectionAt(elf, t, j).kind == RELA
        ensures !Extent(SectionAt(elf, t, j)).Contains(p)
      {
        assert Isolated(elf, t, j);
        if Extent(SectionAt(elf, t, j)).Contains(p) {
          NotClear(SectionAt(elf, t, j), Extent(h), p);
        }
      }
      UnmarkedKept(elf, p);
    }
  }

  lemma SectionsMapped(elf: bytes, segments: seq<Segment>)
    requires Normalized(elf).Some? && RelasIsolated(elf)
    ensures var (d, hs) := (Normalized(elf).value.0, HeadersOf(elf, TablesOf(elf)));
            SectionsLegal(elf, hs, segments, RELAXED_RELOCATIONS)
            <==> SectionsLegal(d, hs, segments, STRICT_RELOCATIONS)
  {
    var t := TablesOf(elf);
    var d, hs := Normalized(elf).value.0, HeadersOf(elf, t);
    IsolatedIsApart(elf);
    forall i | 0 <= i < |hs|
      ensures SectionLegal(elf, hs, hs[i], segments, RELAXED_RELOCATIONS)
         <==> SectionLegal(d, hs, hs[i], segments, STRICT_RELOCATIONS)
    {
      var h := SectionAt(elf, t, i);
      assert hs[i] == h;
      hide SectionAt, Normalized, HeadersSafe, RelasApart, RelasIsolated, SectionLegal, TableMapped, SameContent;
      if h.kind == RELA {
        RelaEntriesMapped(elf, i);
        RelaSectionMapped(elf, d, hs, h, segments);
      } else {
        if h.kind != NOBITS {
          OtherContentKept(elf, i);
        }
        OtherSectionKept(elf, d, hs, h, segments);
      }
    }
  }

  // ----- the bootstrap section

  lemma BootstrapKept(a: bytes, b: bytes, h: Header, segments: seq<Segment>)
    requires |a| == |b| && (h.kind == PROGBITS ==> SameContent(a, b, h))
    ensures BootstrapHeaderLegal(a, h, segments) <==> BootstrapHeaderLegal(b, h, segments)
    ensures BootstrapHeaderLegal(a, h, segments) ==> (RecordsLegal(a, h, segments) <==> RecordsLegal(b, h, segments))
  {
    hide AnyBit, Contains, RecordLegal;
    if h.kind == PROGBITS && InFile(a, h) && h.storedSize >= 12 {
      BootstrapWords(a, b, h);
      if BootstrapHeaderLegal(a, h, segments) {
        forall k | 0 <= k < U32(a, h.fileOffset + 8)
          ensures RecordLegal(a, h.fileOffset + 12 + k * 24, segments)
             <==> RecordLegal(b, h.fileOffset + 12 + k * 24, segments)
        {
          RecordKept(a, b, h.fileOffset + 12 + k * 24, segments);
        }
      }
    }
  }

  lemma BootstrapWords(a: bytes, b: bytes, h: Header)
    requires SameContent(a, b, h) && InFile(a, h) && h.storedSize >= 12
    ensures U32(a, h.fileOffset) == U32(b, h.fileOffset) && U32(a, h.fileOffset + 8) == U32(b, h.fileOffset + 8)
    ensures U16(a, h.fileOffset + 4) == U16(b, h.fileOffset + 4) && U16(a, h.fileOffset + 6) == U16(b, h.fileOffset + 6)
  {
    SameWord(a, b, h.fileOffset);
    SameWord(a, b, h.fileOffset + 8);
  }

  lemma RecordKept(a: bytes, b: bytes, at: nat, segments: seq<Segment>)
    requires |a| == |b| && at + 24 <= |a| && forall p :: at <= p < at + 24 ==> a[p] == b[p]
    ensures RecordLegal(a, at, segments) <==> RecordLegal(b, at, segments)
  {
    SameWord(a, b, at);
    SameWord(a, b, at + 4);
    SameWord(a, b, at + 12);
    SameWord(a, b, at + 16);
    SameWord(a, b, at + 20);
    hide U32, Contains, BitAnd;
  }

  lemma BootstrapsKept(elf: bytes, strings: bytes, segments: seq<Segment>)
    requires Normalized(elf).Some? && RelasIsolated(elf)
    ensures var (d, hs) := (Normalized(elf).value.0, HeadersOf(elf, TablesOf(elf)));
            BootstrapAccepts(elf, hs, strings, segments) <==> BootstrapAccepts(d, hs, strings, segments)
  {
    var t := TablesOf(elf);
    var d, hs := Normalized(elf).value.0, HeadersOf(elf, t);
    forall i | 0 <= i < |hs|
      ensures BootstrapHeaderLegal(elf, hs[i], segments) <==> BootstrapHeaderLegal(d, hs[i], segments)
      ensures BootstrapHeaderLegal(elf, hs[i], segments) ==>
                (RecordsLegal(elf, hs[i], segments) <==> RecordsLegal(d, hs[i], segments))
    {
      assert hs[i] == SectionAt(elf, t, i);
      hide SectionAt, Normalized, RelasIsolated, BootstrapHeaderLegal, RecordsLegal, SameContent;
      if hs[i].kind == PROGBITS {
        OtherContentKept(elf, i);
      }
      BootstrapKept(elf, d, hs[i], segments);
    }
    hide BootstrapHeaderLegal, RecordsLegal, IsBootstrap, Normalized, HeadersOf, RelasIsolated;
  }

  // ----- the theorem

  lemma TablesMapped(elf: bytes)
    requires Normalized(elf).Some? && RelasIsolated(elf) && TablesLegal(elf, TablesOf(elf))
    ensures var (d, t) := (Normalized(elf).value.0, TablesOf(elf));
            && TablesLegal(d, t) && HeadersOf(d, t) == HeadersOf(elf, t) && LoadsOf(d, t) == LoadsOf(elf, t)
            && (SegmentsAccept(d, t) <==> SegmentsAccept(elf, t))
  {
    var d, t := Normalized(elf).value.0, TablesOf(elf);
    IsolatedIsApart(elf);
    HeaderKeptByNormalize(elf);
    HeadersEqual(elf, d, t);
    RangeKept(elf, t.ProgramExtent());
    LoadsKept(elf, d, t, t.programCount);
  }

  lemma HeadersEqual(a: bytes, b: bytes, t: Tables)
    requires SectionTableFits(a, t) && SectionTableFits(b, t) && SameHeaders(a, b, t)
    ensures HeadersOf(a, t) == HeadersOf(b, t)
  {
    hide SectionAt;
  }

  lemma NameStringsKept(elf: bytes)
    requires Normalized(elf).Some? && RelasIsolated(elf) && TablesLegal(elf, TablesOf(elf))
    ensures var (d, t) := (Normalized(elf).value.0, TablesOf(elf));
            var h := HeadersOf(elf, t)[t.namesIndex];
            && (NameTableLegal(elf, h) <==> NameTableLegal(d, h))
            && (NameTableLegal(elf, h) ==> ContentOf(elf, h) == ContentOf(d, h))
  {
    var d, t := Normalized(elf).value.0, TablesOf(elf);
    var h := HeadersOf(elf, t)[t.namesIndex];
    assert h == SectionAt(elf, t, t.namesIndex);
    hide SectionAt, Normalized, RelasIsolated, SameContent;
    if NameTableLegal(elf, h) {
      OtherContentKept(elf, t.namesIndex);
      ContentKept(elf, d, h);
    }
  }

  /** An image valid up to type 24 becomes strictly valid, and nothing else does. */
  lemma NormalizeThenValidate(elf: bytes)
    requires Normalized(elf).Some? && RelasIsolated(elf)
    ensures ElfAccepts(Normalized(elf).value.0, STRICT_RELOCATIONS) <==> ElfAccepts(elf, RELAXED_RELOCATIONS)
  {
    var d, t := Normalized(elf).value.0, TablesOf(elf);
    IsolatedIsApart(elf);
    HeaderKeptByNormalize(elf);
    hide Normalized, RelasIsolated, HeadersSafe, RelasApart, IsPowerPcElf, TablesLegal, HeadersOf, LoadsOf,
      SegmentsAccept, NameTableLegal, NamesAccept, SectionsLegal, BootstrapAccepts, ContentOf, TablesOf;
    SameTablesLegal(elf, d, t);
    if TablesLegal(elf, t) {
      TablesMapped(elf);
      NameStringsKept(elf);
      NamesIndexLegal(elf, t);
      var h := HeadersOf(elf, t)[t.namesIndex];
      NameTableInFile(elf, h);
      SectionsMapped(elf, LoadsOf(elf, t));
      if NameTableLegal(elf, h) {
        BootstrapsKept(elf, ContentOf(elf, h), LoadsOf(elf, t));
      }
    }
  }

  lemma SameTablesLegal(a: bytes, b: bytes, t: Tables)
    requires |a| == |b|
    ensures TablesLegal(a, t) <==> TablesLegal(b, t)
  {
  }

  lemma NameTableInFile(elf: bytes, h: Header)
    ensures NameTableLegal(elf, h) ==> InFile(elf, h)
  {
  }

  // ----- acceptance guarantees that normalisation goes through

  /** With its headers out of reach and its tables legal, a file is never refused half way. */
  lemma {:induction false} WalkSucceeds(data: bytes, t: Tables, index: nat)
    requires SectionTableFits(data, t) && index <= t.sectionCount
    requires TablesSafe(data, t) && RelasLegal(data, t, index)
    ensures Walk(data, t, index).Some?
    decreases t.sectionCount - index
  {
    hide SectionAt, RewriteEntries, RelaLegal, EntryCount;
    if index < t.sectionCount {
      if SectionAt(data, t, index).kind != RELA {
        WalkSucceeds(data, t, index + 1);
      } else {
        var h := SectionAt(data, t, index);
        LegalShape(data, h);
        var next := RewriteEntries(data, h.fileOffset, h.entrySize, EntryCount(h)).0;
        SectionRewriteKeepsHeaders(data, t, index);
        SameLengthLegal(data, next);
        WalkSucceeds(next, t, index + 1);
      }
    }
  }

  lemma SameLengthLegal(a: bytes, b: bytes)
    requires |a| == |b|
    ensures forall h :: RelaLegal(a, h) <==> RelaLegal(b, h)
  {
  }

  lemma RelaxedRelasLegal(elf: bytes, hs: seq<Header>, h: Header, segments: seq<Segment>, kinds: set<nat>)
    requires SectionLegal(elf, hs, h, segments, kinds) && h.kind == RELA
    ensures RelaLegal(elf, h)
  {
  }

  lemma AcceptedIsNormalizable(elf: bytes, kinds: set<nat>)
    requires ElfAccepts(elf, kinds)
    ensures Normalizable(elf) && RelasLegal(elf, TablesOf(elf), 0)
  {
    hide LoadsOf, SectionLegal, RelaLegal, SegmentsAccept, NamesAccept, BootstrapAccepts, SectionAt;
    var t := TablesOf(elf);
    var hs := HeadersOf(elf, t);
    forall j | 0 <= j < t.sectionCount && SectionAt(elf, t, j).kind == RELA
      ensures RelaLegal(elf, SectionAt(elf, t, j))
    {
      assert hs[j] == SectionAt(elf, t, j);
      RelaxedRelasLegal(elf, hs, hs[j], LoadsOf(elf, t), kinds);
    }
  }

  /** Every image valid up to type 24, with isolated relocation tables, is normalised into a valid one. */
  lemma RelaxedBecomesStrict(elf: bytes)
    requires ElfAccepts(elf, RELAXED_RELOCATIONS)
    requires Normalizable(elf) ==> RelasIsolated(elf)
    ensures Normalized(elf).Some? && ElfAccepts(Normalized(elf).value.0, STRICT_RELOCATIONS)
  {
    AcceptedIsNormalizable(elf, RELAXED_RELOCATIONS);
    IsolatedIsApart(elf);
    hide ElfAccepts, RelasIsolated, Walk;
    WalkSucceeds(elf, TablesOf(elf), 0);
    NormalizeThenValidate(elf);
  }
}
