/** What normalisation changes, what it leaves alone, and that running it again changes nothing. */
module NormalizeLaws {
  import opened Bytes
  import opened Intervals
  import opened SectionHeaders
  import opened ElfValidate
  import opened Normalize

  // ----- exact accounting, for every input

  /** Each byte of `b` is the byte of `a`, or went from 24 to 1. */
  ghost predicate Softened(a: bytes, b: bytes) {
    |a| == |b| && forall i :: 0 <= i < |a| ==> a[i] == b[i] || (a[i] == 24 && b[i] == 1)
  }

  ghost function Changes(a: bytes, b: bytes): set<int>
    requires |a| == |b|
  {
    set i | 0 <= i < |a| && a[i] != b[i]
  }

  lemma SoftenedChain(a: bytes, b: bytes, c: bytes)
    requires Softened(a, b) && Softened(b, c)
    ensures Softened(a, c) && |Changes(a, c)| == |Changes(a, b)| + |Changes(b, c)|
  {
    assert Changes(a, c) == Changes(a, b) + Changes(b, c);
    assert Changes(a, b) !! Changes(b, c);
  }

  /** Rewriting an entry touches its type byte only. */
  lemma RewriteEntryByte(data: bytes, at: nat)
    requires at + 8 <= |data|
    ensures IsUnaligned(data, at) <==> data[at + 7] == 24
    ensures RewriteEntry(data, at) == if data[at + 7] == 24 then data[at + 7 := 1] else data
  {
    var info := U32(data, at + 4);
    assert info == ((data[at + 4] as int * 0x100 + data[at + 5] as int) * 0x100 + data[at + 6] as int) * 0x100
                   + data[at + 7] as int;
    assert info % 0x100 == data[at + 7] as int;
    if data[at + 7] == 24 {
      var v := info / 0x100 * 0x100 + R_PPC_ADDR32;
      TopBytes(data[at + 4], data[at + 5], data[at + 6], v);
    }
  }

  lemma TopBytes(a: byte, b: byte, c: byte, v: u32)
    requires v == ((a as int * 0x100 + b as int) * 0x100 + c as int) * 0x100 + 1
    ensures EncodeU32(v) == [a, b, c, 1]
  {
    assert v / 0x100 == (a as int * 0x100 + b as int) * 0x100 + c as int;
    assert v / 0x1_0000 == v / 0x100 / 0x100 == a as int * 0x100 + b as int;
    assert v / 0x100_0000 == v / 0x1_0000 / 0x100 == a as int;
  }

  lemma EntrySoftens(data: bytes, at: nat)
    requires at + 8 <= |data|
    ensures Softened(data, RewriteEntry(data, at))
    ensures |Changes(data, RewriteEntry(data, at))| == if IsUnaligned(data, at) then 1 else 0
  {
    RewriteEntryByte(data, at);
    hide RewriteEntry, IsUnaligned;
    var d := RewriteEntry(data, at);
    if data[at + 7] == 24 {
      assert Changes(data, d) == {at + 7};
    } else {
      assert Changes(data, d) == {};
    }
  }

  lemma {:induction false} EntriesSoften(data: bytes, at: nat, step: nat, count: nat)
    requires step >= 12 && at + step * count <= |data|
    ensures var r := RewriteEntries(data, at, step, count);
            Softened(data, r.0) && |Changes(data, r.0)| == r.1
    decreases count
  {
    hide RewriteEntry, IsUnaligned;
    if count == 0 {
      assert Changes(data, data) == {};
    } else {
      RewriteStep(data, at, step, count);
      var next := RewriteEntry(data, at);
      EntrySoftens(data, at);
      EntriesSoften(next, at + step, step, count - 1);
      hide Softened, Changes, RewriteEntries;
      SoftenedChain(data, next, RewriteEntries(next, at + step, step, count - 1).0);
    }
  }

  lemma {:induction false} WalkSoftens(data: bytes, t: Tables, index: nat)
    requires SectionTableFits(data, t) && index <= t.sectionCount
    requires Walk(data, t, index).Some?
    ensures var (d, n) := Walk(data, t, index).value;
            Softened(data, d) && |Changes(data, d)| == n
    decreases t.sectionCount - index
  {
    hide RewriteEntries, SectionAt;
    if index == t.sectionCount {
      assert Changes(data, data) == {};
    } else {
      var h := SectionAt(data, t, index);
      if h.kind != RELA {
        WalkSoftens(data, t, index + 1);
      } else {
        var next := RewriteEntries(data, h.fileOffset, h.entrySize, EntryCount(h)).0;
        EntriesSoften(data, h.fileOffset, h.entrySize, EntryCount(h));
        WalkSoftens(next, t, index + 1);
        hide Softened, Changes;
        SoftenedChain(data, next, Walk(next, t, index + 1).value.0);
      }
    }
  }

  /**
   Whatever the sections overlap: every byte is unchanged or went from 24 to 1, and the returned count is the
   number of bytes that differ.
   */
  lemma ExactChangeCount(elf: bytes)
    requires Normalized(elf).Some?
    ensures var (d, n) := Normalized(elf).value;
            Softened(elf, d) && n == |Changes(elf, d)|
  {
    WalkSoftens(elf, TablesOf(elf), 0);
  }

  // ----- the closed form

  /** `p` is the type byte of one of `count` entries from `at` on. */
  predicate TypeByte(p: int, at: nat, step: nat, count: nat)
    decreases count
  {
    count > 0 && (p == at + 7 || TypeByte(p, at + step, step, count - 1))
  }

  lemma {:induction false} TypeByteInside(p: int, at: nat, step: nat, count: nat)
    requires TypeByte(p, at, step, count) && step >= 12
    ensures at + 7 <= p < at + step * count
    decreases count
  {
    EntriesFit(at, step, count);
    if p != at + 7 {
      TypeByteInside(p, at + step, step, count - 1);
    } else {
      StepsNonNegative(step, count - 1);
    }
  }

  lemma StepsNonNegative(step: nat, count: nat)
    ensures step * count >= 0
  {
  }

  lemma {:induction false} EntriesClosed(data: bytes, at: nat, step: nat, count: nat)
    requires step >= 12 && at + step * count <= |data|
    ensures forall p :: 0 <= p < |data| ==>
              RewriteEntries(data, at, step, count).0[p]
              == if data[p] == 24 && TypeByte(p, at, step, count) then 1 else data[p]
    decreases count
  {
    hide RewriteEntry, IsUnaligned;
    if count > 0 {
      RewriteStep(data, at, step, count);
      var next := RewriteEntry(data, at);
      RewriteEntryByte(data, at);
      EntriesClosed(next, at + step, step, count - 1);
    }
  }

  /** Section `j` holds a relocation table that has `p` as a type byte. */
  ghost predicate MarkedBy(data: bytes, t: Tables, j: nat, p: int)
    requires SectionTableFits(data, t) && j < t.sectionCount
  {
    var h := SectionAt(data, t, j);
    h.kind == RELA && RelaLegal(data, h) && TypeByte(p, h.fileOffset, h.entrySize, EntryCount(h))
  }

  ghost predicate MarkedFrom(data: bytes, t: Tables, index: nat, p: int)
    requires SectionTableFits(data, t)
  {
    exists j :: index <= j < t.sectionCount && MarkedBy(data, t, j, p)
  }

  function Extent(h: Header): Range {
    Range(h.fileOffset, h.storedSize)
  }

  /** The contents of `h` share no byte with the range `r`. */
  predicate Clear(h: Header, r: Range) {
    h.storedSize > 0 && r.size > 0 ==> !Overlap(Extent(h), r)
  }

  /** No type byte that holds 24 lies in the section header table. */
  ghost predicate TablesSafe(data: bytes, t: Tables)
    requires SectionTableFits(data, t)
  {
    forall p :: 0 <= p < |data| && t.SectionExtent().Contains(p) && MarkedFrom(data, t, 0, p) ==> data[p] != 24
  }

  ghost predicate SameHeaders(a: bytes, b: bytes, t: Tables)
    requires SectionTableFits(a, t)
  {
    |a| == |b| && forall j :: 0 <= j < t.sectionCount ==> SectionAt(a, t, j) == SectionAt(b, t, j)
  }

  lemma MarkedInside(data: bytes, t: Tables, j: nat, p: int)
    requires SectionTableFits(data, t) && j < t.sectionCount && MarkedBy(data, t, j, p)
    ensures Extent(SectionAt(data, t, j)).Contains(p) && Extent(SectionAt(data, t, j)).End() <= |data|
  {
    hide SectionAt;
    var h := SectionAt(data, t, j);
    TypeByteInside(p, h.fileOffset, h.entrySize, EntryCount(h));
  }

  /** Bytes outside the section header table do not matter to the headers. */
  lemma HeadersKept(a: bytes, b: bytes, t: Tables)
    requires SectionTableFits(a, t) && |a| == |b|
    requires forall p :: 0 <= p < |a| && t.SectionExtent().Contains(p) ==> a[p] == b[p]
    ensures SameHeaders(a, b, t)
  {
    hide SectionAt;
    forall j | 0 <= j < t.sectionCount
      ensures SectionAt(a, t, j) == SectionAt(b, t, j)
    {
      SectionKept(a, b, t, j);
    }
  }

  lemma SectionKept(a: bytes, b: bytes, t: Tables, j: nat)
    requires SectionTableFits(a, t) && |a| == |b| && j < t.sectionCount
    requires forall p :: 0 <= p < |a| && t.SectionExtent().Contains(p) ==> a[p] == b[p]
    ensures SectionAt(a, t, j) == SectionAt(b, t, j)
  {
    hide HeaderAt;
    HeaderInTable(a, t, j);
    HeaderKept(a, b, t.sectionOffset + j * t.sectionSize);
  }

  lemma HeaderInTable(data: bytes, t: Tables, j: nat)
    requires SectionTableFits(data, t) && j < t.sectionCount
    ensures 0 <= j * t.sectionSize
    ensures t.sectionOffset + j * t.sectionSize + 40 <= t.SectionExtent().End() <= |data|
  {
    StepsNonNegative(j, t.sectionSize);
    TableEntry(t.sectionOffset, t.sectionSize, t.sectionCount, j, t.SectionExtent().End());
  }

  lemma HeaderKept(a: bytes, b: bytes, at: nat)
    requires |a| == |b| && at + 40 <= |a|
    requires forall p :: at <= p < at + 40 ==> a[p] == b[p]
    ensures HeaderAt(a, at) == HeaderAt(b, at)
  {
  }

  lemma NotClear(h: Header, r: Range, p: int)
    requires Extent(h).Contains(p) && r.Contains(p)
    ensures !Clear(h, r)
  {
    OverlapMeansShared(Extent(h), r);
  }

  lemma SectionRewriteKeepsHeaders(data: bytes, t: Tables, index: nat)
    requires SectionTableFits(data, t) && index < t.sectionCount && TablesSafe(data, t)
    requires SectionAt(data, t, index).kind == RELA && RelaLegal(data, SectionAt(data, t, index))
    ensures var h := SectionAt(data, t, index);
            var next := RewriteEntries(data, h.fileOffset, h.entrySize, EntryCount(h)).0;
            && SameHeaders(data, next, t) && TablesSafe(next, t)
            && forall p :: 0 <= p < |data| ==>
                 next[p] == if data[p] == 24 && MarkedBy(data, t, index, p) then 1 else data[p]
  {
    hide SectionAt, SameHeaders, RewriteEntries;
    var h := SectionAt(data, t, index);
    var next := RewriteEntries(data, h.fileOffset, h.entrySize, EntryCount(h)).0;
    EntriesClosed(data, h.fileOffset, h.entrySize, EntryCount(h));
    assert forall p :: 0 <= p < |data| ==>
             next[p] == if data[p] == 24 && MarkedBy(data, t, index, p) then 1 else data[p];
    hide MarkedBy, RelaLegal, EntryCount;
    HeadersKept(data, next, t);
    SafetyKept(data, next, t);
  }

  /** Bytes that only went from 24 to something else leave safe tables safe. */
  lemma SafetyKept(a: bytes, b: bytes, t: Tables)
    requires SectionTableFits(a, t) && SameHeaders(a, b, t) && TablesSafe(a, t)
    requires forall p :: 0 <= p < |a| ==> b[p] == 24 ==> a[p] == 24
    ensures SectionTableFits(b, t) && TablesSafe(b, t)
  {
    hide MarkedFrom, SectionAt;
    forall p | 0 <= p < |b| && t.SectionExtent().Contains(p) && MarkedFrom(b, t, 0, p)
      ensures b[p] != 24
    {
      MarksTransfer(a, b, t, 0, p);
    }
  }

  lemma MarksTransfer(a: bytes, b: bytes, t: Tables, index: nat, p: int)
    requires SectionTableFits(a, t) && SameHeaders(a, b, t)
    ensures MarkedFrom(a, t, index, p) <==> MarkedFrom(b, t, index, p)
  {
    hide TypeByte, SectionAt;
    if j :| index <= j < t.sectionCount && MarkedBy(a, t, j, p) {
      assert MarkedBy(b, t, j, p);
    }
    if j :| index <= j < t.sectionCount && MarkedBy(b, t, j, p) {
      assert MarkedBy(a, t, j, p);
    }
  }

  lemma MarkedSplit(data: bytes, t: Tables, index: nat, p: int)
    requires SectionTableFits(data, t) && index < t.sectionCount
    ensures MarkedFrom(data, t, index, p) <==> MarkedBy(data, t, index, p) || MarkedFrom(data, t, index + 1, p)
  {
    hide MarkedBy;
  }

  ghost predicate RelasLegal(data: bytes, t: Tables, index: nat)
    requires SectionTableFits(data, t)
  {
    forall j :: index <= j < t.sectionCount && SectionAt(data, t, j).kind == RELA ==>
      RelaLegal(data, SectionAt(data, t, j))
  }

  /** `d` is `data` with every marked 24 replaced by 1. */
  ghost predicate PointwiseNormal(data: bytes, t: Tables, index: nat, d: bytes)
    requires SectionTableFits(data, t)
  {
    && |d| == |data|
    && forall p :: 0 <= p < |data| ==> d[p] == if data[p] == 24 && MarkedFrom(data, t, index, p) then 1 else data[p]
  }

  /** With the headers out of reach, the order of the walk does not matter. */
  lemma {:induction false} WalkClosed(data: bytes, t: Tables, index: nat)
    requires SectionTableFits(data, t) && index <= t.sectionCount && TablesSafe(data, t)
    requires Walk(data, t, index).Some?
    ensures var d := Walk(data, t, index).value.0;
            SameHeaders(data, d, t) && RelasLegal(data, t, index) && PointwiseNormal(data, t, index, d)
    decreases t.sectionCount - index
  {
    hide SectionAt, RewriteEntries, MarkedBy, RelaLegal, EntryCount;
    if index < t.sectionCount {
      var h := SectionAt(data, t, index);
      if h.kind != RELA {
        WalkClosed(data, t, index + 1);
        NotMarkedByOther(data, t, index);
        forall p {
          MarkedSplit(data, t, index, p);
        }
      } else {
        RewrittenThenWalked(data, t, index);
      }
    }
  }

  lemma NotMarkedByOther(data: bytes, t: Tables, j: nat)
    requires SectionTableFits(data, t) && j < t.sectionCount && SectionAt(data, t, j).kind != RELA
    ensures forall p :: !MarkedBy(data, t, j, p)
  {
  }

  lemma {:induction false} RewrittenThenWalked(data: bytes, t: Tables, index: nat)
    requires SectionTableFits(data, t) && index < t.sectionCount && TablesSafe(data, t)
    requires SectionAt(data, t, index).kind == RELA && Walk(data, t, index).Some?
    ensures var d := Walk(data, t, index).value.0;
            SameHeaders(data, d, t) && RelasLegal(data, t, index) && PointwiseNormal(data, t, index, d)
    decreases t.sectionCount - index, 0
  {
    var h := SectionAt(data, t, index);
    var next := RewriteEntries(data, h.fileOffset, h.entrySize, EntryCount(h)).0;
    SectionRewriteKeepsHeaders(data, t, index);
    hide SectionAt, RewriteEntries, MarkedBy, EntryCount, MarkedFrom;
    WalkClosed(next, t, index + 1);
    var d := Walk(data, t, index).value.0;
    assert d == Walk(next, t, index + 1).value.0;
    hide Walk;
    forall p | 0 <= p < |data|
      ensures d[p] == if data[p] == 24 && MarkedFrom(data, t, index, p) then 1 else data[p]
    {
      MarksTransfer(data, next, t, index + 1, p);
      MarkedSplit(data, t, index, p);
    }
  }

  // ----- idempotence and frame

  /** No type byte that holds 24 lies in the ELF header or the section header table. */
  ghost predicate HeadersSafe(elf: bytes)
    requires Normalizable(elf)
  {
    var t := TablesOf(elf);
    forall p :: 0 <= p < |elf| && (p < 52 || t.SectionExtent().Contains(p)) && MarkedFrom(elf, t, 0, p) ==> elf[p] != 24
  }

  /** Relocation tables that do not overlap the headers are safe, whatever they hold. */
  lemma ClearIsSafe(elf: bytes)
    requires Normalizable(elf)
    requires var t := TablesOf(elf);
             forall j :: 0 <= j < t.sectionCount && SectionAt(elf, t, j).kind == RELA ==>
               Clear(SectionAt(elf, t, j), Range(0, 52)) && Clear(SectionAt(elf, t, j), t.SectionExtent())
    ensures HeadersSafe(elf)
  {
    var t := TablesOf(elf);
    hide SectionAt, Clear;
    forall p | 0 <= p < |elf| && (p < 52 || t.SectionExtent().Contains(p))
      ensures !MarkedFrom(elf, t, 0, p)
    {
      if j :| 0 <= j < t.sectionCount && MarkedBy(elf, t, j, p) {
        MarkedInside(elf, t, j, p);
        NotClear(SectionAt(elf, t, j), if p < 52 then Range(0, 52) else t.SectionExtent(), p);
      }
    }
  }

  /** The relocation tables do not overlap each other. */
  ghost predicate RelasApart(elf: bytes)
    requires Normalizable(elf)
  {
    var t := TablesOf(elf);
    forall i, j | 0 <= i < t.sectionCount && 0 <= j < t.sectionCount && i != j ::
      SectionAt(elf, t, i).kind == RELA && SectionAt(elf, t, j).kind == RELA ==>
        Clear(SectionAt(elf, t, i), Extent(SectionAt(elf, t, j)))
  }

  /** Once no marked byte is 24, the walk returns the bytes as they are. */
  lemma {:induction false} QuietWalk(data: bytes, t: Tables, index: nat)
    requires SectionTableFits(data, t) && index <= t.sectionCount && RelasLegal(data, t, index)
    requires forall p :: 0 <= p < |data| && MarkedFrom(data, t, index, p) ==> data[p] != 24
    ensures Walk(data, t, index) == Some((data, 0))
    decreases t.sectionCount - index
  {
    hide SectionAt, RewriteEntries, MarkedBy, RelaLegal, EntryCount, MarkedFrom;
    if index < t.sectionCount {
      var h := SectionAt(data, t, index);
      forall p | 0 <= p < |data|
        ensures MarkedFrom(data, t, index + 1, p) ==> data[p] != 24
        ensures MarkedBy(data, t, index, p) ==> data[p] != 24
      {
        MarkedSplit(data, t, index, p);
      }
      QuietWalk(data, t, index + 1);
      if h.kind == RELA {
        QuietSection(data, t, index);
      }
    }
  }

  lemma QuietSection(data: bytes, t: Tables, index: nat)
    requires SectionTableFits(data, t) && index < t.sectionCount
    requires SectionAt(data, t, index).kind == RELA && RelaLegal(data, SectionAt(data, t, index))
    requires forall p :: 0 <= p < |data| && MarkedBy(data, t, index, p) ==> data[p] != 24
    ensures var h := SectionAt(data, t, index);
            RewriteEntries(data, h.fileOffset, h.entrySize, EntryCount(h)) == (data, 0)
  {
    var h := SectionAt(data, t, index);
    EntriesClosed(data, h.fileOffset, h.entrySize, EntryCount(h));
    EntriesSoften(data, h.fileOffset, h.entrySize, EntryCount(h));
    hide SectionAt, RewriteEntries, TypeByte;
    var r := RewriteEntries(data, h.fileOffset, h.entrySize, EntryCount(h));
    assert forall p :: 0 <= p < |data| ==> r.0[p] == data[p];
    assert r.0 == data;
    assert Changes(data, r.0) == {};
  }

  // ----- when a run changes nothing

  /** The file can be normalised, its relocation tables are legal, and no entry of them has type 24. */
  ghost predicate Settled(elf: bytes) {
    && Normalizable(elf) && RelasLegal(elf, TablesOf(elf), 0)
    && forall p :: 0 <= p < |elf| && MarkedFrom(elf, TablesOf(elf), 0, p) ==> elf[p] != 24
  }

  lemma UncountedSection(data: bytes, t: Tables, index: nat)
    requires SectionTableFits(data, t) && index < t.sectionCount
    requires SectionAt(data, t, index).kind == RELA && RelaLegal(data, SectionAt(data, t, index))
    requires var h := SectionAt(data, t, index);
             RewriteEntries(data, h.fileOffset, h.entrySize, EntryCount(h)).1 == 0
    ensures var h := SectionAt(data, t, index);
            RewriteEntries(data, h.fileOffset, h.entrySize, EntryCount(h)).0 == data
    ensures forall p :: 0 <= p < |data| && MarkedBy(data, t, index, p) ==> data[p] != 24
  {
    var h := SectionAt(data, t, index);
    EntriesClosed(data, h.fileOffset, h.entrySize, EntryCount(h));
    EntriesSoften(data, h.fileOffset, h.entrySize, EntryCount(h));
    hide SectionAt, RewriteEntries, TypeByte;
    var d := RewriteEntries(data, h.fileOffset, h.entrySize, EntryCount(h)).0;
    forall p | 0 <= p < |data|
      ensures d[p] == data[p]
    {
      assert p !in Changes(data, d);
    }
  }

  /** A walk that counts no change met legal tables without a 24, and returns the bytes it was given. */
  lemma {:induction false} UncountedWalk(data: bytes, t: Tables, index: nat)
    requires SectionTableFits(data, t) && index <= t.sectionCount
    requires Walk(data, t, index).Some? && Walk(data, t, index).value.1 == 0
    ensures Walk(data, t, index).value.0 == data && RelasLegal(data, t, index)
    ensures forall p :: 0 <= p < |data| && MarkedFrom(data, t, index, p) ==> data[p] != 24
    decreases t.sectionCount - index
  {
    hide SectionAt, RewriteEntries, MarkedBy, RelaLegal, EntryCount;
    if index < t.sectionCount {
      if SectionAt(data, t, index).kind == RELA {
        UncountedSection(data, t, index);
      } else {
        NotMarkedByOther(data, t, index);
      }
      UncountedWalk(data, t, index + 1);
      hide MarkedFrom, Walk;
      forall p | 0 <= p < |data| && MarkedFrom(data, t, index, p)
        ensures data[p] != 24
      {
        MarkedSplit(data, t, index, p);
      }
    }
  }

  /** A run changes nothing and returns 0 exactly on settled files. */
  lemma UnchangedExactly(elf: bytes)
    ensures Normalized(elf) == Some((elf, 0)) <==> Settled(elf)
    ensures Normalized(elf).Some? && Normalized(elf).value.1 == 0 <==> Settled(elf)
  {
    hide Walk, MarkedFrom, RelasLegal;
    if Normalized(elf).Some? && Normalized(elf).value.1 == 0 {
      UncountedWalk(elf, TablesOf(elf), 0);
    }
    if Settled(elf) {
      QuietWalk(elf, TablesOf(elf), 0);
    }
  }

  lemma HeaderBytesKept(a: bytes, b: bytes)
    requires |a| == |b| && |a| >= 52 && forall p :: 0 <= p < 52 ==> a[p] == b[p]
    ensures TablesOf(a) == TablesOf(b) && a[..7] == b[..7] && (IsPowerPcElf(a) <==> IsPowerPcElf(b))
  {
    assert forall i :: 0 <= i < 7 ==> a[..7][i] == b[..7][i];
  }

  /** Bytes that no relocation table contains stay. */
  lemma UnmarkedKept(elf: bytes, p: nat)
    requires Normalized(elf).Some? && HeadersSafe(elf) && p < |elf|
    requires forall j :: 0 <= j < TablesOf(elf).sectionCount && SectionAt(elf, TablesOf(elf), j).kind == RELA ==>
               !Extent(SectionAt(elf, TablesOf(elf), j)).Contains(p)
    ensures Normalized(elf).value.0[p] == elf[p]
  {
    var t := TablesOf(elf);
    WalkClosed(elf, t, 0);
    hide SectionAt, Walk;
    if MarkedFrom(elf, t, 0, p) {
      var j :| 0 <= j < t.sectionCount && MarkedBy(elf, t, j, p);
      MarkedInside(elf, t, j, p);
    }
  }

  lemma HeaderKeptByNormalize(elf: bytes)
    requires Normalized(elf).Some? && HeadersSafe(elf)
    ensures var d := Normalized(elf).value.0;
            TablesOf(d) == TablesOf(elf) && Normalizable(d) && SameHeaders(elf, d, TablesOf(elf))
            && (IsPowerPcElf(d) <==> IsPowerPcElf(elf))
  {
    var d, t := Normalized(elf).value.0, TablesOf(elf);
    WalkClosed(elf, t, 0);
    hide Walk, SectionAt, MarkedFrom;
    HeaderBytesKept(elf, d);
  }

  /** A first run leaves a settled file whenever no 24 it replaces lies in the headers. */
  lemma SafeSettles(elf: bytes)
    requires Normalized(elf).Some? && HeadersSafe(elf)
    ensures Settled(Normalized(elf).value.0)
  {
    var d, t := Normalized(elf).value.0, TablesOf(elf);
    WalkClosed(elf, t, 0);
    HeaderKeptByNormalize(elf);
    hide Walk, SectionAt, MarkedFrom;
    forall p | 0 <= p < |d|
      ensures MarkedFrom(d, t, 0, p) ==> d[p] != 24
    {
      MarksTransfer(elf, d, t, 0, p);
    }
  }

  /** A second run changes nothing exactly when the first left a settled file, as it does when the headers are safe. */
  lemma Idempotent(elf: bytes)
    requires Normalized(elf).Some?
    ensures var d := Normalized(elf).value.0;
            && (Normalized(d) == Some((d, 0)) <==> Settled(d))
            && (HeadersSafe(elf) ==> Settled(d))
  {
    var d := Normalized(elf).value.0;
    UnchangedExactly(d);
    hide Settled, HeadersSafe;
    if HeadersSafe(elf) {
      SafeSettles(elf);
    }
  }

  lemma {:induction false} TypeByteOfEntry(at: nat, step: nat, count: nat, k: nat, q: nat)
    requires step >= 12 && k < count && q < step
    ensures TypeByte(at + step * k + q, at, step, count) <==> q == 7
    decreases count
  {
    var p := at + step * k + q;
    if k > 0 {
      EntriesFit(at, step, k);
      TypeByteOfEntry(at + step, step, count - 1, k - 1, q);
      assert p == (at + step) + step * (k - 1) + q;
      StepsNonNegative(step, k - 1);
    } else if TypeByte(p, at + step, step, count - 1) {
      TypeByteInside(p, at + step, step, count - 1);
    }
  }

  /** Where entry `k` of relocation table `j` starts. */
  function RelocationAt(elf: bytes, t: Tables, j: nat, k: nat): (at: nat)
    requires SectionTableFits(elf, t) && j < t.sectionCount
  {
    StepsNonNegative(SectionAt(elf, t, j).entrySize, k);
    SectionAt(elf, t, j).fileOffset + SectionAt(elf, t, j).entrySize * k
  }

  lemma EntryInTable(h: Header, k: nat, limit: nat)
    requires h.entrySize >= 12 && h.storedSize % h.entrySize == 0 && h.fileOffset + h.storedSize <= limit
    requires k < EntryCount(h)
    ensures h.fileOffset + h.entrySize * k + h.entrySize <= h.fileOffset + h.storedSize <= limit
  {
    TableEntry(0, h.entrySize, EntryCount(h), k, h.storedSize);
  }

  /** Entry `k` of table `j`: its type is normalised and every other byte of it is the old one. */
  lemma EntryNormalised(elf: bytes, j: nat, k: nat, q: nat)
    requires Normalized(elf).Some? && HeadersSafe(elf) && RelasApart(elf)
    requires j < TablesOf(elf).sectionCount && SectionAt(elf, TablesOf(elf), j).kind == RELA
    requires var h := SectionAt(elf, TablesOf(elf), j);
             RelaLegal(elf, h) && k < EntryCount(h) && q < h.entrySize
    ensures var (d, at) := (Normalized(elf).value.0, RelocationAt(elf, TablesOf(elf), j, k) + q);
            && at < |elf|
            && d[at] == if q == 7 && elf[at] == 24 then 1 else elf[at]
  {
    var t := TablesOf(elf);
    WalkClosed(elf, t, 0);
    hide SectionAt, Walk, RelaLegal, RelasApart, MarkedFrom, EntryCount;
    MarksInEntry(elf, j, k, q);
  }

  lemma MarksInEntry(elf: bytes, j: nat, k: nat, q: nat)
    requires Normalizable(elf) && RelasApart(elf)
    requires j < TablesOf(elf).sectionCount && SectionAt(elf, TablesOf(elf), j).kind == RELA
    requires RelaLegal(elf, SectionAt(elf, TablesOf(elf), j))
    requires k < EntryCount(SectionAt(elf, TablesOf(elf), j)) && q < SectionAt(elf, TablesOf(elf), j).entrySize
    ensures RelocationAt(elf, TablesOf(elf), j, k) + q < |elf|
    ensures MarkedFrom(elf, TablesOf(elf), 0, RelocationAt(elf, TablesOf(elf), j, k) + q) <==> q == 7
  {
    var t := TablesOf(elf);
    hide SectionAt, TypeByte, EntryCount, Clear;
    var h := SectionAt(elf, t, j);
    var at := h.fileOffset + h.entrySize * k + q;
    EntryInTable(h, k, |elf|);
    StepsNonNegative(h.entrySize, k);
    TypeByteOfEntry(h.fileOffset, h.entrySize, EntryCount(h), k, q);
    assert MarkedBy(elf, t, j, at) <==> q == 7;
    if i :| 0 <= i < t.sectionCount && i != j && MarkedBy(elf, t, i, at) {
      MarkedInside(elf, t, i, at);
      NotClear(SectionAt(elf, t, i), Extent(h), at);
    }
  }

  /** Whatever is normalised had legal relocation tables. */
  lemma RelasWereLegal(elf: bytes)
    requires Normalized(elf).Some? && HeadersSafe(elf)
    ensures RelasLegal(elf, TablesOf(elf), 0)
  {
    WalkClosed(elf, TablesOf(elf), 0);
  }

  /** Every entry keeps its target, symbol index and addend; type 24 becomes type 1 and no 24 is left. */
  lemma EntryFields(elf: bytes, j: nat, k: nat)
    requires Normalized(elf).Some? && HeadersSafe(elf) && RelasApart(elf)
    requires j < TablesOf(elf).sectionCount && SectionAt(elf, TablesOf(elf), j).kind == RELA
    requires var h := SectionAt(elf, TablesOf(elf), j);
             RelaLegal(elf, h) && k < EntryCount(h)
    ensures var (d, at) := (Normalized(elf).value.0, RelocationAt(elf, TablesOf(elf), j, k));
            && at + 12 <= |elf|
            && U32(d, at) == U32(elf, at)
            && U32(d, at + 4) / 0x100 == U32(elf, at + 4) / 0x100
            && U32(d, at + 8) == U32(elf, at + 8)
            && U32(d, at + 4) % 0x100 != R_PPC_UADDR32
            && U32(d, at + 4) % 0x100 ==
                 if U32(elf, at + 4) % 0x100 == R_PPC_UADDR32 then R_PPC_ADDR32 else U32(elf, at + 4) % 0x100
  {
    var d, at := Normalized(elf).value.0, RelocationAt(elf, TablesOf(elf), j, k);
    EntryBytes(elf, j, k);
    FieldsOfBytes(elf, d, at);
  }

  lemma EntryBytes(elf: bytes, j: nat, k: nat)
    requires Normalized(elf).Some? && HeadersSafe(elf) && RelasApart(elf)
    requires j < TablesOf(elf).sectionCount && SectionAt(elf, TablesOf(elf), j).kind == RELA
    requires var h := SectionAt(elf, TablesOf(elf), j);
             RelaLegal(elf, h) && k < EntryCount(h)
    ensures var (d, at) := (Normalized(elf).value.0, RelocationAt(elf, TablesOf(elf), j, k));
            && at + 12 <= |elf|
            && forall p :: at <= p < at + 12 ==> d[p] == if p == at + 7 && elf[p] == 24 then 1 else elf[p]
  {
    var t := TablesOf(elf);
    var d, at := Normalized(elf).value.0, RelocationAt(elf, t, j, k);
    var h := SectionAt(elf, t, j);
    EntryInTable(h, k, |elf|);
    hide *;
    forall p | at <= p < at + 12
      ensures d[p] == if p == at + 7 && elf[p] == 24 then 1 else elf[p]
    {
      EntryNormalised(elf, j, k, p - at);
    }
  }

  lemma FieldsOfBytes(a: bytes, b: bytes, at: nat)
    requires |a| == |b| && at + 12 <= |a|
    requires forall p :: at <= p < at + 12 ==> b[p] == if p == at + 7 && a[p] == 24 then 1 else a[p]
    ensures U32(b, at) == U32(a, at) && U32(b, at + 8) == U32(a, at + 8)
    ensures U32(b, at + 4) / 0x100 == U32(a, at + 4) / 0x100
    ensures U32(b, at + 4) % 0x100 ==
              if U32(a, at + 4) % 0x100 == R_PPC_UADDR32 then R_PPC_ADDR32 else U32(a, at + 4) % 0x100
  {
    WordSplit(a, at + 4);
    WordSplit(b, at + 4);
    hide U32;
    SameWord(a, b, at);
    SameWord(a, b, at + 8);
  }

  lemma WordSplit(s: bytes, at: nat)
    requires at + 4 <= |s|
    ensures U32(s, at) % 0x100 == s[at + 3] as int
    ensures U32(s, at) / 0x100 == (s[at] as int * 0x100 + s[at + 1] as int) * 0x100 + s[at + 2] as int
  {
  }

  lemma SameWord(a: bytes, b: bytes, at: nat)
    requires |a| == |b| && at + 4 <= |a| && forall p :: at <= p < at + 4 ==> a[p] == b[p]
    ensures U32(a, at) == U32(b, at)
  {
  }

  // ----- why the headers must be out of reach

  /** A file with two headers; the table of the second holds the file offset of the first. */
  function OverlappingByte(i: int): byte {
    if i == 0 then 0x7F else if i == 1 then 0x45 else if i == 2 then 0x4C else if i == 3 then 0x46
    else if i == 4 || i == 6 then 1 else if i == 5 then 2
    else if i == 8 || i == 71 then 24
    else if i == 35 then 52 else if i == 47 then 40 else if i == 49 then 2
    else if i == 59 || i == 99 then 4
    else if i == 75 || i == 91 || i == 115 || i == 131 then 12
    else if i == 111 then 64
    else 0
  }

  function OverlappingFile(): (elf: bytes)
    ensures |elf| == 132 && forall i :: 0 <= i < 132 ==> elf[i] == OverlappingByte(i)
  {
    seq(132, i => OverlappingByte(i))
  }

  lemma OneEntry(data: bytes, at: nat)
    requires at + 12 <= |data|
    ensures RewriteEntries(data, at, 12, 1) ==
              if data[at + 7] == 24 then (data[at + 7 := 1], 1) else (data, 0)
  {
    RewriteStep(data, at, 12, 1);
    RewriteEntryByte(data, at);
  }

  /** Section `j` is a relocation table of one 12-byte entry at `offset`. */
  ghost predicate SingleEntry(data: bytes, j: nat, offset: nat) {
    && |data| == 132 && j < 2
    && var h := HeaderAt(data, 52 + j * 40);
    && h.kind == RELA && h.fileOffset == offset && h.storedSize == 12 && h.entrySize == 12
  }

  const TWO_HEADERS: Tables := Tables(0, 0, 0, 52, 40, 2, 0)

  lemma WalkSingle(data: bytes, j: nat, offset: nat)
    requires SingleEntry(data, j, offset) && offset + 12 <= 132
    ensures SectionTableFits(data, TWO_HEADERS)
    ensures var next := if data[offset + 7] == 24 then data[offset + 7 := 1] else data;
            Walk(data, TWO_HEADERS, j) ==
              match Walk(next, TWO_HEADERS, j + 1)
              case None => None
              case Some(rest) => Some((rest.0, (if data[offset + 7] == 24 then 1 else 0) + rest.1))
  {
    hide Walk, HeaderAt, RewriteEntries;
    OneEntry(data, offset);
    assert EntryCount(SectionAt(data, TWO_HEADERS, j)) == 1;
    WalkOne(data, TWO_HEADERS, j);
  }

  lemma WalkOne(data: bytes, t: Tables, j: nat)
    requires SectionTableFits(data, t) && j < t.sectionCount
    requires SectionAt(data, t, j).kind == RELA && RelaLegal(data, SectionAt(data, t, j))
    ensures var h := SectionAt(data, t, j);
            var here := RewriteEntries(data, h.fileOffset, h.entrySize, EntryCount(h));
            Walk(data, t, j) ==
              match Walk(here.0, t, j + 1)
              case None => None
              case Some(rest) => Some((rest.0, here.1 + rest.1))
  {
    hide SectionAt, RewriteEntries, EntryCount;
  }

  lemma WalkEnds(data: bytes)
    requires |data| == 132
    ensures Walk(data, TWO_HEADERS, 2) == Some((data, 0))
  {
  }

  /** Both tables of the file, walked in order. */
  lemma WalkBoth(data: bytes, first: nat)
    requires |data| == 132 && SingleEntry(data, 0, first) && first + 12 <= 52
    requires SingleEntry(if data[first + 7] == 24 then data[first + 7 := 1] else data, 1, 64)
    ensures Walk(data, TWO_HEADERS, 0) ==
              Some((var next := if data[first + 7] == 24 then data[first + 7 := 1] else data;
                    if data[71] == 24 then next[71 := 1] else next,
                    (if data[first + 7] == 24 then 1 else 0) + (if data[71] == 24 then 1 else 0)))
  {
    hide SingleEntry, RewriteEntries, SectionAt;
    var next := if data[first + 7] == 24 then data[first + 7 := 1] else data;
    WalkSingle(data, 0, first);
    WalkSingle(next, 1, 64);
    WalkEnds(if data[71] == 24 then next[71 := 1] else next);
  }

  lemma HeaderOfBytes(data: bytes, j: nat, offset: byte)
    requires |data| == 132 && j < 2
    requires forall p :: 52 + j * 40 <= p < 92 + j * 40 ==>
               data[p] == if p == 59 + j * 40 then 4 else if p == 71 + j * 40 then offset
                          else if p == 75 + j * 40 || p == 91 + j * 40 then 12 else 0
    ensures SingleEntry(data, j, offset)
  {
    WordOfBytes(data, 52 + j * 40 + 4, 4);
    WordOfBytes(data, 52 + j * 40 + 16, offset);
    WordOfBytes(data, 52 + j * 40 + 20, 12);
    WordOfBytes(data, 52 + j * 40 + 36, 12);
    hide U32;
  }

  lemma WordOfBytes(data: bytes, at: nat, low: byte)
    requires at + 4 <= |data| && data[at] == 0 && data[at + 1] == 0 && data[at + 2] == 0 && data[at + 3] == low
    ensures U32(data, at) == low
  {
  }

  lemma OverlappingFirst()
    ensures SingleEntry(OverlappingFile(), 0, 24)
  {
    hide SingleEntry;
    HeaderOfBytes(OverlappingFile(), 0, 24);
  }

  lemma OverlappingSecond()
    ensures SingleEntry(OverlappingFile(), 1, 64)
  {
    hide SingleEntry;
    HeaderOfBytes(OverlappingFile(), 1, 64);
  }

  lemma OverlappingFirstAfter()
    ensures SingleEntry(OverlappingFile()[71 := 1], 0, 1)
  {
    hide SingleEntry;
    HeaderOfBytes(OverlappingFile()[71 := 1], 0, 1);
  }

  lemma OverlappingSecondAfter()
    ensures SingleEntry(OverlappingFile()[71 := 1][8 := 1], 1, 64)
  {
    hide SingleEntry;
    HeaderOfBytes(OverlappingFile()[71 := 1][8 := 1], 1, 64);
  }

  lemma OverlappingTables(elf: bytes)
    requires |elf| == 132 && forall i :: 0 <= i < 52 ==> elf[i] == OverlappingByte(i)
    ensures Normalizable(elf) && TablesOf(elf) == TWO_HEADERS
  {
    assert elf[..7] == ELF_IDENT;
    WordOfBytes(elf, 28, 0);
    WordOfBytes(elf, 32, 52);
    hide U32;
  }

  lemma NormalizedTwo(elf: bytes)
    requires |elf| == 132 && forall i :: 0 <= i < 52 ==> elf[i] == OverlappingByte(i)
    ensures Normalized(elf) == Walk(elf, TWO_HEADERS, 0)
  {
    OverlappingTables(elf);
    hide OverlappingByte, Walk;
  }

  /** A relocation table over a section header: the second run still finds something to change. */
  lemma SecondRunChangesMore()
    ensures var elf := OverlappingFile();
            && Normalized(elf) == Some((elf[71 := 1], 1))
            && Normalized(elf[71 := 1]) == Some((elf[71 := 1][8 := 1], 1))
            && !Settled(elf[71 := 1]) && !HeadersSafe(elf)
  {
    OverlappingBytes();
    OverlappingFirst();
    OverlappingSecond();
    OverlappingFirstAfter();
    OverlappingSecondAfter();
    hide OverlappingFile, OverlappingByte, Normalized, Walk, SingleEntry, Settled, HeadersSafe;
    var elf := OverlappingFile();
    var once := elf[71 := 1];
    NormalizedTwo(elf);
    NormalizedTwo(once);
    WalkBoth(elf, 24);
    WalkBoth(once, 1);
    UnchangedExactly(once);
    Idempotent(elf);
  }

  lemma OverlappingBytes()
    ensures OverlappingFile()[31] == 0 && OverlappingFile()[71] == 24 && OverlappingFile()[8] == 24
  {
  }
}
