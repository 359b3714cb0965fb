/** The section pass of the WPS/RPL inspection and the image geometry it establishes. */
module WpsSections {
  import opened Bytes
  import opened Intervals
  import opened SectionHeaders

  const MAX_PAYLOAD_BYTES: nat := 64 * 1024 * 1024
  const MAX_EXPANDED_BYTES: nat := 97 * 1024 * 1024
  const MAX_SECTIONS: nat := 512
  const WPS_MAGIC: bytes := [0x7F, 0x45, 0x4C, 0x46, 1, 2, 1, 0xCA, 0xFE, 0x50, 0x4C]

  // section types of the RPL format
  const RPL_EXPORTS: u32 := 0x8000_0001
  const RPL_IMPORTS: u32 := 0x8000_0002
  const RPL_CRCS: u32 := 0x8000_0003
  const RPL_FILEINFO: u32 := 0x8000_0004

  // section flags
  const WRITE: nat := 1
  const ALLOC: nat := 2
  const EXEC: nat := 4
  const COMPRESSED: nat := 0x0800_0000

  const TEXT_BASE: nat := 0x0200_0000
  const DATA_BASE: nat := 0x1000_0000
  const LOADER_BASE: nat := 0xC000_0000

  /** What zlib computes: inflating a stream that must end cleanly, and the CRC of a content. */
  datatype Zlib = Zlib(inflate: (bytes, nat) -> Option<bytes>, crc32: bytes -> u32)

  datatype Section = Section(index: nat, header: Header, expandedSize: nat, data: bytes) {
    /** Occupies guest memory. */
    predicate Allocated() {
      AnyBit(header.flags, ALLOC) && expandedSize > 0
    }

    function GuestRange(): Range {
      Range(header.address, expandedSize)
    }

    /** `address` is one of this section's guest bytes. */
    predicate Owns(address: int) {
      Allocated() && GuestRange().Contains(address)
    }
  }

  datatype Table = Table(offset: nat, count: nat, nameIndex: nat) {
    function Extent(): Range {
      Range(offset, 40 * count)
    }
  }

  // ----- image header

  function ReadTable(image: bytes): (r: Option<Table>)
    ensures r.Some? ==> 5 <= r.value.count <= MAX_SECTIONS && r.value.nameIndex < r.value.count
    ensures r.Some? ==> r.value.Extent().End() <= |image| && 52 <= |image| <= MAX_PAYLOAD_BYTES
  {
    if !(52 <= |image| <= MAX_PAYLOAD_BYTES) then None
    else if image[..11] != WPS_MAGIC || U16(image, 16) != 0xFE01 || U16(image, 18) != 20 || U32(image, 20) != 1 ||
            U32(image, 28) != 0 || U16(image, 40) != 52 || U16(image, 44) != 0 then None
    else
      var offset, entrySize, count, nameIndex :=
        U32(image, 32), U16(image, 46), U16(image, 48), U16(image, 50);
      if entrySize != 40 || !(5 <= count <= MAX_SECTIONS) || nameIndex >= count ||
         offset + count * entrySize > |image| then None
      else Some(Table(offset, count, nameIndex))
  }

  ghost predicate TableFits(image: bytes, table: Table) {
    table.Extent().End() <= |image|
  }

  function HeaderOf(image: bytes, table: Table, i: nat): Header
    requires TableFits(image, table) && i < table.count
  {
    HeaderAt(image, table.offset + i * 40)
  }

  // ----- one section

  function StoredRange(h: Header): Range {
    if h.kind == NOBITS then Range(0, 0) else Range(h.fileOffset, h.storedSize)
  }

  /** The content of a compressed section: a big-endian length, then a stream of exactly that length. */
  function Inflated(stored: bytes, zlib: Zlib): (r: Option<bytes>)
    ensures r.Some? ==> 0 < |r.value| <= MAX_EXPANDED_BYTES
  {
    if |stored| < 5 then None
    else
      var size := U32(stored, 0);
      if size == 0 || size > MAX_EXPANDED_BYTES then None
      else
        match zlib.inflate(stored[4..], size)
        case None => None
        case Some(data) => if |data| != size then None else Some(data)
  }

  predicate AlignmentLegal(alignment: u32) {
    alignment == 0 || (alignment <= 0x1_0000 && BitAnd(alignment, alignment - 1) == 0)
  }

  predicate PlacementLegal(h: Header) {
    && AlignmentLegal(h.alignment)
    && !(AnyBit(h.flags, WRITE) && AnyBit(h.flags, EXEC))
    && (AnyBit(h.flags, ALLOC) && h.alignment != 0 ==> BitAnd(h.address, h.alignment - 1) == 0)
  }

  predicate ContentLegal(image: bytes, table: Table, h: Header, zlib: Zlib) {
    if h.kind == NOBITS then !AnyBit(h.flags, COMPRESSED)
    else
      && h.fileOffset + h.storedSize <= |image|
      && (h.storedSize > 0 ==> h.fileOffset >= 52 && !Overlap(StoredRange(h), table.Extent()))
      && (AnyBit(h.flags, COMPRESSED) ==> Inflated(image[h.fileOffset..h.fileOffset + h.storedSize], zlib).Some?)
  }

  /** Section `i` passes every check that looks at it alone. */
  predicate SectionLegal(image: bytes, table: Table, i: nat, zlib: Zlib)
    requires TableFits(image, table) && i < table.count
  {
    var h := HeaderOf(image, table, i);
    && (i == 0 ==> h.kind == 0 && h.storedSize == 0)
    && PlacementLegal(h)
    && ContentLegal(image, table, h, zlib)
  }

  function Content(image: bytes, table: Table, h: Header, zlib: Zlib): bytes
    requires ContentLegal(image, table, h, zlib)
  {
    if h.kind == NOBITS then []
    else
      var stored := image[h.fileOffset..h.fileOffset + h.storedSize];
      if AnyBit(h.flags, COMPRESSED) then Inflated(stored, zlib).value else stored
  }

  function SectionAt(image: bytes, table: Table, i: nat, zlib: Zlib): Section
    requires TableFits(image, table) && i < table.count && SectionLegal(image, table, i, zlib)
  {
    var h := HeaderOf(image, table, i);
    var data := Content(image, table, h, zlib);
    Section(i, h, if h.kind == NOBITS then h.storedSize else |data|, data)
  }

  // ----- what these checks ask, field by field

  /** `stored` stands for `content` in a compressed section: its length, then a stream that inflates to it. */
  predicate Deflates(stored: bytes, content: bytes, zlib: Zlib) {
    && 0 < |content| <= 97 * 1024 * 1024 && |stored| > 4
    && stored[..4] == EncodeU32(|content|) && zlib.inflate(stored[4..], |content|) == Some(content)
  }

  ghost predicate Inflatable(stored: bytes, zlib: Zlib) {
    exists content :: Deflates(stored, content, zlib)
  }

  lemma InflatedExactly(stored: bytes, content: bytes, zlib: Zlib)
    ensures Inflated(stored, zlib) == Some(content) <==> Deflates(stored, content, zlib)
  {
    if |stored| > 4 {
      assert stored[0..4] == stored[..4];
      EncodeDecodeU32(stored, 0);
      hide EncodeU32, U32;
      if Deflates(stored, content, zlib) {
        DecodeEncodeU32(|content|, stored, 0);
      }
    }
  }

  /** Zero or a power of two up to 64 KiB; not writable code; an allocated section at a multiple of its alignment. */
  ghost predicate WellPlaced(h: Header) {
    && (h.alignment != 0 ==> IsPow2(h.alignment) && h.alignment <= 0x1_0000)
    && !(h.flags % 2 == 1 && h.flags / 4 % 2 == 1)
    && (h.flags / 2 % 2 == 1 && h.alignment != 0 ==> h.address % h.alignment == 0)
  }

  lemma PlacementExactly(h: Header)
    ensures PlacementLegal(h) <==> WellPlaced(h)
  {
    FlagBits(h.flags);
    hide BitAnd, AnyBit, IsPow2;
    if h.alignment != 0 {
      PowerOfTwoTest(h.alignment);
      if IsPow2(h.alignment) {
        LowBitsOfAddress(h.address, h.alignment);
      }
    }
  }

  lemma LowBitsOfAddress(address: nat, alignment: nat)
    requires IsPow2(alignment)
    ensures alignment > 0 && BitAnd(address, alignment - 1) == address % alignment
  {
    var k: nat :| Pow2(k) == alignment;
    BitAndLowBits(address, k);
  }

  /** The stored bytes are in the file, behind the ELF header, and none of them is part of the section table. */
  ghost predicate StoredApart(image: bytes, table: Table, h: Header) {
    && h.fileOffset + h.storedSize <= |image|
    && forall p :: h.fileOffset <= p < h.fileOffset + h.storedSize ==> 52 <= p && !table.Extent().Contains(p)
  }

  /** What the content of section `s` has to do with the file. */
  ghost predicate Holds(image: bytes, table: Table, s: Section, zlib: Zlib) {
    var h := s.header;
    var compressed := h.flags / 0x0800_0000 % 2 == 1;
    if h.kind == NOBITS then !compressed && s.data == [] && s.expandedSize == h.storedSize
    else
      && StoredApart(image, table, h) && s.expandedSize == |s.data|
      && var stored := image[h.fileOffset..h.fileOffset + h.storedSize];
      if compressed then Deflates(stored, s.data, zlib) else s.data == stored
  }

  lemma ApartExactly(image: bytes, table: Table, h: Header)
    requires table.count > 0
    ensures StoredApart(image, table, h) <==>
              && h.fileOffset + h.storedSize <= |image|
              && (h.storedSize > 0 ==>
                    h.fileOffset >= 52 && !Overlap(Range(h.fileOffset, h.storedSize), table.Extent()))
  {
    var r := Range(h.fileOffset, h.storedSize);
    if h.storedSize > 0 {
      OverlapMeansShared(r, table.Extent());
      hide Overlap;
      if StoredApart(image, table, h) {
        assert !table.Extent().Contains(h.fileOffset) && h.fileOffset >= 52;
        forall x | r.Contains(x)
          ensures !table.Extent().Contains(x)
        {
        }
      } else {
        forall p | h.fileOffset <= p < h.fileOffset + h.storedSize && table.Extent().Contains(p)
          ensures Overlap(r, table.Extent())
        {
          assert r.Contains(p);
        }
      }
    }
  }

  lemma ContentExactly(image: bytes, table: Table, s: Section, zlib: Zlib)
    requires table.count > 0
    ensures Holds(image, table, s, zlib) <==>
              && ContentLegal(image, table, s.header, zlib) && s.data == Content(image, table, s.header, zlib)
              && s.expandedSize == if s.header.kind == NOBITS then s.header.storedSize else |s.data|
  {
    FlagBits(s.header.flags);
    ApartExactly(image, table, s.header);
    hide AnyBit, Overlap, Inflated, StoredApart, Deflates;
    var h := s.header;
    if h.fileOffset + h.storedSize <= |image| {
      InflatedExactly(image[h.fileOffset..h.fileOffset + h.storedSize], s.data, zlib);
    }
  }

  /** The section pass accepts section `i` as `s` exactly when `s` is well placed and holds what the file says. */
  lemma SectionExactly(image: bytes, table: Table, i: nat, zlib: Zlib, s: Section)
    requires TableFits(image, table) && i < table.count
    ensures SectionLegal(image, table, i, zlib) && SectionAt(image, table, i, zlib) == s <==>
              && s.index == i && s.header == HeaderAt(image, table.offset + 40 * i)
              && (i == 0 ==> s.header.kind == 0 && s.header.storedSize == 0)
              && WellPlaced(s.header) && Holds(image, table, s, zlib)
  {
    hide PlacementLegal, WellPlaced, ContentLegal, Holds, HeaderAt, Content;
    PlacementExactly(s.header);
    ContentExactly(image, table, s, zlib);
  }

  method CheckPlacement(h: Header) returns (ok: bool)
    ensures ok <==> PlacementLegal(h)
  {
    hide BitAnd;
    if h.alignment != 0 && (h.alignment > 0x1_0000 || BitAnd(h.alignment, h.alignment - 1) != 0) { return false; }
    if AnyBit(h.flags, WRITE) && AnyBit(h.flags, EXEC) { return false; }
    if AnyBit(h.flags, ALLOC) && h.alignment != 0 && BitAnd(h.address, h.alignment - 1) != 0 { return false; }
    return true;
  }

  method Inflate(stored: bytes, zlib: Zlib) returns (r: Result<bytes>)
    ensures r == match Inflated(stored, zlib) case None => Rejected case Some(data) => Ok(data)
  {
    hide U32;
    if |stored| < 5 { return Rejected; }
    var expandedSize := U32(stored, 0);
    if expandedSize == 0 || expandedSize > MAX_EXPANDED_BYTES { return Rejected; }
    var inflated := zlib.inflate(stored[4..], expandedSize);
    if inflated.None? || |inflated.value| != expandedSize { return Rejected; }
    return Ok(inflated.value);
  }

  method ReadContent(image: bytes, table: Table, h: Header, zlib: Zlib) returns (r: Result<bytes>)
    ensures r.Ok? <==> ContentLegal(image, table, h, zlib)
    ensures r.Ok? ==> r.value == Content(image, table, h, zlib)
  {
    hide BitAnd, Inflated;
    if h.kind == NOBITS { return if AnyBit(h.flags, COMPRESSED) then Rejected else Ok([]); }
    if h.fileOffset + h.storedSize > |image| { return Rejected; }
    if h.storedSize != 0 && (h.fileOffset < 52 ||
       (h.fileOffset < table.offset + table.count * 40 && table.offset < h.fileOffset + h.storedSize)) {
      return Rejected;
    }
    var stored := image[h.fileOffset..h.fileOffset + h.storedSize];
    if !AnyBit(h.flags, COMPRESSED) { return Ok(stored); }
    r := Inflate(stored, zlib);
  }

  method ReadSection(image: bytes, table: Table, index: nat, zlib: Zlib) returns (r: Result<Section>)
    requires TableFits(image, table) && index < table.count
    ensures r.Ok? <==> SectionLegal(image, table, index, zlib)
    ensures r.Ok? ==> r.value == SectionAt(image, table, index, zlib)
  {
    hide PlacementLegal, ContentLegal, Content, HeaderAt;
    var h := HeaderAt(image, table.offset + index * 40);
    if index == 0 && (h.kind != 0 || h.storedSize != 0) { return Rejected; }
    var placed := CheckPlacement(h);
    if !placed { return Rejected; }
    var data := ReadContent(image, table, h, zlib);
    if data.Rejected? { return Rejected; }
    return Ok(Section(index, h, if h.kind == NOBITS then h.storedSize else |data.value|, data.value));
  }

  // ----- the whole section pass

  function StoredRanges(image: bytes, table: Table): (rs: seq<Range>)
    requires TableFits(image, table)
    ensures |rs| == table.count
  {
    seq(table.count, i requires 0 <= i < table.count => StoredRange(HeaderOf(image, table, i)))
  }

  ghost predicate AllLegal(image: bytes, table: Table, zlib: Zlib)
    requires TableFits(image, table)
  {
    forall i :: 0 <= i < table.count ==> SectionLegal(image, table, i, zlib)
  }

  ghost function Sections(image: bytes, table: Table, zlib: Zlib): (ss: seq<Section>)
    requires TableFits(image, table) && AllLegal(image, table, zlib)
    ensures |ss| == table.count
  {
    seq(table.count, i requires 0 <= i < table.count => SectionAt(image, table, i, zlib))
  }

  function ExpandedSizes(ss: seq<Section>): (xs: seq<nat>)
    ensures |xs| == |ss|
  {
    seq(|ss|, i requires 0 <= i < |ss| => ss[i].expandedSize)
  }

  /** Every section is legal, stored contents do not overlap, and the expanded total is bounded. */
  ghost predicate SectionPassAccepts(image: bytes, table: Table, zlib: Zlib)
    requires TableFits(image, table)
  {
    && AllLegal(image, table, zlib)
    && Disjoint(StoredRanges(image, table))
    && Sum(ExpandedSizes(Sections(image, table, zlib))) <= MAX_EXPANDED_BYTES
  }

  lemma SectionFacts(image: bytes, table: Table, i: nat, zlib: Zlib)
    requires TableFits(image, table) && i < table.count && SectionLegal(image, table, i, zlib)
    ensures var s := SectionAt(image, table, i, zlib);
            s.index == i && s.header == HeaderOf(image, table, i)
    ensures StoredRanges(image, table)[i] == StoredRange(HeaderOf(image, table, i))
  {
  }

  method ReadSections(image: bytes, table: Table, zlib: Zlib) returns (r: Result<seq<Section>>)
    requires TableFits(image, table)
    ensures r.Ok? <==> SectionPassAccepts(image, table, zlib)
    ensures r.Ok? ==> r.value == Sections(image, table, zlib)
  {
    hide SectionLegal, SectionAt, HeaderOf, Overlap, Disjoint, Collects, Sum, ExpandedSizes, StoredRanges, StoredRange;
    var sections: seq<Section> := [];
    var ranges: seq<Range> := [];
    var expandedTotal: nat := 0;
    ghost var all := StoredRanges(image, table);
    NothingCollected(all);
    NothingExpanded();
    var index := 0;
    while index < table.count
      invariant 0 <= index <= table.count && |sections| == index
      invariant forall i :: 0 <= i < index ==>
        SectionLegal(image, table, i, zlib) && sections[i] == SectionAt(image, table, i, zlib)
      invariant Disjoint(all[..index]) && Collects(ranges, all[..index])
      invariant expandedTotal == Sum(ExpandedSizes(sections)) <= MAX_EXPANDED_BYTES
    {
      var read := ReadSection(image, table, index, zlib);
      if read.Rejected? { return Rejected; }
      var section := read.value;
      SectionFacts(image, table, index, zlib);
      var stored := StoredRange(section.header);
      CollectNext(ranges, all, index);
      if stored.size > 0 {
        var meets := MeetsAny(stored, ranges);
        if meets { return Rejected; }
        ranges := ranges + [stored];
      }
      expandedTotal := expandedTotal + section.expandedSize;
      ExpandedTotalGrows(sections, section);
      sections := sections + [section];
      if expandedTotal > MAX_EXPANDED_BYTES {
        RunningTotal(image, table, zlib, sections);
        return Rejected;
      }
      index := index + 1;
    }
    assert all[..index] == all;
    assert sections == Sections(image, table, zlib);
    return Ok(sections);
  }

  lemma NothingExpanded()
    ensures Sum(ExpandedSizes([])) == 0
  {
  }

  lemma ExpandedTotalGrows(ss: seq<Section>, s: Section)
    ensures Sum(ExpandedSizes(ss + [s])) == Sum(ExpandedSizes(ss)) + s.expandedSize
  {
    assert ExpandedSizes(ss + [s])[..|ss|] == ExpandedSizes(ss);
  }

  /** Once a prefix of the sections expands past the limit, so do all of them. */
  lemma RunningTotal(image: bytes, table: Table, zlib: Zlib, front: seq<Section>)
    requires TableFits(image, table) && |front| <= table.count
    requires AllLegal(image, table, zlib) ==> front == Sections(image, table, zlib)[..|front|]
    requires Sum(ExpandedSizes(front)) > MAX_EXPANDED_BYTES
    ensures !SectionPassAccepts(image, table, zlib)
  {
    if AllLegal(image, table, zlib) {
      var ss := Sections(image, table, zlib);
      assert ExpandedSizes(ss)[..|front|] == ExpandedSizes(front);
      SumPrefix(ExpandedSizes(ss), |front|);
    }
  }
}
