/** What every accepted WPS layout guarantees: conservation of bytes and unique ownership of addresses. */
module WpsLayout {
  import opened Bytes
  import opened Intervals
  import opened CStrings
  import opened SectionHeaders
  import opened WpsSections
  import opened WpsGeometry

  // ----- conservation of file bytes

  function StoredSizes(ss: seq<Section>): (xs: seq<nat>)
    ensures |xs| == |ss|
  {
    seq(|ss|, i requires 0 <= i < |ss| => StoredRange(ss[i].header).size)
  }

  /** The section table and the stored contents fit in the file side by side. */
  lemma FileConservation(image: bytes, zlib: Zlib)
    requires GeometryAccepts(image, zlib)
    ensures var g := GeometryOf(image, zlib);
            && 40 * g.table.count + Sum(StoredSizes(g.sections)) <= |image|
            && (g.table.offset >= 52 ==> 52 + 40 * g.table.count + Sum(StoredSizes(g.sections)) <= |image|)
  {
    var table := ReadTable(image).value;
    hide LayoutAccepts, SectionPassAccepts, ReadTable, StringTable, Sections, Sum, Disjoint, Within;
    TableAndContents(image, table, zlib);
    Packing([table.Extent()] + StoredRanges(image, table), if table.offset >= 52 then 52 else 0, |image|);
    TableAndContentsSize(image, table, zlib);
  }

  lemma TableAndContentsSize(image: bytes, table: Table, zlib: Zlib)
    requires TableFits(image, table) && AllLegal(image, table, zlib)
    ensures Sum(Sizes([table.Extent()] + StoredRanges(image, table)))
         == 40 * table.count + Sum(StoredSizes(Sections(image, table, zlib)))
  {
    hide SectionLegal, SectionAt, HeaderOf;
    var rs := [table.Extent()] + StoredRanges(image, table);
    var xs := StoredSizes(Sections(image, table, zlib));
    forall i | 0 <= i < table.count
      ensures xs[i] == rs[i + 1].size
    {
      StoredFacts(image, table, i, zlib);
    }
    assert Sizes(rs) == [40 * table.count] + xs;
    SumAppend([40 * table.count], xs);
    assert Sum([40 * table.count]) == 40 * table.count;
  }

  lemma TableAndContents(image: bytes, table: Table, zlib: Zlib)
    requires TableFits(image, table) && SectionPassAccepts(image, table, zlib)
    ensures Disjoint([table.Extent()] + StoredRanges(image, table))
    ensures Within([table.Extent()] + StoredRanges(image, table), if table.offset >= 52 then 52 else 0, |image|)
  {
    hide SectionLegal, SectionAt, HeaderOf, Overlap, ExpandedSizes;
    var stored := StoredRanges(image, table);
    forall i | 0 <= i < table.count
      ensures stored[i].size > 0 ==>
                52 <= stored[i].start && stored[i].End() <= |image| && !Overlap(table.Extent(), stored[i])
    {
      StoredFacts(image, table, i, zlib);
    }
  }

  lemma StoredFacts(image: bytes, table: Table, i: nat, zlib: Zlib)
    requires TableFits(image, table) && i < table.count && SectionLegal(image, table, i, zlib)
    ensures StoredRanges(image, table)[i] == StoredRange(SectionAt(image, table, i, zlib).header)
    ensures var r := StoredRanges(image, table)[i];
            r.size > 0 ==> 52 <= r.start && r.End() <= |image| && !Overlap(table.Extent(), r)
  {
  }

  // ----- conservation of guest memory

  function SizesIn(ss: seq<Section>, region: Region): (xs: seq<nat>)
    ensures |xs| == |ss|
  {
    seq(|ss|, i requires 0 <= i < |ss| => RangeIn(ss[i], region).size)
  }

  function RangeIn(s: Section, region: Region): Range {
    if RegionOf(s) == region then GuestRangeOf(s) else Range(0, 0)
  }

  function RangesIn(ss: seq<Section>, region: Region): (rs: seq<Range>)
    ensures |rs| == |ss|
    ensures forall i :: 0 <= i < |ss| ==> rs[i] == RangeIn(ss[i], region)
  {
    seq(|ss|, i requires 0 <= i < |ss| => RangeIn(ss[i], region))
  }

  /** Regions are apart from each other, and the allocated sections of each one fit in it together. */
  lemma RegionConservation(image: bytes, zlib: Zlib, region: Region, other: Region)
    requires GeometryAccepts(image, zlib)
    ensures var g := GeometryOf(image, zlib);
            && (region != other ==> !Overlap(RegionRange(region, g.info), RegionRange(other, g.info)))
            && RegionRange(region, g.info).End() <= TWO_32
            && Sum(SizesIn(g.sections, region)) <= RegionRange(region, g.info).size
  {
    AcceptedRegions(image, zlib);
    hide GeometryAccepts, GeometryOf, AddressesAccept, RegionsAccept, Sum;
    var g := GeometryOf(image, zlib);
    PackedTotal(g.sections, g.info, region);
  }

  lemma AcceptedRegions(image: bytes, zlib: Zlib)
    requires GeometryAccepts(image, zlib)
    ensures var g := GeometryOf(image, zlib);
            && Disjoint(GuestRanges(g.sections)) && RegionsAccept(g.sections, g.info)
            && g.info.textSize <= MAX_EXPANDED_BYTES && g.info.dataSize <= MAX_EXPANDED_BYTES
            && g.info.loaderSize <= MAX_EXPANDED_BYTES
  {
    hide RegionsAccept, CrcsAccept, SectionPassAccepts, ReadTable, NamesAccept, Names, Disjoint, StringTable;
  }

  lemma PackedTotal(ss: seq<Section>, info: FileInfo, region: Region)
    requires Disjoint(GuestRanges(ss)) && RegionsAccept(ss, info)
    ensures Sum(SizesIn(ss, region)) <= RegionRange(region, info).size
  {
    hide RegionsAccept, Sum, GuestRangeOf, RegionOf;
    var window := RegionRange(region, info);
    var rs := RangesIn(ss, region);
    PackedRegion(ss, info, region);
    Packing(rs, window.start, window.End());
    assert Sizes(rs) == SizesIn(ss, region);
  }

  lemma PackedRegion(ss: seq<Section>, info: FileInfo, region: Region)
    requires Disjoint(GuestRanges(ss)) && RegionsAccept(ss, info)
    ensures Disjoint(RangesIn(ss, region))
    ensures Within(RangesIn(ss, region), RegionRange(region, info).start, RegionRange(region, info).End())
  {
    hide AnyBit;
    var all, rs := GuestRanges(ss), RangesIn(ss, region);
    assert forall i :: 0 <= i < |ss| && rs[i].size > 0 ==> rs[i] == all[i];
  }

  /** Alignments are powers of two up to 64 KiB, and an allocated section starts at a multiple of its own. */
  lemma AlignedSections(image: bytes, zlib: Zlib, i: nat)
    requires GeometryAccepts(image, zlib) && i < |GeometryOf(image, zlib).sections|
    ensures var h := GeometryOf(image, zlib).sections[i].header;
            h.alignment != 0 ==>
              && h.alignment <= 0x1_0000
              && IsPow2(h.alignment)
              && (AnyBit(h.flags, ALLOC) ==> h.address % h.alignment == 0)
  {
    var table := ReadTable(image).value;
    var h := HeaderOf(image, table, i);
    assert h == GeometryOf(image, zlib).sections[i].header && SectionLegal(image, table, i, zlib);
    if h.alignment != 0 {
      AlignedPlacement(h);
    }
  }

  lemma AlignedPlacement(h: Header)
    requires PlacementLegal(h) && h.alignment != 0
    ensures IsPow2(h.alignment)
    ensures AnyBit(h.flags, ALLOC) ==> h.address % h.alignment == 0
  {
    hide BitAnd;
    PowerOfTwoTest(h.alignment);
    var k: nat :| Pow2(k) == h.alignment;
    BitAndLowBits(h.address, k);
  }

  // ----- lookups by guest address

  /** `[address, address + size)` lies in one section that has all the required flags. */
  predicate GuestRangeOk(ss: seq<Section>, address: nat, size: nat, required: nat) {
    exists i :: 0 <= i < |ss| && Covers(ss[i], address, size, required)
  }

  predicate Covers(s: Section, address: nat, size: nat, required: nat) {
    && AllBits(s.header.flags, required)
    && address >= s.header.address
    && address - s.header.address <= s.expandedSize
    && size <= s.expandedSize - (address - s.header.address)
  }

  predicate Shows(s: Section, address: nat) {
    AnyBit(s.header.flags, ALLOC) && s.data != [] && 0 <= address - s.header.address < s.expandedSize
  }

  /** The string at a guest address, read from the first section that shows it. */
  function GuestString(ss: seq<Section>, address: nat): Option<string> {
    if ss == [] then None
    else if Shows(ss[0], address) then CString(ss[0].data, address - ss[0].header.address, 255)
    else GuestString(ss[1..], address)
  }

  /** The one allocated section that holds a guest byte. */
  ghost function Owner(ss: seq<Section>, address: int): (r: Option<Section>)
    ensures r.Some? <==> exists i :: 0 <= i < |ss| && ss[i].Owns(address)
    ensures r.Some? ==> r.value in ss && r.value.Owns(address)
  {
    if exists i :: 0 <= i < |ss| && ss[i].Owns(address) then
      var i :| 0 <= i < |ss| && ss[i].Owns(address);
      Some(ss[i])
    else None
  }

  /** All sections in the list that own the byte are one and the same section. */
  ghost predicate OneOwner(ss: seq<Section>, address: int) {
    forall s, t :: s in ss && t in ss && s.Owns(address) && t.Owns(address) ==> s == t
  }

  /** No two positions of an accepted section list own the same byte. */
  lemma UniqueOwner(ss: seq<Section>, names: seq<string>, i: nat, j: nat, address: int)
    requires |names| == |ss| && AddressesAccept(ss, names)
    requires i < |ss| && j < |ss| && ss[i].Owns(address) && ss[j].Owns(address)
    ensures i == j && Owner(ss, address) == Some(ss[i])
  {
    var all := GuestRanges(ss);
    UniqueHolder(all, i, j, address);
    var o := Owner(ss, address).value;
    var k :| 0 <= k < |ss| && ss[k] == o;
    UniqueHolder(all, i, k, address);
  }

  lemma AcceptedHasOneOwner(ss: seq<Section>, names: seq<string>, address: int)
    requires |names| == |ss| && AddressesAccept(ss, names)
    ensures OneOwner(ss, address)
  {
    hide AddressesAccept;
    forall s, t | s in ss && t in ss && s.Owns(address) && t.Owns(address)
      ensures s == t
    {
      var i :| 0 <= i < |ss| && ss[i] == s;
      var j :| 0 <= j < |ss| && ss[j] == t;
      UniqueOwner(ss, names, i, j, address);
    }
  }

  lemma {:induction false} BitAndChain(f: nat, r: nat, m: nat)
    requires AllBits(f, r) && AllBits(r, m)
    ensures AllBits(f, m)
  {
    if f != 0 && r != 0 && m != 0 {
      BitAndChain(f / 2, r / 2, m / 2);
    }
  }

  /** `guest_range` is a question about the owner of the first byte. */
  lemma GuestRangeByOwner(ss: seq<Section>, names: seq<string>, address: nat, size: nat, required: nat)
    requires |names| == |ss| && AddressesAccept(ss, names)
    requires size > 0 && AllBits(required, ALLOC)
    ensures GuestRangeOk(ss, address, size, required) <==>
              && Owner(ss, address).Some?
              && var s := Owner(ss, address).value;
              && AllBits(s.header.flags, required)
              && address + size <= s.GuestRange().End()
  {
    if GuestRangeOk(ss, address, size, required) {
      var i :| 0 <= i < |ss| && Covers(ss[i], address, size, required);
      BitAndChain(ss[i].header.flags, required, ALLOC);
      assert ss[i].Owns(address);
      UniqueOwner(ss, names, i, i, address);
    }
    if Owner(ss, address).Some? {
      var s := Owner(ss, address).value;
      var i :| 0 <= i < |ss| && ss[i] == s;
      if AllBits(s.header.flags, required) && address + size <= s.GuestRange().End() {
        assert Covers(ss[i], address, size, required);
      }
    }
  }

  ghost function StringFromOwner(owner: Option<Section>, address: nat): Option<string>
    requires owner.Some? ==> owner.value.Owns(address)
  {
    if owner.None? || owner.value.data == [] then None
    else CString(owner.value.data, address - owner.value.header.address, 255)
  }

  /** `guest_string` reads from the owner; a section without file content answers nothing. */
  lemma GuestStringByOwner(ss: seq<Section>, address: nat)
    requires OneOwner(ss, address)
    ensures GuestString(ss, address) == StringFromOwner(Owner(ss, address), address)
  {
    hide CString;
    var owner := Owner(ss, address);
    forall s | s in ss && Shows(s, address)
      ensures owner == Some(s)
    {
      var i :| 0 <= i < |ss| && ss[i] == s;
      assert ss[i].Owns(address);
    }
    FirstShown(ss, owner, address);
  }

  lemma {:induction false} FirstShown(ss: seq<Section>, owner: Option<Section>, address: nat)
    requires forall s :: s in ss && Shows(s, address) ==> owner == Some(s)
    ensures if owner.Some? && owner.value in ss && Shows(owner.value, address)
            then GuestString(ss, address) == CString(owner.value.data, address - owner.value.header.address, 255)
            else GuestString(ss, address) == None
  {
    hide CString;
    if ss != [] && !Shows(ss[0], address) {
      assert ss == [ss[0]] + ss[1..];
      FirstShown(ss[1..], owner, address);
    }
  }

  /** Reordering the sections of an accepted image changes no lookup. */
  lemma LookupsIgnoreOrder(ss: seq<Section>, names: seq<string>, ts: seq<Section>,
                           address: nat, size: nat, required: nat)
    requires |names| == |ss| && AddressesAccept(ss, names)
    requires multiset(ss) == multiset(ts)
    ensures Owner(ss, address) == Owner(ts, address)
    ensures GuestString(ss, address) == GuestString(ts, address)
    ensures GuestRangeOk(ss, address, size, required) <==> GuestRangeOk(ts, address, size, required)
  {
    hide Covers, AddressesAccept;
    SameMembers(ss, ts);
    SameMembers(ts, ss);
    AcceptedHasOneOwner(ss, names, address);
    SameOwner(ss, ts, address);
    GuestStringByOwner(ss, address);
    GuestStringByOwner(ts, address);
    CoverTransfers(ss, ts, address, size, required);
    CoverTransfers(ts, ss, address, size, required);
  }

  lemma SameOwner(ss: seq<Section>, ts: seq<Section>, address: int)
    requires forall s :: s in ss <==> s in ts
    requires OneOwner(ss, address)
    ensures OneOwner(ts, address) && Owner(ss, address) == Owner(ts, address)
  {
    if Owner(ss, address).Some? {
      var s := Owner(ss, address).value;
      var j :| 0 <= j < |ts| && ts[j] == s;
      assert ts[j].Owns(address);
    }
    if Owner(ts, address).Some? {
      var s := Owner(ts, address).value;
      var i :| 0 <= i < |ss| && ss[i] == s;
      assert ss[i].Owns(address);
    }
  }

  lemma SameMembers(ss: seq<Section>, ts: seq<Section>)
    requires multiset(ss) == multiset(ts)
    ensures forall s :: s in ss ==> s in ts
  {
    forall s | s in ss
      ensures s in ts
    {
      assert s in multiset(ss);
    }
  }

  lemma CoverTransfers(ss: seq<Section>, ts: seq<Section>, address: nat, size: nat, required: nat)
    requires forall s :: s in ss ==> s in ts
    ensures GuestRangeOk(ss, address, size, required) ==> GuestRangeOk(ts, address, size, required)
  {
    hide Covers;
    if GuestRangeOk(ss, address, size, required) {
      var i :| 0 <= i < |ss| && Covers(ss[i], address, size, required);
      assert ss[i] in ss;
      var j :| 0 <= j < |ts| && ts[j] == ss[i];
    }
  }
}
