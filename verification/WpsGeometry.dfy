/** Section names, the CRC and FILEINFO trailer, guest memory layout, and what the layout guarantees. */
module WpsGeometry {
  import opened Bytes
  import opened Intervals
  import opened CStrings
  import opened SectionHeaders
  import opened WpsSections

  // ----- section names

  predicate StringTable(s: Section) {
    s.header.kind == STRTAB && s.data != [] && s.data[|s.data| - 1] == 0
  }

  function NameOf(s: Section, strings: bytes): Option<string> {
    CString(strings, s.header.nameOffset, 255)
  }

  ghost predicate NamesAccept(ss: seq<Section>, strings: bytes) {
    && (forall i :: 0 <= i < |ss| ==> NameOf(ss[i], strings).Some?)
    && (forall i, j :: 0 <= i < j < |ss| && NameOf(ss[i], strings).Some? && NameOf(ss[i], strings).value != "" ==>
          NameOf(ss[i], strings) != NameOf(ss[j], strings))
  }

  function Names(ss: seq<Section>, strings: bytes): (names: seq<string>)
    requires forall i :: 0 <= i < |ss| ==> NameOf(ss[i], strings).Some?
    ensures |names| == |ss|
  {
    seq(|ss|, i requires 0 <= i < |ss| => NameOf(ss[i], strings).value)
  }

  method ReadNames(ss: seq<Section>, strings: bytes) returns (r: Result<seq<string>>)
    ensures r.Ok? <==> NamesAccept(ss, strings)
    ensures r.Ok? ==> r.value == Names(ss, strings)
  {
    hide NameOf;
    var names: seq<string> := [];
    var seen: set<string> := {};
    for i := 0 to |ss|
      invariant |names| == i
      invariant forall j :: 0 <= j < i ==> NameOf(ss[j], strings) == Some(names[j])
      invariant forall t :: t in seen <==> t in names
      invariant forall j, k :: 0 <= j < k < i && names[j] != "" ==> names[j] != names[k]
    {
      var name := NameOf(ss[i], strings);
      if name.None? { return Rejected; }
      if name.value != "" && name.value in seen {
        var j :| 0 <= j < i && names[j] == name.value;
        return Rejected;
      }
      seen := seen + {name.value};
      names := names + [name.value];
    }
    return Ok(names);
  }

  /** The section called `name`; `by_name` keeps the last of equal names. */
  function ByName(ss: seq<Section>, names: seq<string>, name: string): (r: Option<Section>)
    requires |ss| == |names|
    ensures r.Some? <==> name in names
    ensures r.Some? ==> r.value in ss
  {
    if ss == [] then None
    else if names[|names| - 1] == name then Some(ss[|ss| - 1])
    else ByName(ss[..|ss| - 1], names[..|names| - 1], name)
  }

  // ----- the CRC and FILEINFO trailer

  datatype FileInfo = FileInfo(textSize: nat, dataSize: nat, loaderSize: nat)

  predicate RegionAlignmentLegal(alignment: u32) {
    0 < alignment <= 0x1_0000 && BitAnd(alignment, alignment - 1) == 0
  }

  function ReadFileInfo(ss: seq<Section>): (r: Option<FileInfo>)
    requires |ss| >= 2
    ensures r.Some? ==> 0 < r.value.textSize <= MAX_EXPANDED_BYTES
    ensures r.Some? ==> r.value.dataSize <= MAX_EXPANDED_BYTES && r.value.loaderSize <= MAX_EXPANDED_BYTES
  {
    var crcs, info := ss[|ss| - 2], ss[|ss| - 1];
    if crcs.header.kind != RPL_CRCS || info.header.kind != RPL_FILEINFO then None
    else if |crcs.data| != |ss| * 4 then None
    else if !(0x60 <= |info.data| <= 4096) || U32(info.data, 0) != 0xCAFE_0402 then None
    else
      var textSize, textAlignment, dataSize, dataAlignment, loaderSize :=
        U32(info.data, 4), U32(info.data, 8), U32(info.data, 12), U32(info.data, 16), U32(info.data, 20);
      var trampolines, loaderAdjustment := U32(info.data, 32), U32(info.data, 76);
      if textSize == 0 || textSize > MAX_EXPANDED_BYTES || dataSize > MAX_EXPANDED_BYTES ||
         loaderSize > MAX_EXPANDED_BYTES || !RegionAlignmentLegal(textAlignment) ||
         !RegionAlignmentLegal(dataAlignment) || trampolines > textSize || loaderAdjustment > loaderSize then None
      else Some(FileInfo(textSize, dataSize, loaderSize))
  }

  predicate CrcExempt(s: Section) {
    s.header.kind == NOBITS || s.header.kind == RPL_CRCS
  }

  ghost predicate CrcsAccept(ss: seq<Section>, crcs: bytes, zlib: Zlib)
    requires |crcs| == |ss| * 4
  {
    forall i :: 0 <= i < |ss| && !CrcExempt(ss[i]) ==> U32(crcs, i * 4) == zlib.crc32(ss[i].data)
  }

  method CheckCrcs(ss: seq<Section>, crcs: bytes, zlib: Zlib) returns (r: Result<()>)
    requires |crcs| == |ss| * 4
    ensures r.Ok? <==> CrcsAccept(ss, crcs, zlib)
  {
    for i := 0 to |ss|
      invariant forall j :: 0 <= j < i && !CrcExempt(ss[j]) ==> U32(crcs, j * 4) == zlib.crc32(ss[j].data)
    {
      if CrcExempt(ss[i]) { continue; }
      if U32(crcs, i * 4) != zlib.crc32(ss[i].data) { return Rejected; }
    }
    return Ok(());
  }

  // ----- guest memory

  /** Where an allocated section of this type, with these flags, may lie. */
  predicate AddressLegal(s: Section, name: string) {
    var h := s.header;
    && h.address + s.expandedSize <= TWO_32
    && if h.kind == RPL_IMPORTS then h.address >= LOADER_BASE
       else if AnyBit(h.flags, EXEC) then TEXT_BASE <= h.address < DATA_BASE
       else if h.address >= LOADER_BASE then
         name == ".wut_load_bounds" || h.kind == SYMTAB || h.kind == STRTAB || h.kind == DYNSYM
       else h.address >= DATA_BASE
  }

  /** The guest bytes of a section; none when it is not allocated. */
  function GuestRangeOf(s: Section): Range {
    if s.Allocated() then s.GuestRange() else Range(0, 0)
  }

  function GuestRanges(ss: seq<Section>): (rs: seq<Range>)
    ensures |rs| == |ss|
    ensures forall i :: 0 <= i < |ss| ==> rs[i] == GuestRangeOf(ss[i])
  {
    seq(|ss|, i requires 0 <= i < |ss| => GuestRangeOf(ss[i]))
  }

  ghost predicate AddressesAccept(ss: seq<Section>, names: seq<string>)
    requires |names| == |ss|
  {
    && (forall i :: 0 <= i < |ss| && ss[i].Allocated() ==> AddressLegal(ss[i], names[i]))
    && Disjoint(GuestRanges(ss))
  }

  method CheckAddresses(ss: seq<Section>, names: seq<string>) returns (r: Result<()>)
    requires |names| == |ss|
    ensures r.Ok? <==> AddressesAccept(ss, names)
  {
    hide AddressLegal, Disjoint, Collects, Overlap, AnyBit;
    ghost var all := GuestRanges(ss);
    var virtualRanges: seq<Range> := [];
    NothingCollected(all);
    for i := 0 to |ss|
      invariant forall j :: 0 <= j < i && ss[j].Allocated() ==> AddressLegal(ss[j], names[j])
      invariant Disjoint(all[..i]) && Collects(virtualRanges, all[..i])
    {
      CollectNext(virtualRanges, all, i);
      if !ss[i].Allocated() { continue; }
      if !AddressLegal(ss[i], names[i]) { return Rejected; }
      var meets := MeetsAny(ss[i].GuestRange(), virtualRanges);
      if meets { return Rejected; }
      virtualRanges := virtualRanges + [ss[i].GuestRange()];
    }
    assert all[..|ss|] == all;
    return Ok(());
  }

  // ----- FILEINFO regions

  datatype Region = Text | Data | Loader

  function RegionOf(s: Section): Region {
    if s.header.address >= LOADER_BASE then Loader
    else if AnyBit(s.header.flags, EXEC) then Text
    else Data
  }

  function RegionRange(region: Region, info: FileInfo): Range {
    match region
    case Text => Range(TEXT_BASE, info.textSize)
    case Data => Range(DATA_BASE, info.dataSize)
    case Loader => Range(LOADER_BASE, info.loaderSize)
  }

  predicate FitsRegion(s: Section, info: FileInfo) {
    var region := RegionRange(RegionOf(s), info);
    && region.start <= s.header.address
    && s.header.address + s.expandedSize <= region.End()
  }

  ghost predicate RegionsAccept(ss: seq<Section>, info: FileInfo) {
    forall i :: 0 <= i < |ss| && ss[i].Allocated() ==> FitsRegion(ss[i], info)
  }

  method CheckRegions(ss: seq<Section>, info: FileInfo) returns (r: Result<()>)
    ensures r.Ok? <==> RegionsAccept(ss, info)
  {
    hide AnyBit;
    for i := 0 to |ss|
      invariant forall j :: 0 <= j < i && ss[j].Allocated() ==> FitsRegion(ss[j], info)
    {
      if !ss[i].Allocated() { continue; }
      var base, size := TEXT_BASE, info.textSize;
      if ss[i].header.address >= LOADER_BASE {
        base, size := LOADER_BASE, info.loaderSize;
      } else if !AnyBit(ss[i].header.flags, EXEC) {
        base, size := DATA_BASE, info.dataSize;
      }
      var relative: int := ss[i].header.address - base;
      if relative < 0 || relative > size || ss[i].expandedSize > size - relative { return Rejected; }
    }
    return Ok(());
  }

  // ----- all of the geometry together

  /** The checks that look at all the sections together, given the section-name strings. */
  ghost predicate LayoutAccepts(ss: seq<Section>, strings: bytes, zlib: Zlib) {
    && NamesAccept(ss, strings)
    && |ss| >= 2
    && ReadFileInfo(ss).Some?
    && (CrcTableSize(ss); CrcsAccept(ss, ss[|ss| - 2].data, zlib))
    && AddressesAccept(ss, Names(ss, strings))
    && RegionsAccept(ss, ReadFileInfo(ss).value)
  }

  /** An image the inspection accepts up to its guest layout. */
  ghost predicate GeometryAccepts(image: bytes, zlib: Zlib) {
    && ReadTable(image).Some?
    && var table := ReadTable(image).value;
    && SectionPassAccepts(image, table, zlib)
    && var ss := Sections(image, table, zlib);
    && StringTable(ss[table.nameIndex])
    && LayoutAccepts(ss, ss[table.nameIndex].data, zlib)
  }

  datatype Geometry = Geometry(table: Table, sections: seq<Section>, names: seq<string>, info: FileInfo)

  ghost function GeometryOf(image: bytes, zlib: Zlib): Geometry
    requires GeometryAccepts(image, zlib)
  {
    var table := ReadTable(image).value;
    var ss := Sections(image, table, zlib);
    Geometry(table, ss, Names(ss, ss[table.nameIndex].data), ReadFileInfo(ss).value)
  }

  method ReadGeometry(image: bytes, zlib: Zlib) returns (r: Result<Geometry>)
    ensures r.Ok? <==> GeometryAccepts(image, zlib)
    ensures r.Ok? ==> r.value == GeometryOf(image, zlib)
  {
    hide SectionPassAccepts, Sections, NamesAccept, ReadFileInfo, CrcsAccept, AddressesAccept, RegionsAccept,
      StringTable;
    var table := ReadTable(image);
    if table.None? { return Rejected; }
    var sections := ReadSections(image, table.value, zlib);
    if sections.Rejected? { return Rejected; }
    var ss := sections.value;
    var strings := ss[table.value.nameIndex];
    if !StringTable(strings) { return Rejected; }
    var names := ReadNames(ss, strings.data);
    if names.Rejected? { return Rejected; }
    var info := ReadFileInfo(ss);
    if info.None? { return Rejected; }
    CrcTableSize(ss);
    var crcs := CheckCrcs(ss, ss[|ss| - 2].data, zlib);
    if crcs.Rejected? { return Rejected; }
    var addresses := CheckAddresses(ss, names.value);
    if addresses.Rejected? { return Rejected; }
    var regions := CheckRegions(ss, info.value);
    if regions.Rejected? { return Rejected; }
    return Ok(Geometry(table.value, ss, names.value, info.value));
  }

  lemma CrcTableSize(ss: seq<Section>)
    requires |ss| >= 2 && ReadFileInfo(ss).Some?
    ensures |ss[|ss| - 2].data| == |ss| * 4
  {
  }
}
