/** How the test suite completes a plugin into an image: the section-name table, the CRC table and FILEINFO. */
module WpsAssembly {
  import opened Bytes
  import opened Words
  import opened Intervals
  import opened Utf8
  import opened CStrings
  import opened SectionHeaders
  import opened WpsSections
  import opened WpsGeometry
  import opened WpsPrinter
  import opened WpsTables

  // ----- the section-name table

  /** An empty name, then every name with its terminator. */
  function NameTable(names: seq<string>): (s: bytes)
    ensures s != [] && s[0] == 0 && s[|s| - 1] == 0
  {
    if names == [] then [0]
    else NameTable(names[..|names| - 1]) + (Encode(names[|names| - 1]) + [0])
  }

  /** Where name `i` starts: the length of the table when the loop reaches it. */
  function NameStart(names: seq<string>, i: nat): nat
    requires i < |names|
  {
    |NameTable(names[..i])|
  }

  lemma {:induction false} NameStands(names: seq<string>, i: nat)
    requires i < |names|
    ensures StandsAt(NameTable(names), NameStart(names, i), names[i])
  {
    hide Encode;
    var k := |names| - 1;
    var front, last := NameTable(names[..k]), Encode(names[k]) + [0];
    if i == k {
      var s, n := NameTable(names), |Encode(names[k])|;
      assert s == front + last;
      assert s[|front|..|front| + n] == Encode(names[k]);
    } else {
      assert names[..k][..i] == names[..i];
      NameStands(names[..k], i);
      StandsInside(front, last, NameStart(names, i), names[i]);
    }
  }

  lemma StandsInside(front: bytes, last: bytes, offset: nat, t: string)
    requires StandsAt(front, offset, t)
    ensures StandsAt(front + last, offset, t)
  {
    hide Encode;
    var n := |Encode(t)|;
    assert (front + last)[offset..offset + n] == front[offset..offset + n];
  }

  predicate Nameable(name: string) {
    '\0' !in name && |Encode(name)| <= 255
  }

  /** Every NUL-free name of at most 255 bytes is read back from where the loop put it; offset 0 is the empty name. */
  lemma NamesReadBack(names: seq<string>, i: nat)
    requires i < |names| && Nameable(names[i])
    ensures CString(NameTable(names), NameStart(names, i), 255) == Some(names[i])
    ensures CString(NameTable(names), 0, 255) == Some("")
  {
    NameStands(names, i);
    CStringReads(NameTable(names), NameStart(names, i), 255, names[i]);
    CStringReads(NameTable(names), 0, 255, "");
    hide NameTable;
    assert NameTable(names)[0..0] == Encode("");
  }

  lemma {:induction false} NameTableSize(names: seq<string>)
    requires forall i :: 0 <= i < |names| ==> Nameable(names[i])
    ensures |NameTable(names)| <= 1 + 256 * |names|
  {
    hide Encode;
    if names != [] {
      NameTableSize(names[..|names| - 1]);
      assert Nameable(names[|names| - 1]);
    }
  }

  // ----- completing the sections of a plugin

  /** A section as the test suite lists it, with its name. */
  datatype Part = Part(name: string, kind: u32, flags: u32, address: u32, link: u32, info: u32, alignment: u32,
                       data: bytes)

  datatype Regions = Regions(text: u32, textAlignment: u32, data: u32, dataAlignment: u32, loader: u32) {
    function Content(): bytes {
      PackWords(FileInfoWords(text, textAlignment, data, dataAlignment, loader))
    }

    function Info(): FileInfo {
      FileInfo(text, data, loader)
    }

    predicate Legal() {
      && 0 < text <= MAX_EXPANDED_BYTES && data <= MAX_EXPANDED_BYTES && loader <= MAX_EXPANDED_BYTES
      && RegionAlignmentLegal(textAlignment) && RegionAlignmentLegal(dataAlignment)
    }
  }

  function PartNames(parts: seq<Part>): (names: seq<string>)
    ensures |names| == |parts| + 1
  {
    seq(|parts|, i requires 0 <= i < |parts| => parts[i].name) + [".shstrtab"]
  }

  predicate NamesFit(parts: seq<Part>) {
    |NameTable(PartNames(parts))| < TWO_32
  }

  lemma {:induction false} StartInside(names: seq<string>, i: nat)
    requires i < |names|
    ensures NameStart(names, i) < |NameTable(names)|
  {
    hide Encode;
    NameStands(names, i);
  }

  function PartSpec(parts: seq<Part>, i: nat): Spec
    requires NamesFit(parts) && i < |parts|
  {
    StartInside(PartNames(parts), i);
    var p := parts[i];
    Plain(NameStart(PartNames(parts), i), p.kind, p.flags, p.address, p.link, p.info, p.alignment, p.data)
  }

  function NamesSpec(parts: seq<Part>): Spec
    requires NamesFit(parts)
  {
    StartInside(PartNames(parts), |parts|);
    Plain(NameStart(PartNames(parts), |parts|), STRTAB, 0, 0, 0, 0, 1, NameTable(PartNames(parts)))
  }

  /** The contents in order, with none yet for the CRC table. */
  function Contents(parts: seq<Part>, regions: Regions): (datas: seq<bytes>)
    ensures |datas| == |parts| + 3
  {
    seq(|parts|, i requires 0 <= i < |parts| => parts[i].data)
    + [NameTable(PartNames(parts)), [], regions.Content()]
  }

  /** All the sections of the image: the parts, the names, the CRC table, FILEINFO. */
  function Completed(parts: seq<Part>, regions: Regions, zlib: Zlib): (specs: seq<Spec>)
    requires NamesFit(parts)
    ensures |specs| == |parts| + 3
  {
    seq(|parts|, i requires 0 <= i < |parts| => PartSpec(parts, i))
    + [NamesSpec(parts),
       Plain(0, RPL_CRCS, 0, 0, 0, 0, 4, CrcTable(Contents(parts, regions), |parts| + 1, zlib)),
       Plain(0, RPL_FILEINFO, 0, 0, 0, 0, 4, regions.Content())]
  }

  function Zeros(n: nat): (s: bytes)
    ensures |s| == n && forall i :: 0 <= i < n ==> s[i] == 0
  {
    seq(n, i => 0)
  }

  /** The parts can be completed into an image that the section pass accepts. */
  ghost predicate Completable(parts: seq<Part>, regions: Regions, zlib: Zlib) {
    && NamesFit(parts)
    && (forall i :: 0 <= i < |parts| ==> Nameable(parts[i].name))
    && Fits(Completed(parts, regions, zlib)) && SpecsLegal(Completed(parts, regions, zlib), zlib)
  }

  /** The sections as the inspection returns them. */
  function PrintedSections(specs: seq<Spec>): (ss: seq<Section>)
    requires Fits(specs)
    ensures |ss| == |specs|
    ensures forall i :: 0 <= i < |ss| ==>
              ss[i].header.kind == specs[i].kind && ss[i].header.nameOffset == specs[i].nameOffset
              && ss[i].data == specs[i].data
  {
    seq(|specs|, i requires 0 <= i < |specs| => Section(i, PrintedHeader(specs, i), |specs[i].data|, specs[i].data))
  }

  function AllNames(parts: seq<Part>): (names: seq<string>)
    ensures |names| == |parts| + 3
  {
    PartNames(parts) + ["", ""]
  }

  ghost predicate DistinctNames(names: seq<string>) {
    forall i, j :: 0 <= i < j < |names| && names[i] != "" ==> names[i] != names[j]
  }

  ghost predicate NamesRead(ss: seq<Section>, strings: bytes, names: seq<string>) {
    |names| == |ss| && forall i :: 0 <= i < |ss| ==> NameOf(ss[i], strings) == Some(names[i])
  }

  lemma CompletedOffset(parts: seq<Part>, regions: Regions, zlib: Zlib, i: nat)
    requires NamesFit(parts) && i < |parts| + 3
    ensures Completed(parts, regions, zlib)[i].nameOffset ==
              if i <= |parts| then NameStart(PartNames(parts), i) else 0
  {
    hide NameTable, CrcTable, NameStart, PartNames;
  }

  lemma TrailingName()
    ensures Nameable(".shstrtab")
  {
    AsciiLength(".shstrtab");
    hide Encode;
  }

  lemma NameRead(s: Section, strings: bytes)
    ensures NameOf(s, strings) == CString(strings, s.header.nameOffset, 255)
  {
  }

  lemma NameOrEmpty(parts: seq<Part>, i: nat)
    requires (forall k :: 0 <= k < |parts| ==> Nameable(parts[k].name)) && i < |parts| + 3
    ensures Nameable(PartNames(parts)[if i <= |parts| then i else |parts|])
    ensures AllNames(parts)[i] == if i <= |parts| then PartNames(parts)[i] else ""
  {
    hide Nameable;
    TrailingName();
  }

  lemma CompletedName(parts: seq<Part>, regions: Regions, zlib: Zlib, i: nat)
    requires Completable(parts, regions, zlib) && i < |parts| + 3
    ensures NameOf(PrintedSections(Completed(parts, regions, zlib))[i], NameTable(PartNames(parts)))
         == Some(AllNames(parts)[i])
  {
    hide NameTable, CString, Fits, Completed, SpecsLegal, NameStart, Nameable, PrintedSections, NamesFit, PartNames,
      AllNames, NameOf;
    NameOrEmpty(parts, i);
    CompletedOffset(parts, regions, zlib, i);
    NamesReadBack(PartNames(parts), if i <= |parts| then i else |parts|);
    NameRead(PrintedSections(Completed(parts, regions, zlib))[i], NameTable(PartNames(parts)));
  }

  lemma CompletedNames(parts: seq<Part>, regions: Regions, zlib: Zlib)
    requires Completable(parts, regions, zlib)
    ensures NamesRead(PrintedSections(Completed(parts, regions, zlib)), NameTable(PartNames(parts)), AllNames(parts))
  {
    PrintedLength(parts, regions, zlib);
    hide NameOf, PrintedSections, Completable, NameTable, Completed, AllNames, PartNames, NamesFit;
    var ss, strings := PrintedSections(Completed(parts, regions, zlib)), NameTable(PartNames(parts));
    forall i | 0 <= i < |ss|
      ensures NameOf(ss[i], strings) == Some(AllNames(parts)[i])
    {
      CompletedName(parts, regions, zlib, i);
    }
  }

  lemma PrintedLength(parts: seq<Part>, regions: Regions, zlib: Zlib)
    requires Completable(parts, regions, zlib)
    ensures NamesFit(parts) && Fits(Completed(parts, regions, zlib)) && 2 <= |parts| <= 509
    ensures |PrintedSections(Completed(parts, regions, zlib))| == |parts| + 3 == |AllNames(parts)|
  {
    hide NameTable, CursorAt, Completed, SpecsLegal;
  }

  lemma CompletedInfo(parts: seq<Part>, regions: Regions, zlib: Zlib)
    requires Completable(parts, regions, zlib)
    ensures |parts| >= 2
    ensures ReadFileInfo(PrintedSections(Completed(parts, regions, zlib)))
         == if regions.Legal() then Some(regions.Info()) else None
  {
    PrintedLength(parts, regions, zlib);
    hide ReadFileInfo, NameTable, CrcTable, PackWords, FileInfoWords, SpecsLegal, CursorAt, RegionAlignmentLegal,
      NamesFit;
    var ss := PrintedSections(Completed(parts, regions, zlib));
    FileInfoReadsBack(ss, regions.text, regions.textAlignment, regions.data, regions.dataAlignment, regions.loader);
  }

  // ----- the image read back

  lemma SpecsPass(image: bytes, specs: seq<Spec>, nameIndex: u16, zlib: Zlib)
    requires Fits(specs) && SpecsLegal(specs, zlib) && AllPlain(specs)
    requires nameIndex < |specs| && Laid(image, specs, nameIndex)
    ensures var table := Table(TABLE_OFFSET, |specs|, nameIndex);
            && ReadTable(image) == Some(table) && SectionPassAccepts(image, table, zlib)
            && Sections(image, table, zlib) == PrintedSections(specs)
  {
    PlainFits(specs);
    hide Laid, SpecsLegal, ReadTable, SectionPassAccepts, AllLegal, Sections, CursorAt, PrintedHeader, AllPlain, Sum,
      DataSizes;
    PrintedReadsBack(image, specs, nameIndex, zlib);
  }

  /** The CRC table of these sections, second to last, was computed over these contents. */
  ghost predicate CrcsPrinted(specs: seq<Spec>, datas: seq<bytes>, zlib: Zlib) {
    && 2 <= |specs| == |datas|
    && var crcIndex := |specs| - 2;
    && specs[crcIndex].kind == RPL_CRCS && specs[crcIndex].data == CrcTable(datas, crcIndex, zlib)
    && forall i :: 0 <= i < |specs| && i != crcIndex ==> datas[i] == specs[i].data
  }

  lemma SpecsCrcs(image: bytes, specs: seq<Spec>, nameIndex: u16, zlib: Zlib, datas: seq<bytes>)
    requires Fits(specs) && SpecsLegal(specs, zlib) && AllPlain(specs)
    requires nameIndex < |specs| && Laid(image, specs, nameIndex)
    requires CrcsPrinted(specs, datas, zlib)
    ensures |PrintedSections(specs)[|specs| - 2].data| == 4 * |specs|
    ensures CrcsAccept(PrintedSections(specs), PrintedSections(specs)[|specs| - 2].data, zlib)
  {
    PlainFits(specs);
    PrintedCrcsPass(image, specs, nameIndex, zlib, datas);
    SpecsPass(image, specs, nameIndex, zlib);
    hide Laid, SpecsLegal, CrcsAccept, CursorAt, CrcTable, Sections, SectionPassAccepts, ReadTable, AllPlain, Sum;
  }

  /** The section pass returns these sections, and their CRC table passes. */
  ghost predicate SectionsRead(image: bytes, zlib: Zlib, g: Geometry) {
    && ReadTable(image) == Some(g.table) && SectionPassAccepts(image, g.table, zlib)
    && Sections(image, g.table, zlib) == g.sections
    && var crcs := g.sections[|g.sections| - 2].data;
    && |crcs| == 4 * |g.sections| && CrcsAccept(g.sections, crcs, zlib)
  }

  lemma NamesReadAccept(ss: seq<Section>, strings: bytes, names: seq<string>)
    requires NamesRead(ss, strings, names)
    ensures NamesAccept(ss, strings) <==> DistinctNames(names)
    ensures NamesAccept(ss, strings) ==> Names(ss, strings) == names
  {
    hide NameOf;
  }

  lemma KnownLayout(zlib: Zlib, ss: seq<Section>, strings: bytes, names: seq<string>, info: Option<FileInfo>)
    requires |ss| >= 2 && NamesRead(ss, strings, names) && ReadFileInfo(ss) == info
    requires |ss[|ss| - 2].data| == 4 * |ss| && CrcsAccept(ss, ss[|ss| - 2].data, zlib)
    ensures |names| == |ss|
    ensures LayoutAccepts(ss, strings, zlib) <==>
              DistinctNames(names) && info.Some? && AddressesAccept(ss, names) && RegionsAccept(ss, info.value)
    ensures LayoutAccepts(ss, strings, zlib) ==> Names(ss, strings) == names
  {
    hide ReadFileInfo, CrcsAccept, AddressesAccept, RegionsAccept, NamesAccept, DistinctNames, Names;
    NamesReadAccept(ss, strings, names);
  }

  /** What is left to check once the section pass, the names, FILEINFO and the CRC table have been read. */
  lemma KnownGeometry(image: bytes, zlib: Zlib, g: Geometry, info: Option<FileInfo>)
    requires SectionsRead(image, zlib, g) && StringTable(g.sections[g.table.nameIndex])
    requires NamesRead(g.sections, g.sections[g.table.nameIndex].data, g.names)
    requires ReadFileInfo(g.sections) == info && (info.Some? ==> info.value == g.info)
    ensures |g.names| == |g.sections|
    ensures GeometryAccepts(image, zlib) <==>
              DistinctNames(g.names) && info.Some? && AddressesAccept(g.sections, g.names)
              && RegionsAccept(g.sections, g.info)
    ensures GeometryAccepts(image, zlib) ==> GeometryOf(image, zlib) == g
  {
    hide ReadTable, SectionPassAccepts, CrcsAccept, AddressesAccept, RegionsAccept, ReadFileInfo, StringTable,
      LayoutAccepts, DistinctNames, NamesRead, Names, Sections;
    KnownLayout(zlib, g.sections, g.sections[g.table.nameIndex].data, g.names, info);
    if LayoutAccepts(g.sections, g.sections[g.table.nameIndex].data, zlib) {
      LayoutHasInfo(g.sections, g.sections[g.table.nameIndex].data, zlib);
    }
  }

  lemma LayoutHasInfo(ss: seq<Section>, strings: bytes, zlib: Zlib)
    requires LayoutAccepts(ss, strings, zlib)
    ensures |ss| >= 2 && ReadFileInfo(ss).Some? && NamesAccept(ss, strings)
  {
    hide ReadFileInfo, NamesAccept, CrcsAccept, AddressesAccept, RegionsAccept;
  }

  lemma CompletedCrcs(parts: seq<Part>, regions: Regions, zlib: Zlib)
    requires NamesFit(parts)
    ensures CrcsPrinted(Completed(parts, regions, zlib), Contents(parts, regions), zlib)
  {
    hide NameTable, CrcTable, NameStart, PartNames;
  }

  lemma CompletedStrings(parts: seq<Part>, regions: Regions, zlib: Zlib)
    requires Completable(parts, regions, zlib)
    ensures var s := PrintedSections(Completed(parts, regions, zlib))[|parts|];
            StringTable(s) && s.data == NameTable(PartNames(parts))
  {
    hide NameTable, CursorAt, CrcTable, SpecsLegal;
  }

  lemma CompletedMeans(parts: seq<Part>, regions: Regions, zlib: Zlib)
    requires Completable(parts, regions, zlib)
    ensures NamesFit(parts) && Fits(Completed(parts, regions, zlib))
    ensures SpecsLegal(Completed(parts, regions, zlib), zlib)
    ensures AllPlain(Completed(parts, regions, zlib))
  {
    hide NameTable, CrcTable, NameStart, PartNames, CursorAt;
  }

  /** The image the suite prints for these parts. */
  ghost predicate IsImageOf(image: bytes, parts: seq<Part>, regions: Regions, zlib: Zlib) {
    Completable(parts, regions, zlib) && Laid(image, Completed(parts, regions, zlib), |parts|)
  }

  function PrintedGeometry(parts: seq<Part>, regions: Regions, zlib: Zlib): Geometry
    requires NamesFit(parts) && Fits(Completed(parts, regions, zlib))
  {
    Geometry(Table(TABLE_OFFSET, |parts| + 3, |parts|), PrintedSections(Completed(parts, regions, zlib)),
             AllNames(parts), regions.Info())
  }

  /** Names are distinct, regions legal, and every part lies where it may. */
  ghost predicate PlacedLegally(g: Geometry, regions: Regions) {
    && |g.names| == |g.sections| && DistinctNames(g.names) && regions.Legal()
    && AddressesAccept(g.sections, g.names) && RegionsAccept(g.sections, g.info)
  }

  /**
   A completed image is accepted up to its guest layout exactly when its names are distinct, its regions are legal
   and its parts lie where they may; then every section and name comes back.
   */
  lemma CompletedGeometry(image: bytes, parts: seq<Part>, regions: Regions, zlib: Zlib)
    requires IsImageOf(image, parts, regions, zlib)
    ensures NamesFit(parts) && Fits(Completed(parts, regions, zlib))
    ensures GeometryAccepts(image, zlib) <==> PlacedLegally(PrintedGeometry(parts, regions, zlib), regions)
    ensures GeometryAccepts(image, zlib) ==> GeometryOf(image, zlib) == PrintedGeometry(parts, regions, zlib)
  {
    hide Completable, Laid, Completed, SectionsRead, PrintedSections, NamesRead, DistinctNames, AllNames,
      AddressesAccept, RegionsAccept, ReadFileInfo, StringTable, NameTable, Fits, NamesFit, PartNames, GeometryAccepts,
      GeometryOf, Regions.Legal;
    CompletedMeans(parts, regions, zlib);
    CompletedPass(image, parts, regions, zlib);
    CompletedStrings(parts, regions, zlib);
    CompletedNames(parts, regions, zlib);
    CompletedInfo(parts, regions, zlib);
    var g := PrintedGeometry(parts, regions, zlib);
    KnownGeometry(image, zlib, g, if regions.Legal() then Some(regions.Info()) else None);
  }

  lemma CompletedPass(image: bytes, parts: seq<Part>, regions: Regions, zlib: Zlib)
    requires IsImageOf(image, parts, regions, zlib)
    ensures NamesFit(parts) && Fits(Completed(parts, regions, zlib))
    ensures SectionsRead(image, zlib, PrintedGeometry(parts, regions, zlib))
  {
    hide Completable, Laid, Completed, ReadTable, SectionPassAccepts, Sections, PrintedSections, CrcsAccept,
      AllNames, Fits, NamesFit, PartNames, SpecsLegal, Contents, CrcsPrinted, NameTable, AllPlain;
    PrintedLength(parts, regions, zlib);
    CompletedMeans(parts, regions, zlib);
    CompletedCrcs(parts, regions, zlib);
    var specs := Completed(parts, regions, zlib);
    SpecsPass(image, specs, |parts|, zlib);
    SpecsCrcs(image, specs, |parts|, zlib, Contents(parts, regions));
  }

  /** Section `i` of the inspection is this part. */
  predicate Prints(s: Section, i: nat, p: Part) {
    && s.index == i && s.data == p.data && s.expandedSize == |p.data|
    && s.header.kind == p.kind && s.header.flags == p.flags && s.header.address == p.address
    && s.header.link == p.link && s.header.info == p.info && s.header.entrySize == EntrySizeOf(p.kind)
  }

  /** The last three sections: of the given kinds, and outside guest memory. */
  predicate IsTrailer(ss: seq<Section>) {
    && |ss| >= 3 && ss[|ss| - 3].header.kind == STRTAB
    && ss[|ss| - 2].header.kind == RPL_CRCS && ss[|ss| - 1].header.kind == RPL_FILEINFO
    && forall i :: |ss| - 3 <= i < |ss| ==> ss[i].header.flags == 0
  }

  lemma PrintedPart(parts: seq<Part>, regions: Regions, zlib: Zlib, i: nat)
    requires NamesFit(parts) && Fits(Completed(parts, regions, zlib)) && i < |parts|
    ensures Prints(PrintedSections(Completed(parts, regions, zlib))[i], i, parts[i])
  {
    hide NameTable, CrcTable, NameStart, PartNames, CursorAt;
  }

  lemma PrintedTrailer(parts: seq<Part>, regions: Regions, zlib: Zlib)
    requires NamesFit(parts) && Fits(Completed(parts, regions, zlib))
    ensures IsTrailer(PrintedSections(Completed(parts, regions, zlib)))
  {
    hide NameTable, CrcTable, NameStart, PartNames, CursorAt;
  }

  // ----- lookups in a list with distinct names

  lemma {:induction false} DistinctByName(ss: seq<Section>, names: seq<string>, i: nat)
    requires |names| == |ss| && i < |ss| && DistinctNames(names) && names[i] != ""
    ensures ByName(ss, names, names[i]) == Some(ss[i])
  {
    var k := |ss| - 1;
    if i < k {
      DistinctByName(ss[..k], names[..k], i);
    }
  }

  // ----- the printer

  lemma NameTableNext(names: seq<string>, k: nat)
    requires k < |names|
    ensures NameTable(names[..k + 1]) == NameTable(names[..k]) + (Encode(names[k]) + [0])
    ensures NameStart(names, k) == |NameTable(names[..k])|
  {
    hide Encode;
    assert names[..k + 1][..k] == names[..k];
  }

  lemma NoNames(names: seq<string>)
    ensures NameTable(names[..0]) == [0] && names[..|names|] == names
  {
  }

  method PrintNames(parts: seq<Part>) returns (offsets: seq<nat>, names: bytes)
    ensures names == NameTable(PartNames(parts)) && |offsets| == |parts| + 1
    ensures forall i :: 0 <= i <= |parts| ==> offsets[i] == NameStart(PartNames(parts), i)
  {
    ghost var all := PartNames(parts);
    hide Encode, NameTable, NameStart;
    NoNames(all);
    names := [0];
    offsets := [];
    for k := 0 to |parts|
      invariant names == NameTable(all[..k]) && |offsets| == k
      invariant forall i :: 0 <= i < k ==> offsets[i] == NameStart(all, i)
    {
      NameTableNext(all, k);
      offsets := offsets + [|names|];
      names := names + (Encode(parts[k].name) + [0]);
    }
    NameTableNext(all, |parts|);
    offsets := offsets + [|names|];
    names := names + (Encode(".shstrtab") + [0]);
  }

  method PrintCrcs(datas: seq<bytes>, crcIndex: nat, zlib: Zlib) returns (result: bytes)
    ensures result == CrcTable(datas, crcIndex, zlib)
  {
    hide EncodeU32;
    var crcs := new byte[4 * |datas|](i => 0);
    for k := 0 to |datas|
      invariant crcs[..] == CrcTable(datas[..k], crcIndex, zlib) + Zeros(4 * (|datas| - k))
    {
      ghost var before := crcs[..];
      assert datas[..k + 1][..k] == datas[..k];
      if k != crcIndex {
        PutBytes(crcs, k * 4, EncodeU32(zlib.crc32(datas[k])));
      } else {
        ZeroWord();
      }
    }
    assert datas[..|datas|] == datas;
    result := crcs[..];
  }

  method PrintSpecs(parts: seq<Part>, regions: Regions, offsets: seq<u32>, names: bytes, crcs: bytes, ghost zlib: Zlib)
    returns (specs: seq<Spec>)
    requires NamesFit(parts) && names == NameTable(PartNames(parts))
    requires crcs == CrcTable(Contents(parts, regions), |parts| + 1, zlib)
    requires |offsets| == |parts| + 1
    requires forall i :: 0 <= i <= |parts| ==> offsets[i] == NameStart(PartNames(parts), i)
    ensures specs == Completed(parts, regions, zlib)
  {
    hide NameTable, NameStart, CrcTable, PartNames, NamesFit;
    specs := [];
    for k := 0 to |parts|
      invariant |specs| == k && forall i :: 0 <= i < k ==> specs[i] == PartSpec(parts, i)
    {
      var p := parts[k];
      specs := specs + [Plain(offsets[k], p.kind, p.flags, p.address, p.link, p.info, p.alignment, p.data)];
    }
    specs := specs + [Plain(offsets[|parts|], STRTAB, 0, 0, 0, 0, 1, names), Plain(0, RPL_CRCS, 0, 0, 0, 0, 4, crcs),
                      Plain(0, RPL_FILEINFO, 0, 0, 0, 0, 4, regions.Content())];
  }

  /** Completing the parts and laying them out. */
  method PrintParts(parts: seq<Part>, regions: Regions, zlib: Zlib) returns (image: bytes)
    requires Completable(parts, regions, zlib)
    ensures IsImageOf(image, parts, regions, zlib)
  {
    hide NameTable, NameStart, CrcTable, Fits, SpecsLegal, Laid, Completed, NamesFit, Nameable, PartNames;
    var offsets, names := PrintNames(parts);
    var datas := seq(|parts|, i requires 0 <= i < |parts| => parts[i].data) + [names, [], regions.Content()];
    assert datas == Contents(parts, regions);
    var crcs := PrintCrcs(datas, |parts| + 1, zlib);
    PrintLimits(parts, regions, zlib);
    var specs := PrintSpecs(parts, regions, offsets, names, crcs, zlib);
    image := PrintWps(specs, |parts|);
  }

  lemma PrintLimits(parts: seq<Part>, regions: Regions, zlib: Zlib)
    requires Completable(parts, regions, zlib)
    ensures NamesFit(parts) && |parts| < 0x1_0000
    ensures forall i :: 0 <= i <= |parts| ==> NameStart(PartNames(parts), i) < TWO_32
  {
    PrintedLength(parts, regions, zlib);
    forall i | 0 <= i <= |parts|
      ensures NameStart(PartNames(parts), i) < TWO_32
    {
      StartInside(PartNames(parts), i);
    }
  }

  lemma ZeroWord()
    ensures EncodeU32(0) == Zeros(4)
  {
  }
}
