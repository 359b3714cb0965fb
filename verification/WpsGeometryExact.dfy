/** Names, FILEINFO, CRC table, guest memory and metadata in terms of fields and bytes: exactly what is accepted. */
module WpsGeometryExact {
  import opened Bytes
  import opened Words
  import opened Intervals
  import opened Utf8
  import opened CStrings
  import opened WpsSections
  import opened WpsGeometry
  import opened WpsMetadata
  import opened WpsDescriptors
  import opened WpsAssembly
  import opened WpsExact

  /** A zero stands at `from` or behind it. */
  ghost predicate Terminated(data: bytes, from: nat) {
    exists j :: from <= j < |data| && data[j] == 0
  }

  /** In a string table a string ends behind every offset. */
  lemma StringTableExactly(s: Section)
    ensures StringTable(s) <==>
              s.header.kind == 3 && s.data != [] && forall k :: 0 <= k < |s.data| ==> Terminated(s.data, k)
  {
    if s.data != [] {
      var last := |s.data| - 1;
      assert Terminated(s.data, last) <==> s.data[last] == 0;
    }
  }

  // ----- the trailer

  /** The 24 words of FILEINFO that matter: magic, sizes and alignments, trampolines and loader adjustment. */
  ghost predicate InfoWorks(words: seq<u32>) {
    && |words| >= 24 && words[0] == 0xCAFE_0402
    && 1 <= words[1] <= 97 * 1024 * 1024 && words[3] <= 97 * 1024 * 1024 && words[5] <= 97 * 1024 * 1024
    && words[2] <= 0x1_0000 && IsPow2(words[2]) && words[4] <= 0x1_0000 && IsPow2(words[4])
    && words[8] <= words[1] && words[19] <= words[5]
  }

  lemma RegionAlignmentExactly(alignment: u32)
    ensures RegionAlignmentLegal(alignment) <==> alignment <= 0x1_0000 && IsPow2(alignment)
  {
    if alignment > 0 {
      PowerOfTwoTest(alignment);
    } else {
      assert !IsPow2(0);
    }
  }

  lemma PackedTailWord(words: seq<u32>, tail: bytes, i: nat)
    requires i < |words|
    ensures U32(PackWords(words) + tail, i * 4) == words[i]
  {
    hide U32, PackWords;
    PackedWord(words, i);
    SamePrefixWord(PackWords(words), PackWords(words) + tail, i * 4);
  }

  /** FILEINFO of any words and a few bytes more: when it is read, and as which region sizes. */
  lemma FileInfoExactly(ss: seq<Section>, words: seq<u32>, tail: bytes)
    requires |ss| >= 2 && ss[|ss| - 1].data == PackWords(words) + tail && |tail| < 4
    ensures ReadFileInfo(ss) ==
              if ss[|ss| - 2].header.kind == 0x8000_0003 && ss[|ss| - 1].header.kind == 0x8000_0004
                 && |ss[|ss| - 2].data| == 4 * |ss| && 4 * |words| + |tail| <= 4096 && InfoWorks(words)
              then Some(FileInfo(words[1], words[3], words[5])) else None
  {
    hide U32, PackWords, RegionAlignmentLegal, IsPow2;
    if |words| >= 24 {
      PackedTailWord(words, tail, 0);
      PackedTailWord(words, tail, 1);
      PackedTailWord(words, tail, 2);
      PackedTailWord(words, tail, 3);
      PackedTailWord(words, tail, 4);
      PackedTailWord(words, tail, 5);
      PackedTailWord(words, tail, 8);
      PackedTailWord(words, tail, 19);
      RegionAlignmentExactly(words[2]);
      RegionAlignmentExactly(words[4]);
    }
  }

  /** Every CRC in the table is that of its section, but for sections without content and the table itself. */
  lemma CrcsExactly(ss: seq<Section>, table: seq<u32>, zlib: Zlib)
    requires |table| == |ss|
    ensures CrcsAccept(ss, PackWords(table), zlib) <==>
              forall i :: 0 <= i < |ss| && ss[i].header.kind != 8 && ss[i].header.kind != 0x8000_0003 ==>
                table[i] == zlib.crc32(ss[i].data)
  {
    hide U32, PackWords;
    forall i | 0 <= i < |table|
      ensures U32(PackWords(table), i * 4) == table[i]
    {
      PackedWord(table, i);
    }
  }

  // ----- guest memory

  predicate IsImports(s: Section) {
    s.header.kind == 0x8000_0002
  }

  /**
   Where a section may lie: code from 32 MiB, data from 256 MiB, and from 3 GiB imports, and what the loader reads;
   never beyond 4 GiB.
   */
  predicate MayLie(s: Section, name: string) {
    var a: int, kind := s.header.address, s.header.kind;
    && a + s.expandedSize <= 0x1_0000_0000 && 0x0200_0000 <= a
    && if a < 0x1000_0000 then !IsImports(s) && IsExecutable(s)
       else if a < 0xC000_0000 then !IsImports(s) && !IsExecutable(s)
       else IsImports(s)
            || (!IsExecutable(s) && (name == ".wut_load_bounds" || kind == 2 || kind == 3 || kind == 11))
  }

  lemma AddressExactly(s: Section, name: string)
    ensures AddressLegal(s, name) <==> MayLie(s, name)
  {
    FlagBits(s.header.flags);
    hide AnyBit;
  }

  /** No guest byte is in two of the allocated sections. */
  ghost predicate NothingShared(ss: seq<Section>) {
    forall i, j, x :: 0 <= i < j < |ss| && ss[i].Owns(x) ==> !ss[j].Owns(x)
  }

  lemma DisjointExactly(ss: seq<Section>)
    ensures Disjoint(GuestRanges(ss)) <==> NothingShared(ss)
  {
    hide AnyBit;
    var rs := GuestRanges(ss);
    forall i, j | 0 <= i < j < |ss|
      ensures (rs[i].size > 0 && rs[j].size > 0 && Overlap(rs[i], rs[j])) <==> SharesByte(ss[i], ss[j])
    {
      SharesExactly(ss[i], ss[j]);
    }
    hide Overlap, GuestRangeOf, Section.Owns;
    if NothingShared(ss) {
      forall i, j | 0 <= i < j < |ss|
        ensures !SharesByte(ss[i], ss[j])
      {
      }
    }
    if Disjoint(rs) {
      forall i, j, x | 0 <= i < j < |ss| && ss[i].Owns(x)
        ensures !ss[j].Owns(x)
      {
        assert !SharesByte(ss[i], ss[j]);
      }
    }
  }

  ghost predicate SharesByte(s: Section, t: Section) {
    exists x :: s.Owns(x) && t.Owns(x)
  }

  lemma SharesExactly(s: Section, t: Section)
    ensures (GuestRangeOf(s).size > 0 && GuestRangeOf(t).size > 0 && Overlap(GuestRangeOf(s), GuestRangeOf(t)))
       <==> SharesByte(s, t)
  {
    hide AnyBit;
    var a, b := GuestRangeOf(s), GuestRangeOf(t);
    if a.size > 0 && b.size > 0 {
      OverlapMeansShared(a, b);
      if x :| a.Contains(x) && b.Contains(x) {
        assert s.Owns(x) && t.Owns(x);
      }
      if x :| s.Owns(x) && t.Owns(x) {
        assert a.Contains(x) && b.Contains(x);
      }
    }
  }

  /** The guest layout is accepted exactly when every allocated section lies where it may, apart from the others. */
  lemma AddressesExactly(ss: seq<Section>, names: seq<string>)
    requires |names| == |ss|
    ensures AddressesAccept(ss, names) <==>
              && NothingShared(ss)
              && forall i :: 0 <= i < |ss| && IsAllocated(ss[i]) && ss[i].expandedSize > 0 ==> MayLie(ss[i], names[i])
  {
    DisjointExactly(ss);
    forall i | 0 <= i < |ss|
      ensures AddressLegal(ss[i], names[i]) <==> MayLie(ss[i], names[i])
      ensures ss[i].Allocated() <==> IsAllocated(ss[i]) && ss[i].expandedSize > 0
    {
      AddressExactly(ss[i], names[i]);
      FlagBits(ss[i].header.flags);
    }
    hide AddressLegal, MayLie, Disjoint, NothingShared, Section.Allocated, IsAllocated;
  }

  /** Code ends within the text region, data within the data region, and the rest within the loader region. */
  predicate EndsInside(s: Section, info: FileInfo) {
    var end := s.header.address + s.expandedSize;
    if s.header.address < 0x1000_0000 then end <= 0x0200_0000 + info.textSize
    else if s.header.address < 0xC000_0000 then end <= 0x1000_0000 + info.dataSize
    else end <= 0xC000_0000 + info.loaderSize
  }

  /** For a section that lies where it may, the region check looks at its end. */
  lemma RegionExactly(s: Section, name: string, info: FileInfo)
    requires MayLie(s, name)
    ensures FitsRegion(s, info) <==> EndsInside(s, info)
  {
    FlagBits(s.header.flags);
    hide AnyBit;
  }

  // ----- metadata

  /** The records say this of the key. */
  ghost predicate Says(records: seq<Record>, key: string, value: string) {
    exists i :: 0 <= i < |records| && records[i] == (key, value)
  }

  predicate IsText(t: string) {
    1 <= |t| <= 128 && forall i :: 0 <= i < |t| ==> t[i] as int >= 32 || t[i] as int in {9, 10, 13}
  }

  /** A name, a supported version, and optional values that make sense. */
  ghost predicate RecordsWork(records: seq<Record>) {
    && (exists v :: Says(records, "name", v) && IsText(v))
    && (exists v :: Says(records, "wups", v) && v in {"0.7.1", "0.8.1", "0.8.2", "0.9.0", "0.9.1"})
    && (forall v :: Says(records, "storage_id", v) ==>
          v == "" || (|v| <= 128 && forall i :: 0 <= i < |v| ==> IsWordChar(v[i])))
    && (forall v :: Says(records, "debug", v) ==> v in {"track_heap", "track_heap_with_stack_trace"})
  }

  lemma TextExactly(t: string)
    ensures SafeText(t, 128) <==> IsText(t)
  {
    assert ' ' as int == 32 && '\t' as int == 9 && '\n' as int == 10 && '\r' as int == 13;
  }

  lemma StorageExactly(t: string)
    requires t != ""
    ensures Identifier(t, 128) <==> |t| <= 128 && forall i :: 0 <= i < |t| ==> IsWordChar(t[i])
  {
    forall i | 0 <= i < |t|
      ensures IdentifierChar(t[i]) <==> IsWordChar(t[i])
    {
      CharExactly(t[i]);
    }
    hide IdentifierChar, IsWordChar;
  }

  lemma SaysMap(records: seq<Record>, key: string)
    requires WpsMetadata.DistinctKeys(records)
    ensures forall v :: Says(records, key, v) <==> key in MapOf(records) && MapOf(records)[key] == v
  {
    MapHolds(records, key);
    forall v
      ensures Says(records, key, v) <==> key in MapOf(records) && MapOf(records)[key] == v
    {
      if Says(records, key, v) {
        var i :| 0 <= i < |records| && records[i] == (key, v);
        assert records[i].0 == key;
      }
      if key in MapOf(records) && MapOf(records)[key] == v {
        var i :| 0 <= i < |records| && records[i].0 == key;
        assert records[i] == (key, v);
      }
    }
  }

  /** What is said of a key is what the map holds. */
  lemma SaysOne(records: seq<Record>, key: string)
    requires WpsMetadata.DistinctKeys(records)
    ensures key in MapOf(records) ==> Says(records, key, MapOf(records)[key])
    ensures forall v :: Says(records, key, v) ==> key in MapOf(records) && v == MapOf(records)[key]
  {
    hide MapOf, Says, WpsMetadata.DistinctKeys;
    SaysMap(records, key);
  }

  lemma MapWorks(records: seq<Record>)
    requires WpsMetadata.DistinctKeys(records)
    ensures MetadataLegal(MapOf(records)) <==> RecordsWork(records)
  {
    hide MapOf, Says, SafeText, Identifier, IsText, IsWordChar, WpsMetadata.DistinctKeys;
    var m := MapOf(records);
    SaysOne(records, "name");
    SaysOne(records, "wups");
    SaysOne(records, "storage_id");
    SaysOne(records, "debug");
    if "name" in m {
      TextExactly(m["name"]);
    }
    if "storage_id" in m && m["storage_id"] != "" {
      StorageExactly(m["storage_id"]);
    }
  }

  /** Metadata printed from ASCII records under different keys: what the section and the records must be. */
  lemma MetadataExactly(ss: seq<Section>, names: seq<string>, s: Section, records: seq<Record>)
    requires |names| == |ss| && ByName(ss, names, ".wups.meta") == Some(s) && s.data == PrintRecords(records)
    requires WpsMetadata.DistinctKeys(records)
    requires forall i :: 0 <= i < |records| ==> Printable(records[i]) && IsAscii(records[i].1)
    ensures ReadMetadata(ss, names) ==
              if s.header.kind == 1 && IsAllocated(s) && records != [] && RecordsWork(records)
              then Some(MapOf(records)) else None
  {
    AsciiRoundTrip(records);
    MapWorks(records);
    FlagBits(s.header.flags);
    if records != [] {
      RecordsTerminated(records);
    }
    hide ByName, AnyBit, ReadRecords, MetadataLegal, RecordsWork, MapOf, PrintRecords, Printable, IsAscii;
    assert PrintRecords([]) == [] by { NothingPrinted(); }
  }

  lemma NothingPrinted()
    ensures PrintRecords([]) == []
  {
  }

  // ----- all of it in an accepted image

  /** The byte `p` of the file belongs to this section. */
  predicate Stores(s: Section, p: int) {
    s.header.kind != 8 && s.header.fileOffset <= p < s.header.fileOffset + s.header.storedSize
  }

  /** Two sections store no byte of the file together, and do not have the same name unless it is empty. */
  ghost predicate Unlike(g: Geometry, i: nat, j: nat)
    requires i < |g.sections| == |g.names| && j < |g.sections|
  {
    && (forall p :: Stores(g.sections[i], p) ==> !Stores(g.sections[j], p))
    && (g.names[i] != "" ==> g.names[i] != g.names[j])
  }

  /** The table, the section of names and the sections of an accepted image. */
  lemma AcceptedParts(image: bytes, zlib: Zlib)
    requires GeometryAccepts(image, zlib)
    ensures var g := GeometryOf(image, zlib);
            && TableFits(image, g.table) && AllLegal(image, g.table, zlib)
            && g.sections == Sections(image, g.table, zlib)
            && |g.sections| == g.table.count == |g.names| >= 5 && g.table.nameIndex < g.table.count
            && Disjoint(StoredRanges(image, g.table)) && StringTable(g.sections[g.table.nameIndex])
            && LayoutAccepts(g.sections, g.sections[g.table.nameIndex].data, zlib)
            && NamesRead(g.sections, g.sections[g.table.nameIndex].data, g.names)
            && Sum(ExpandedSizes(g.sections)) <= 97 * 1024 * 1024
  {
    hide SectionLegal, SectionAt, AddressesAccept, RegionsAccept, Disjoint, Sum, ReadFileInfo, CString, ReadTable,
      StringTable, CrcsAccept;
  }

  /** Every section of an accepted image is well placed and holds what the file says. */
  lemma AcceptedSection(image: bytes, zlib: Zlib, i: nat)
    requires GeometryAccepts(image, zlib) && i < |GeometryOf(image, zlib).sections|
    ensures var g := GeometryOf(image, zlib);
            g.sections[i].index == i && WellPlaced(g.sections[i].header) && Holds(image, g.table, g.sections[i], zlib)
  {
    hide GeometryAccepts, GeometryOf, SectionLegal, SectionAt, WellPlaced, Holds, LayoutAccepts, Disjoint, Sum,
      StringTable, NamesRead;
    AcceptedParts(image, zlib);
    var g := GeometryOf(image, zlib);
    SectionExactly(image, g.table, i, zlib, g.sections[i]);
  }

  /** Section `i` has its name in the section of names, and its CRC in the second to last unless it is exempt. */
  ghost predicate InTrailer(g: Geometry, zlib: Zlib, i: nat) {
    && i < |g.sections| == |g.names| && |g.sections| >= 5 && g.table.nameIndex < |g.sections|
    && var s, strings, crcs := g.sections[i], g.sections[g.table.nameIndex], g.sections[|g.sections| - 2];
    && StringTable(strings) && CString(strings.data, s.header.nameOffset, 255) == Some(g.names[i])
    && |crcs.data| == 4 * |g.sections|
    && (s.header.kind != 8 && s.header.kind != 0x8000_0003 ==> U32(crcs.data, 4 * i) == zlib.crc32(s.data))
  }

  lemma AcceptedTrailer(image: bytes, zlib: Zlib, i: nat)
    requires GeometryAccepts(image, zlib) && i < |GeometryOf(image, zlib).sections|
    ensures InTrailer(GeometryOf(image, zlib), zlib, i)
  {
    hide GeometryAccepts, GeometryOf, LayoutAccepts, NamesRead, CString, StringTable, U32, Disjoint, Sum, AllLegal,
      Sections, StoredRanges, ExpandedSizes;
    AcceptedParts(image, zlib);
    var g := GeometryOf(image, zlib);
    TrailerFacts(g.sections, g.sections[g.table.nameIndex].data, g.names, zlib, i);
  }

  lemma TrailerFacts(ss: seq<Section>, strings: bytes, names: seq<string>, zlib: Zlib, i: nat)
    requires LayoutAccepts(ss, strings, zlib) && NamesRead(ss, strings, names) && i < |ss|
    ensures |ss| == |names| >= 2 && CString(strings, ss[i].header.nameOffset, 255) == Some(names[i])
    ensures |ss[|ss| - 2].data| == 4 * |ss|
    ensures ss[i].header.kind != 8 && ss[i].header.kind != 0x8000_0003 ==>
              U32(ss[|ss| - 2].data, 4 * i) == zlib.crc32(ss[i].data)
  {
    hide AddressesAccept, RegionsAccept, ReadFileInfo, CString, NamesAccept, U32;
    CrcTableSize(ss);
    assert 4 * i == i * 4;
  }

  lemma AcceptedPair(image: bytes, zlib: Zlib, i: nat, j: nat)
    requires GeometryAccepts(image, zlib) && i < j < |GeometryOf(image, zlib).sections|
    ensures |GeometryOf(image, zlib).names| == |GeometryOf(image, zlib).sections|
    ensures Unlike(GeometryOf(image, zlib), i, j)
  {
    hide GeometryAccepts, GeometryOf, SectionLegal, SectionAt, AddressesAccept, RegionsAccept, ReadFileInfo, CString,
      CrcsAccept, Sum, StringTable, Disjoint;
    AcceptedParts(image, zlib);
    var g := GeometryOf(image, zlib);
    var rs := StoredRanges(image, g.table);
    SectionFacts(image, g.table, i, zlib);
    SectionFacts(image, g.table, j, zlib);
    forall p | Stores(g.sections[i], p)
      ensures !Stores(g.sections[j], p)
    {
      assert rs[i].Contains(p);
      if rs[j].Contains(p) {
        UniqueHolder(rs, i, j, p);
      }
    }
  }
}
