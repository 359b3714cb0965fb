/** What acceptance buys for exports, imports and relocations: who owns the bytes they name. */
module WpsOwners {
  import opened Bytes
  import opened CStrings
  import opened WpsSections
  import opened WpsGeometry
  import opened WpsLayout
  import opened WpsMetadata
  import opened WpsAssembly
  import opened WpsDescriptors
  import opened WpsInspect
  import opened WpsExact
  import opened WpsFixture

  // ----- exports

  /** The word of an exported function is code, and exported data lies in guest memory. */
  predicate ExportPlaced(ss: seq<Section>, e: Export) {
    if e.isFunction then Aligned4(e.address) && GuestRangeOk(ss, e.address, 4, CODE)
    else GuestRangeOk(ss, e.address, 1, ALLOC)
  }

  lemma ExportIsPlaced(ss: seq<Section>, s: Section, k: nat)
    requires 8 + (k + 1) * 8 <= |s.data| && ExportAt(ss, s, k).Some?
    ensures ExportPlaced(ss, ExportAt(ss, s, k).value)
  {
    hide CString, U32, GuestRangeOk, Aligned4, AnyBit;
  }

  lemma {:induction false} ExportsPlaced(ss: seq<Section>, n: nat)
    requires n <= |ss|
    ensures forall k :: 0 <= k < |ExportsOf(ss, n)| ==> ExportPlaced(ss, ExportsOf(ss, n)[k])
  {
    hide ExportPlaced, ExportAt, U32;
    if n > 0 {
      ExportsPlaced(ss, n - 1);
      var s := ss[n - 1];
      if s.header.kind == RPL_EXPORTS && ExportTableLegal(ss, s) {
        forall k | 0 <= k < U32(s.data, 0)
          ensures ExportPlaced(ss, ExportTable(ss, s)[k])
        {
          ExportIsPlaced(ss, s, k);
        }
      }
    }
  }

  /** An exported function is one aligned word of code that is not writable; exported data has one owner. */
  lemma ExportOwner(image: bytes, zlib: Zlib, k: nat)
    requires WpsAccepts(image, zlib) && k < |ReportOf(image, zlib).exports|
    ensures var report := ReportOf(image, zlib);
            var e := report.exports[k];
            if e.isFunction then e.address % 4 == 0 && exists s :: WordIn(report, s, e.address) && CodeOnly(s)
            else Owner(report.geometry.sections, e.address).Some?
  {
    hide GeometryAccepts, DescriptorsAccept, GeometryOf, ExportsOf, ReadMetadata, HooksOf, ReplacementsOf, SymbolsOf,
      RelocationsOf, GuestRangeOk, Owner, CodeOnly, Aligned4;
    var report := ReportOf(image, zlib);
    var ss, e := report.geometry.sections, report.exports[k];
    ExportsPlaced(ss, |ss|);
    assert ExportPlaced(ss, e);
    if e.isFunction {
      Aligned(e.address);
      var s := WordOwner(image, zlib, e.address, CODE);
      assert WordIn(report, s, e.address) && CodeOnly(s);
    } else {
      AllocatedByte(ss, e.address);
    }
  }

  lemma AllocatedByte(ss: seq<Section>, address: nat)
    requires GuestRangeOk(ss, address, 1, ALLOC)
    ensures Owner(ss, address).Some?
  {
    hide AllBits, AnyBit;
    var i :| 0 <= i < |ss| && Covers(ss[i], address, 1, ALLOC);
    AllBitsOfTwo(ss[i].header.flags);
    assert ss[i].Owns(address);
  }

  // ----- imports

  /** A guest byte inside a section is owned by it exactly when the section is allocated. */
  lemma OwnedWhenAllocated(ss: seq<Section>, names: seq<string>, i: nat, address: nat)
    requires |names| == |ss| && AddressesAccept(ss, names) && i < |ss| && ss[i].GuestRange().Contains(address)
    ensures Owner(ss, address) == Some(ss[i]) <==> AnyBit(ss[i].header.flags, ALLOC)
  {
    hide AddressesAccept, AnyBit;
    if AnyBit(ss[i].header.flags, ALLOC) {
      UniqueOwner(ss, names, i, i, address);
    }
  }

  /** The symbol names a byte of an import section. */
  predicate ImportPlaced(ss: seq<Section>, symbol: Symbol) {
    && symbol.section < |ss| && ss[symbol.section].header.kind == RPL_IMPORTS
    && ss[symbol.section].GuestRange().Contains(symbol.value)
  }

  lemma ImportIsPlaced(ss: seq<Section>, names: seq<string>, strings: bytes, data: bytes, k: nat)
    requires |names| == |ss| && (k + 1) * 16 <= |data| && SymbolAt(ss, names, strings, data, k).Some?
    ensures var symbol := SymbolAt(ss, names, strings, data, k).value;
            symbol.imported.Some? ==> ImportPlaced(ss, symbol)
  {
    hide CString, U32, U16, Identifier;
  }

  lemma SymbolIsRead(ss: seq<Section>, names: seq<string>, k: nat)
    requires |names| == |ss| && SymbolsAccept(ss, names) && k < |SymbolsOf(ss, names)|
    ensures SymbolsOf(ss, names)[k].imported.Some? ==> ImportPlaced(ss, SymbolsOf(ss, names)[k])
    ensures forall j :: 0 <= j < k && SymbolsOf(ss, names)[j].imported.Some? ==>
              SymbolsOf(ss, names)[j].imported != SymbolsOf(ss, names)[k].imported
  {
    hide SymbolAt, ImportPlaced, SymbolSections, StringTable;
    var s := SymbolSections(ss)[0];
    var strings := ss[s.header.link].data;
    ImportIsPlaced(ss, names, strings, s.data, k);
    forall j | 0 <= j < k && SymbolsOf(ss, names)[j].imported.Some?
      ensures SymbolsOf(ss, names)[j].imported != SymbolsOf(ss, names)[k].imported
    {
      assert !SameImport(SymbolAt(ss, names, strings, s.data, j), SymbolAt(ss, names, strings, s.data, k));
    }
  }

  /**
   No two symbols stand for the same import, and each names a byte of its import section, which owns that byte
   exactly when it is allocated; nothing in the inspection asks for that.
   */
  lemma ImportOwner(image: bytes, zlib: Zlib, k: nat)
    requires WpsAccepts(image, zlib) && k < |ReportOf(image, zlib).symbols|
    requires ReportOf(image, zlib).symbols[k].imported.Some?
    ensures var report := ReportOf(image, zlib);
            var ss, symbol := report.geometry.sections, report.symbols[k];
            && ImportPlaced(ss, symbol)
            && (Owner(ss, symbol.value) == Some(ss[symbol.section]) <==> AnyBit(ss[symbol.section].header.flags, ALLOC))
            && forall j :: 0 <= j < |report.symbols| && report.symbols[j].imported == symbol.imported ==> j == k
  {
    AcceptedAddresses(image, zlib);
    hide GeometryAccepts, GeometryOf, SymbolsOf, ReadMetadata, HooksOf, ReplacementsOf, RelocationsOf, ExportsOf,
      HooksAccept, ReplacementsAccept, SymbolsAccept, RelocationsAccept, ExportsAccept, Owner, AddressesAccept,
      AnyBit;
    var report := ReportOf(image, zlib);
    var ss, symbol := report.geometry.sections, report.symbols[k];
    SymbolIsRead(ss, report.geometry.names, k);
    OwnedWhenAllocated(ss, report.geometry.names, symbol.section, symbol.value);
    forall j | 0 <= j < |report.symbols| && report.symbols[j].imported == symbol.imported
      ensures j == k
    {
      SymbolIsRead(ss, report.geometry.names, j);
    }
  }

  // ----- relocations

  /** The bytes the relocation rewrites lie inside section `t`, which it names. */
  predicate Patches(ss: seq<Section>, names: seq<string>, t: int, r: Relocation)
    requires |names| == |ss|
  {
    && 0 <= t < |ss| && names[t] == r.section && RelocationWidth(r.kind).Some?
    && r.offset >= ss[t].header.address
    && r.offset + RelocationWidth(r.kind).value <= ss[t].GuestRange().End()
  }

  ghost predicate RelocationPlaced(ss: seq<Section>, names: seq<string>, r: Relocation, symbolCount: nat)
    requires |names| == |ss|
  {
    r.symbol < symbolCount && exists t :: Patches(ss, names, t, r)
  }

  lemma LegalIsPlaced(ss: seq<Section>, names: seq<string>, t: nat, r: Relocation, symbolCount: nat)
    requires |names| == |ss| && t < |ss| && names[t] == r.section && RelocationLegal(ss[t], r, symbolCount)
    ensures RelocationPlaced(ss, names, r, symbolCount)
  {
    hide RelocationWidth;
    assert Patches(ss, names, t, r);
  }

  lemma TableIsPlaced(ss: seq<Section>, names: seq<string>, s: Section, symbolSection: nat, symbolCount: nat)
    requires |names| == |ss| && RelocationTableLegal(ss, names, s, symbolSection, symbolCount)
    ensures forall k :: 0 <= k < |RelocationTable(ss, names, s)| ==>
              RelocationPlaced(ss, names, RelocationTable(ss, names, s)[k], symbolCount)
  {
    hide U32, RelocationSize, RelocationLegal, RelocationPlaced;
    var table := RelocationTable(ss, names, s);
    forall k | 0 <= k < |table|
      ensures RelocationPlaced(ss, names, table[k], symbolCount)
    {
      assert RelocationLegal(ss[s.header.info], RelocationAt(ss, names, s, k), symbolCount);
      LegalIsPlaced(ss, names, s.header.info, table[k], symbolCount);
    }
  }

  lemma {:induction false} RelocationsPlaced(ss: seq<Section>, names: seq<string>, symbolSection: nat, symbolCount: nat,
                                             n: nat)
    requires |names| == |ss| && RelocationsAccept(ss, names, symbolSection, symbolCount) && n <= |ss|
    ensures forall k :: 0 <= k < |RelocationsOf(ss, names, n)| ==>
              RelocationPlaced(ss, names, RelocationsOf(ss, names, n)[k], symbolCount)
  {
    hide RelocationPlaced, RelocationTable, RelocationTableLegal, IsRelocationSection;
    if n > 0 {
      RelocationsPlaced(ss, names, symbolSection, symbolCount, n - 1);
      if IsRelocationSection(ss[n - 1]) {
        TableIsPlaced(ss, names, ss[n - 1], symbolSection, symbolCount);
      }
    }
  }

  /** Section `t` owns every byte the relocation rewrites, if it is allocated, and otherwise none of them. */
  ghost predicate PatchOwned(ss: seq<Section>, names: seq<string>, t: int, r: Relocation)
    requires |names| == |ss|
  {
    && Patches(ss, names, t, r)
    && forall x :: r.offset <= x < r.offset + RelocationWidth(r.kind).value ==>
         (Owner(ss, x) == Some(ss[t]) <==> AnyBit(ss[t].header.flags, ALLOC))
  }

  /** A relocation rewrites bytes of the one section it names, for a symbol there is. */
  lemma RelocationOwner(image: bytes, zlib: Zlib, k: nat)
    requires WpsAccepts(image, zlib) && k < |ReportOf(image, zlib).relocations|
    ensures var report := ReportOf(image, zlib);
            var g, r := report.geometry, report.relocations[k];
            && |g.names| == |g.sections| && r.symbol < |report.symbols|
            && exists t :: PatchOwned(g.sections, g.names, t, r)
  {
    AcceptedAddresses(image, zlib);
    hide GeometryAccepts, GeometryOf, SymbolsOf, ReadMetadata, HooksOf, ReplacementsOf, RelocationsOf, ExportsOf,
      HooksAccept, ReplacementsAccept, SymbolsAccept, RelocationsAccept, ExportsAccept, Owner, AddressesAccept,
      AnyBit, Patches, SymbolSections;
    var report := ReportOf(image, zlib);
    var ss, names, r := report.geometry.sections, report.geometry.names, report.relocations[k];
    RelocationsPlaced(ss, names, SymbolSections(ss)[0].index, |report.symbols|, |ss|);
    assert RelocationPlaced(ss, names, r, |report.symbols|);
    var t :| Patches(ss, names, t, r);
    PatchIsOwned(ss, names, t, r);
  }

  lemma PatchIsOwned(ss: seq<Section>, names: seq<string>, t: nat, r: Relocation)
    requires |names| == |ss| && AddressesAccept(ss, names) && Patches(ss, names, t, r)
    ensures PatchOwned(ss, names, t, r)
  {
    hide AddressesAccept, AnyBit, Owner, RelocationWidth;
    forall x | r.offset <= x < r.offset + RelocationWidth(r.kind).value
      ensures Owner(ss, x) == Some(ss[t]) <==> AnyBit(ss[t].header.flags, ALLOC)
    {
      OwnedWhenAllocated(ss, names, t, x);
    }
  }

  // ----- an import without guest memory

  /** An accepted image whose imported function is a byte that its import section does not own. */
  method HiddenImport(zlib: Zlib) returns (image: bytes)
    ensures WpsAccepts(image, zlib) && HidesImport(ReportOf(image, zlib))
  {
    hide WpsAccepts, AcceptedFixture, RecordsLegal, ReadRecords, PrintRecords, MapOf, HidesImport, IsImageOf,
      FlagsLegal, DEFAULT_RECORDS, VariantLegal, Moderate;
    DefaultLegal();
    SuiteFlags();
    SuiteLegal(PrintRecords(DEFAULT_RECORDS), 17, 4);
    image := WpsImage(Suite(PrintRecords(DEFAULT_RECORDS), 17, 4), zlib);
    FixtureHidesImport(image, zlib);
  }

  /** The second symbol is imported, and its import section does not own the byte it names. */
  ghost predicate HidesImport(report: Report) {
    && |report.symbols| == 2 && report.symbols[1].imported.Some?
    && var ss, symbol := report.geometry.sections, report.symbols[1];
    && symbol.section < |ss| && Owner(ss, symbol.value) != Some(ss[symbol.section])
  }

  lemma FixtureHidesImport(image: bytes, zlib: Zlib)
    requires AcceptedFixture(image, zlib, Suite(PrintRecords(DEFAULT_RECORDS), 17, 4))
    ensures WpsAccepts(image, zlib) && HidesImport(ReportOf(image, zlib))
  {
    hide WpsAccepts, ReportOf, IsFixture, ReadRecords, PrintRecords, Owner, AnyBit;
    SuiteFlags();
    FixturePlaces(ReportOf(image, zlib).geometry.sections, Suite(PrintRecords(DEFAULT_RECORDS), 17, 4));
    ImportOwner(image, zlib, 1);
  }
}
