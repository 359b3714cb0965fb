/** The whole WPS inspection, and the separation of patched code from call-through storage. */
module WpsInspect {
  import opened Bytes
  import opened Intervals
  import opened WpsSections
  import opened WpsGeometry
  import opened WpsLayout
  import opened WpsDescriptors

  datatype Report = Report(geometry: Geometry, metadata: map<string, string>, hooks: seq<Hook>,
                           replacements: seq<Replacement>, symbols: seq<Symbol>,
                           relocations: seq<Relocation>, exports: seq<Export>)

  /** Every check that reads descriptors out of the sections. */
  ghost predicate DescriptorsAccept(ss: seq<Section>, names: seq<string>)
    requires |names| == |ss|
  {
    && ReadMetadata(ss, names).Some?
    && HooksAccept(ss, names)
    && ReplacementsAccept(ss, names)
    && SymbolsAccept(ss, names)
    && RelocationsAccept(ss, names, SymbolSections(ss)[0].index, |SymbolsOf(ss, names)|)
    && ExportsAccept(ss)
  }

  /** The image is a WPS plugin the inspection accepts. */
  ghost predicate WpsAccepts(image: bytes, zlib: Zlib) {
    && GeometryAccepts(image, zlib)
    && DescriptorsAccept(GeometryOf(image, zlib).sections, GeometryOf(image, zlib).names)
  }

  ghost function ReportOf(image: bytes, zlib: Zlib): Report
    requires WpsAccepts(image, zlib)
  {
    var g := GeometryOf(image, zlib);
    Report(g, ReadMetadata(g.sections, g.names).value, HooksOf(g.sections, g.names),
           ReplacementsOf(g.sections, g.names), SymbolsOf(g.sections, g.names),
           RelocationsOf(g.sections, g.names, |g.sections|), ExportsOf(g.sections, |g.sections|))
  }

  method InspectWups(image: bytes, zlib: Zlib) returns (r: Result<Report>)
    ensures r.Ok? <==> WpsAccepts(image, zlib)
    ensures r.Ok? ==> r.value == ReportOf(image, zlib)
  {
    hide GeometryAccepts, ReadMetadata, HooksAccept, ReplacementsAccept, RelocationsAccept, ExportsAccept,
      HooksOf, ReplacementsOf, SymbolsOf, RelocationsOf, ExportsOf, SymbolSections;
    var geometry := ReadGeometry(image, zlib);
    if geometry.Rejected? { return Rejected; }
    var g := geometry.value;
    var ss, names := g.sections, g.names;
    var metadata := ParseMetadata(ss, names);
    if metadata.Rejected? { return Rejected; }
    var hooks := ParseHooks(ss, names);
    if hooks.Rejected? { return Rejected; }
    var replacements := ParseReplacements(ss, names);
    if replacements.Rejected? { return Rejected; }
    var symbols := ParseSymbols(ss, names);
    if symbols.Rejected? { return Rejected; }
    var symbolSection := SymbolSections(ss)[0].index;
    var relocations := ParseRelocations(ss, names, symbolSection, |symbols.value|);
    if relocations.Rejected? { return Rejected; }
    var exports := ParseExports(ss);
    if exports.Rejected? { return Rejected; }
    return Ok(Report(g, metadata.value, hooks.value, replacements.value, symbols.value, relocations.value,
                     exports.value));
  }

  // ----- patched words

  /** The guest word at `address` is a function some hook or replacement enters. */
  ghost predicate IsTarget(report: Report, address: nat) {
    || (exists k :: 0 <= k < |report.hooks| && report.hooks[k].target == address)
    || (exists k :: 0 <= k < |report.replacements| && report.replacements[k].target == address)
  }

  /** The guest word at `address` keeps the original of a replaced function. */
  ghost predicate IsCallThrough(report: Report, address: nat) {
    exists k :: 0 <= k < |report.replacements| && report.replacements[k].callAddress == address
  }

  /** All four bytes of the word belong to this one section of the report. */
  ghost predicate WordIn(report: Report, s: Section, address: nat) {
    forall x :: address <= x < address + 4 ==> Owner(report.geometry.sections, x) == Some(s)
  }

  predicate CodeOnly(s: Section) {
    AnyBit(s.header.flags, EXEC) && !AnyBit(s.header.flags, WRITE)
  }

  predicate DataOnly(s: Section) {
    AnyBit(s.header.flags, WRITE) && !AnyBit(s.header.flags, EXEC)
  }

  /** A word with required flags lies in exactly one section, and that section is code or data, not both. */
  lemma WordOwner(image: bytes, zlib: Zlib, address: nat, required: nat) returns (s: Section)
    requires GeometryAccepts(image, zlib) && (required == CODE || required == STORAGE)
    requires GuestRangeOk(GeometryOf(image, zlib).sections, address, 4, required)
    ensures forall x :: address <= x < address + 4 ==> Owner(GeometryOf(image, zlib).sections, x) == Some(s)
    ensures if required == CODE then CodeOnly(s) else DataOnly(s)
  {
    AcceptedAddresses(image, zlib);
    hide GeometryAccepts, GeometryOf, AddressesAccept, Covers, Owner, AllBits, AnyBit;
    var g := GeometryOf(image, zlib);
    var i :| 0 <= i < |g.sections| && Covers(g.sections[i], address, 4, required);
    s := g.sections[i];
    CoversOwns(s, address, required);
    forall x | address <= x < address + 4
      ensures Owner(g.sections, x) == Some(s)
    {
      UniqueOwner(g.sections, g.names, i, i, x);
    }
    NeverWritableCode(image, zlib, i);
  }

  lemma CoversOwns(s: Section, address: nat, required: nat)
    requires Covers(s, address, 4, required) && (required == CODE || required == STORAGE)
    ensures forall x :: address <= x < address + 4 ==> s.Owns(x)
    ensures if required == CODE then AnyBit(s.header.flags, EXEC) else AnyBit(s.header.flags, WRITE)
  {
    AllBitsOfTwo(s.header.flags);
    hide AllBits, AnyBit;
  }

  lemma AcceptedAddresses(image: bytes, zlib: Zlib)
    requires GeometryAccepts(image, zlib)
    ensures var g := GeometryOf(image, zlib);
            |g.names| == |g.sections| && AddressesAccept(g.sections, g.names)
  {
  }

  lemma NeverWritableCode(image: bytes, zlib: Zlib, i: nat)
    requires GeometryAccepts(image, zlib) && i < |GeometryOf(image, zlib).sections|
    ensures var flags := GeometryOf(image, zlib).sections[i].header.flags;
            !(AnyBit(flags, WRITE) && AnyBit(flags, EXEC))
  {
    hide BitAnd, LayoutAccepts, ReadTable;
    var table := ReadTable(image).value;
    assert SectionLegal(image, table, i, zlib);
    SectionFacts(image, table, i, zlib);
  }

  /** Words that are entered as code and words that are written as storage never share a byte. */
  lemma PatchWordSeparation(image: bytes, zlib: Zlib, target: nat, storage: nat)
    requires WpsAccepts(image, zlib)
    ensures var report := ReportOf(image, zlib);
            && (IsTarget(report, target) ==> exists s :: WordIn(report, s, target) && CodeOnly(s))
            && (IsCallThrough(report, storage) ==> exists s :: WordIn(report, s, storage) && DataOnly(s))
            && (IsTarget(report, target) && IsCallThrough(report, storage) ==>
                  !Overlap(Range(target, 4), Range(storage, 4)))
  {
    hide GeometryAccepts, SymbolsAccept, RelocationsAccept, ExportsAccept, GuestRangeOk, Owner, CodeOnly, DataOnly,
      RelocationsOf, ExportsOf, ReadMetadata, SymbolsOf;
    var report := ReportOf(image, zlib);
    var ss := report.geometry.sections;
    if IsTarget(report, target) {
      TargetIsCode(image, zlib, target);
      var s := WordOwner(image, zlib, target, CODE);
      assert WordIn(report, s, target) && CodeOnly(s);
      if IsCallThrough(report, storage) {
        StorageIsData(image, zlib, storage);
        var t := WordOwner(image, zlib, storage, STORAGE);
        OneKind(s, t);
        WordsApart(ss, s, t, target, storage);
      }
    }
    if IsCallThrough(report, storage) {
      StorageIsData(image, zlib, storage);
      var t := WordOwner(image, zlib, storage, STORAGE);
      assert WordIn(report, t, storage) && DataOnly(t);
    }
  }

  lemma WordsApart(ss: seq<Section>, s: Section, t: Section, a: nat, b: nat)
    requires s != t
    requires forall x :: a <= x < a + 4 ==> Owner(ss, x) == Some(s)
    requires forall x :: b <= x < b + 4 ==> Owner(ss, x) == Some(t)
    ensures !Overlap(Range(a, 4), Range(b, 4))
  {
    hide Owner;
    var x := if a < b then b else a;
    assert Range(a, 4).Contains(x) ==> Owner(ss, x) == Some(s);
    assert Range(b, 4).Contains(x) ==> Owner(ss, x) == Some(t);
  }

  lemma OneKind(s: Section, t: Section)
    requires CodeOnly(s) && DataOnly(t)
    ensures s != t
  {
  }

  lemma TargetIsCode(image: bytes, zlib: Zlib, target: nat)
    requires WpsAccepts(image, zlib) && IsTarget(ReportOf(image, zlib), target)
    ensures GuestRangeOk(GeometryOf(image, zlib).sections, target, 4, CODE)
  {
    hide GeometryAccepts, SymbolsAccept, RelocationsAccept, ExportsAccept, GuestRangeOk, ReadMetadata, ByName;
    var report := ReportOf(image, zlib);
    var ss := report.geometry.sections;
    if k :| 0 <= k < |report.hooks| && report.hooks[k].target == target {
      assert HookLegal(ss, report.hooks[k]);
    } else {
      var k :| 0 <= k < |report.replacements| && report.replacements[k].target == target;
      assert ReplacementLegal(ss, report.replacements[k]);
    }
  }

  lemma StorageIsData(image: bytes, zlib: Zlib, storage: nat)
    requires WpsAccepts(image, zlib) && IsCallThrough(ReportOf(image, zlib), storage)
    ensures GuestRangeOk(GeometryOf(image, zlib).sections, storage, 4, STORAGE)
  {
    hide GeometryAccepts, SymbolsAccept, RelocationsAccept, ExportsAccept, GuestRangeOk, ReadMetadata, ByName;
    var report := ReportOf(image, zlib);
    var k :| 0 <= k < |report.replacements| && report.replacements[k].callAddress == storage;
    assert ReplacementLegal(report.geometry.sections, report.replacements[k]);
  }
}
