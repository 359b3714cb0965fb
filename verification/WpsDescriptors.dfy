/** The WUPS descriptors of a WPS image: metadata, hooks, replacements, symbols, relocations and exports. */
module WpsDescriptors {
  import opened Bytes
  import opened CStrings
  import opened SectionHeaders
  import opened WpsSections
  import opened WpsGeometry
  import opened WpsLayout
  import opened WpsMetadata

  const CODE: nat := 6      // ALLOC | EXEC
  const STORAGE: nat := 3   // WRITE | ALLOC

  const SUPPORTED_WUPS_VERSIONS: set<string> := {"0.7.1", "0.8.1", "0.8.2", "0.9.0", "0.9.1"}
  const PROCESS_TARGETS: set<nat> := {0xFF, 1, 2, 3, 4, 5, 6, 7, 8, 9, 10, 12, 15, 16}

  predicate Aligned4(address: nat) {
    BitAnd(address, 3) == 0
  }

  lemma Aligned(address: nat)
    ensures Aligned4(address) <==> address % 4 == 0
  {
    assert Pow2(2) == 4;
    BitAndLowBits(address, 2);
  }

  // ----- metadata

  predicate MetadataSection(s: Section) {
    && s.header.kind == PROGBITS && AnyBit(s.header.flags, ALLOC)
    && s.data != [] && s.data[|s.data| - 1] == 0
  }

  predicate MetadataLegal(metadata: map<string, string>) {
    && "name" in metadata && SafeText(metadata["name"], 128)
    && "wups" in metadata && metadata["wups"] in SUPPORTED_WUPS_VERSIONS
    && ("storage_id" in metadata && metadata["storage_id"] != "" ==> Identifier(metadata["storage_id"], 128))
    && ("debug" in metadata ==> metadata["debug"] in {"track_heap", "track_heap_with_stack_trace"})
  }

  function ReadMetadata(ss: seq<Section>, names: seq<string>): Option<map<string, string>>
    requires |names| == |ss|
  {
    match ByName(ss, names, ".wups.meta")
    case None => None
    case Some(s) =>
      if !MetadataSection(s) then None
      else
        match ReadRecords(s.data, 0, map[])
        case None => None
        case Some(metadata) => if MetadataLegal(metadata) then Some(metadata) else None
  }

  method ParseMetadata(ss: seq<Section>, names: seq<string>) returns (r: Result<map<string, string>>)
    requires |names| == |ss|
    ensures r.Ok? <==> ReadMetadata(ss, names).Some?
    ensures r.Ok? ==> Some(r.value) == ReadMetadata(ss, names)
  {
    hide ReadRecords, MetadataSection, MetadataLegal, ByName;
    var found := ByName(ss, names, ".wups.meta");
    if found.None? { return Rejected; }
    if !MetadataSection(found.value) { return Rejected; }
    var metadata := ParseRecords(found.value.data);
    if metadata.Rejected? || !MetadataLegal(metadata.value) { return Rejected; }
    return metadata;
  }

  // ----- hooks

  datatype Hook = Hook(kind: u32, target: u32)

  function HookAt(data: bytes, k: nat): Hook
    requires (k + 1) * 8 <= |data|
  {
    Hook(U32(data, k * 8), U32(data, k * 8 + 4))
  }

  predicate HookSection(s: Section) {
    && s.header.kind == PROGBITS && AnyBit(s.header.flags, ALLOC)
    && s.data != [] && |s.data| % 8 == 0 && |s.data| / 8 <= 64
  }

  predicate HookLegal(ss: seq<Section>, hook: Hook) {
    hook.kind <= 26 && Aligned4(hook.target) && GuestRangeOk(ss, hook.target, 4, CODE)
  }

  function HookTable(data: bytes): (hooks: seq<Hook>)
    ensures |hooks| == |data| / 8
  {
    seq(|data| / 8, k requires 0 <= k < |data| / 8 => HookAt(data, k))
  }

  ghost predicate HooksAccept(ss: seq<Section>, names: seq<string>)
    requires |names| == |ss|
  {
    && ByName(ss, names, ".wups.hooks").Some?
    && var s := ByName(ss, names, ".wups.hooks").value;
    && HookSection(s)
    && var hooks := HookTable(s.data);
    && (forall k :: 0 <= k < |hooks| ==> HookLegal(ss, hooks[k]))
    && (forall j, k :: 0 <= j < k < |hooks| ==> hooks[j].kind != hooks[k].kind)
  }

  function HooksOf(ss: seq<Section>, names: seq<string>): seq<Hook>
    requires |names| == |ss|
  {
    match ByName(ss, names, ".wups.hooks")
    case None => []
    case Some(s) => HookTable(s.data)
  }

  method ParseHooks(ss: seq<Section>, names: seq<string>) returns (r: Result<seq<Hook>>)
    requires |names| == |ss|
    ensures r.Ok? <==> HooksAccept(ss, names)
    ensures r.Ok? ==> r.value == HooksOf(ss, names)
  {
    hide ByName, HookSection, HookLegal, HookAt;
    var found := ByName(ss, names, ".wups.hooks");
    if found.None? { return Rejected; }
    var data := found.value.data;
    if !HookSection(found.value) { return Rejected; }
    ghost var table := HookTable(data);
    var hooks: seq<Hook> := [];
    var kinds: set<u32> := {};
    for k := 0 to |data| / 8
      invariant hooks == table[..k]
      invariant forall j :: 0 <= j < k ==> HookLegal(ss, table[j])
      invariant forall kind :: kind in kinds <==> exists j :: 0 <= j < k && table[j].kind == kind
      invariant forall i, j :: 0 <= i < j < k ==> table[i].kind != table[j].kind
    {
      var hook := HookAt(data, k);
      assert hook == table[k];
      if hook.kind in kinds || !HookLegal(ss, hook) { return Rejected; }
      kinds := kinds + {hook.kind};
      hooks := hooks + [hook];
    }
    return Ok(hooks);
  }

  // ----- replacements

  datatype Replacement = Replacement(kind: u32, physical: u32, virtual: u32, namePointer: u32, library: u32,
                                     replacementPointer: u32, target: u32, callAddress: u32, process: u32)

  function ReplacementAt(data: bytes, k: nat): Replacement
    requires (k + 1) * 36 <= |data|
  {
    var at := k * 36;
    Replacement(U32(data, at), U32(data, at + 4), U32(data, at + 8), U32(data, at + 12), U32(data, at + 16),
                U32(data, at + 20), U32(data, at + 24), U32(data, at + 28), U32(data, at + 32))
  }

  predicate LoadSection(s: Section) {
    && s.header.kind == PROGBITS && AnyBit(s.header.flags, ALLOC)
    && |s.data| % 36 == 0 && |s.data| / 36 <= 4096
  }

  predicate NamedAt(ss: seq<Section>, pointer: nat) {
    GuestString(ss, pointer).Some? && GuestString(ss, pointer).value != ""
  }

  predicate ReplacementLegal(ss: seq<Section>, item: Replacement) {
    && item.kind <= 2 && item.library <= 66 && item.process in PROCESS_TARGETS
    && Aligned4(item.target) && Aligned4(item.callAddress)
    && GuestRangeOk(ss, item.target, 4, CODE)
    && GuestRangeOk(ss, item.callAddress, 4, STORAGE)
    && ((item.physical != 0 || item.virtual != 0) <==> item.library == 66)
    && NamedAt(ss, item.namePointer)
    && NamedAt(ss, item.replacementPointer)
  }

  function LoadTable(data: bytes): (items: seq<Replacement>)
    ensures |items| == |data| / 36
  {
    seq(|data| / 36, k requires 0 <= k < |data| / 36 => ReplacementAt(data, k))
  }

  function ReplacementsOf(ss: seq<Section>, names: seq<string>): seq<Replacement>
    requires |names| == |ss|
  {
    match ByName(ss, names, ".wups.load")
    case None => []
    case Some(s) => LoadTable(s.data)
  }

  ghost predicate ReplacementsAccept(ss: seq<Section>, names: seq<string>)
    requires |names| == |ss|
  {
    && (ByName(ss, names, ".wups.load").Some? ==> LoadSection(ByName(ss, names, ".wups.load").value))
    && forall k :: 0 <= k < |ReplacementsOf(ss, names)| ==> ReplacementLegal(ss, ReplacementsOf(ss, names)[k])
  }

  method ParseReplacements(ss: seq<Section>, names: seq<string>) returns (r: Result<seq<Replacement>>)
    requires |names| == |ss|
    ensures r.Ok? <==> ReplacementsAccept(ss, names)
    ensures r.Ok? ==> r.value == ReplacementsOf(ss, names)
  {
    hide ByName, LoadSection, ReplacementLegal, ReplacementAt;
    var found := ByName(ss, names, ".wups.load");
    if found.None? { return Ok([]); }
    var data := found.value.data;
    if !LoadSection(found.value) { return Rejected; }
    ghost var table := ReplacementsOf(ss, names);
    var replacements: seq<Replacement> := [];
    for k := 0 to |data| / 36
      invariant replacements == table[..k]
      invariant forall j :: 0 <= j < k ==> ReplacementLegal(ss, table[j])
    {
      var item := ReplacementAt(data, k);
      assert item == table[k];
      if !ReplacementLegal(ss, item) { return Rejected; }
      replacements := replacements + [item];
    }
    return Ok(replacements);
  }

  // ----- symbols and imports

  datatype Import = Import(moduleName: string, name: string, isFunction: bool)

  datatype Symbol = Symbol(name: string, value: u32, size: u32, info: byte, section: u16, imported: Option<Import>)

  function SymbolSections(ss: seq<Section>): (symbolSections: seq<Section>)
    ensures forall s :: s in symbolSections ==> s in ss
  {
    if ss == [] then []
    else
      var last := ss[|ss| - 1];
      SymbolSections(ss[..|ss| - 1]) + if last.header.kind == SYMTAB || last.header.kind == DYNSYM then [last] else []
  }

  predicate SymbolSection(ss: seq<Section>, s: Section) {
    && s.header.entrySize == 16 && |s.data| % 16 == 0
    && s.header.link < |ss| && StringTable(ss[s.header.link])
  }

  /** The import a symbol of an import section stands for. */
  function ImportOf(s: Section, sectionName: string, name: string, value: u32, info: byte): Option<Import> {
    var isFunction := ".fimport_" <= sectionName;
    var isData := ".dimport_" <= sectionName;
    if !(isFunction || isData) || name == "" || info % 16 != (if isFunction then 2 else 1) then None
    else
      var moduleName := sectionName[9..];
      if !Identifier(moduleName, 64) || value < s.header.address ||
         value - s.header.address >= s.expandedSize then None
      else Some(Import(moduleName, name, isFunction))
  }

  function SymbolAt(ss: seq<Section>, names: seq<string>, strings: bytes, data: bytes, k: nat): Option<Symbol>
    requires |names| == |ss| && (k + 1) * 16 <= |data|
  {
    var at := k * 16;
    var value, size, info, section := U32(data, at + 4), U32(data, at + 8), data[at + 12], U16(data, at + 14);
    match CString(strings, U32(data, at), 1024)
    case None => None
    case Some(name) =>
      if section < |ss| && ss[section].header.kind == RPL_IMPORTS then
        var imported := ImportOf(ss[section], names[section], name, value, info);
        if imported.None? then None else Some(Symbol(name, value, size, info, section, imported))
      else Some(Symbol(name, value, size, info, section, None))
  }

  /** Both symbols stand for the same import. */
  predicate SameImport(a: Option<Symbol>, b: Option<Symbol>) {
    a.Some? && b.Some? && a.value.imported.Some? && a.value.imported == b.value.imported
  }

  ghost predicate SymbolsLegal(ss: seq<Section>, names: seq<string>, strings: bytes, data: bytes)
    requires |names| == |ss|
  {
    && (forall k :: 0 <= k < |data| / 16 ==> SymbolAt(ss, names, strings, data, k).Some?)
    && (forall j, k :: 0 <= j < k < |data| / 16 ==>
          !SameImport(SymbolAt(ss, names, strings, data, j), SymbolAt(ss, names, strings, data, k)))
  }

  function SymbolTable(ss: seq<Section>, names: seq<string>, strings: bytes, data: bytes): (symbols: seq<Symbol>)
    requires |names| == |ss|
    requires forall k :: 0 <= k < |data| / 16 ==> SymbolAt(ss, names, strings, data, k).Some?
    ensures |symbols| == |data| / 16
  {
    seq(|data| / 16, k requires 0 <= k < |data| / 16 => SymbolAt(ss, names, strings, data, k).value)
  }

  /** Exactly one symbol table, well-formed, with every symbol legal and no import named twice. */
  ghost predicate SymbolsAccept(ss: seq<Section>, names: seq<string>)
    requires |names| == |ss|
  {
    && |SymbolSections(ss)| == 1
    && var s := SymbolSections(ss)[0];
    && SymbolSection(ss, s)
    && SymbolsLegal(ss, names, ss[s.header.link].data, s.data)
  }

  ghost function SymbolsOf(ss: seq<Section>, names: seq<string>): seq<Symbol>
    requires |names| == |ss| && SymbolsAccept(ss, names)
  {
    var s := SymbolSections(ss)[0];
    SymbolTable(ss, names, ss[s.header.link].data, s.data)
  }

  method ParseSymbols(ss: seq<Section>, names: seq<string>) returns (r: Result<seq<Symbol>>)
    requires |names| == |ss|
    ensures r.Ok? <==> SymbolsAccept(ss, names)
    ensures r.Ok? ==> r.value == SymbolsOf(ss, names)
  {
    hide SymbolSections, SymbolSection, SymbolsLegal;
    var found := SymbolSections(ss);
    if |found| != 1 { return Rejected; }
    if !SymbolSection(ss, found[0]) { return Rejected; }
    SymbolSectionLink(ss, found[0]);
    r := ParseSymbolTable(ss, names, ss[found[0].header.link].data, found[0].data);
  }

  lemma SymbolSectionLink(ss: seq<Section>, s: Section)
    requires SymbolSection(ss, s)
    ensures s.header.link < |ss|
  {
  }

  method ParseSymbolTable(ss: seq<Section>, names: seq<string>, strings: bytes, data: bytes)
    returns (r: Result<seq<Symbol>>)
    requires |names| == |ss|
    ensures r.Ok? <==> SymbolsLegal(ss, names, strings, data)
    ensures r.Ok? ==> r.value == SymbolTable(ss, names, strings, data)
  {
    hide SymbolAt;
    var symbols: seq<Symbol> := [];
    var imports: set<Import> := {};
    for k := 0 to |data| / 16
      invariant |symbols| == k
      invariant forall j :: 0 <= j < k ==> SymbolAt(ss, names, strings, data, j) == Some(symbols[j])
      invariant forall i :: i in imports <==> exists j :: 0 <= j < k && symbols[j].imported == Some(i)
      invariant forall i, j :: 0 <= i < j < k && symbols[i].imported.Some? ==>
        symbols[i].imported != symbols[j].imported
    {
      var symbol := SymbolAt(ss, names, strings, data, k);
      if symbol.None? { return Rejected; }
      if symbol.value.imported.Some? {
        if symbol.value.imported.value in imports {
          var j :| 0 <= j < k && symbols[j].imported == symbol.value.imported;
          assert SymbolAt(ss, names, strings, data, j) == Some(symbols[j]);
          return Rejected;
        }
        imports := imports + {symbol.value.imported.value};
      }
      symbols := symbols + [symbol.value];
    }
    return Ok(symbols);
  }

  // ----- relocations

  datatype Relocation = Relocation(section: string, offset: u32, kind: nat, symbol: nat)

  function RelocationWidth(kind: nat): Option<nat> {
    if kind == 0 then Some(0)
    else if kind in {4, 5, 6, 11, 251, 252, 253} then Some(2)
    else if kind in {1, 10, 68, 78} then Some(4)
    else None
  }

  predicate IsRelocationSection(s: Section) {
    s.header.kind == RELA || s.header.kind == REL
  }

  function RelocationSize(s: Section): (n: nat)
    ensures n == 12 || n == 8
  {
    if s.header.kind == RELA then 12 else 8
  }

  predicate RelocationHeaderLegal(ss: seq<Section>, s: Section, symbolSection: nat) {
    && s.header.entrySize == RelocationSize(s) && |s.data| % RelocationSize(s) == 0
    && s.header.link == symbolSection && s.header.info < |ss|
  }

  function RelocationAt(ss: seq<Section>, names: seq<string>, s: Section, k: nat): Relocation
    requires |names| == |ss| && s.header.info < |ss| && (k + 1) * RelocationSize(s) <= |s.data|
  {
    var at := k * RelocationSize(s);
    var info := U32(s.data, at + 4);
    Relocation(names[s.header.info], U32(s.data, at), info % 0x100, info / 0x100)
  }

  /** The bytes a relocation rewrites lie inside the section it applies to. */
  predicate RelocationLegal(target: Section, relocation: Relocation, symbolCount: nat) {
    && relocation.symbol < symbolCount
    && RelocationWidth(relocation.kind).Some?
    && relocation.offset >= target.header.address
    && relocation.offset + RelocationWidth(relocation.kind).value <= target.GuestRange().End()
  }

  ghost predicate RelocationTableLegal(ss: seq<Section>, names: seq<string>, s: Section, symbolSection: nat,
                                       symbolCount: nat)
    requires |names| == |ss|
  {
    && RelocationHeaderLegal(ss, s, symbolSection)
    && forall k :: 0 <= k < |s.data| / RelocationSize(s) ==>
         RelocationLegal(ss[s.header.info], RelocationAt(ss, names, s, k), symbolCount)
  }

  function RelocationTable(ss: seq<Section>, names: seq<string>, s: Section): seq<Relocation>
    requires |names| == |ss|
  {
    if s.header.info >= |ss| then []
    else
      seq(|s.data| / RelocationSize(s),
          k requires 0 <= k < |s.data| / RelocationSize(s) => RelocationAt(ss, names, s, k))
  }

  /** The relocations of the first `n` sections, in order. */
  function RelocationsOf(ss: seq<Section>, names: seq<string>, n: nat): seq<Relocation>
    requires |names| == |ss| && n <= |ss|
  {
    if n == 0 then []
    else
      RelocationsOf(ss, names, n - 1)
      + if IsRelocationSection(ss[n - 1]) then RelocationTable(ss, names, ss[n - 1]) else []
  }

  ghost predicate RelocationsAccept(ss: seq<Section>, names: seq<string>, symbolSection: nat, symbolCount: nat)
    requires |names| == |ss|
  {
    forall i :: 0 <= i < |ss| && IsRelocationSection(ss[i]) ==>
      RelocationTableLegal(ss, names, ss[i], symbolSection, symbolCount)
  }

  method ParseRelocations(ss: seq<Section>, names: seq<string>, symbolSection: nat, symbolCount: nat)
    returns (r: Result<seq<Relocation>>)
    requires |names| == |ss|
    ensures r.Ok? <==> RelocationsAccept(ss, names, symbolSection, symbolCount)
    ensures r.Ok? ==> r.value == RelocationsOf(ss, names, |ss|)
  {
    hide RelocationTableLegal, RelocationTable;
    var relocations: seq<Relocation> := [];
    for i := 0 to |ss|
      invariant relocations == RelocationsOf(ss, names, i)
      invariant forall j :: 0 <= j < i && IsRelocationSection(ss[j]) ==>
        RelocationTableLegal(ss, names, ss[j], symbolSection, symbolCount)
    {
      if !IsRelocationSection(ss[i]) { continue; }
      var table := ParseRelocationTable(ss, names, ss[i], symbolSection, symbolCount);
      if table.Rejected? { return Rejected; }
      relocations := relocations + table.value;
    }
    return Ok(relocations);
  }

  method ParseRelocationTable(ss: seq<Section>, names: seq<string>, s: Section, symbolSection: nat, symbolCount: nat)
    returns (r: Result<seq<Relocation>>)
    requires |names| == |ss|
    ensures r.Ok? <==> RelocationTableLegal(ss, names, s, symbolSection, symbolCount)
    ensures r.Ok? ==> r.value == RelocationTable(ss, names, s)
  {
    hide RelocationAt, RelocationLegal, RelocationSize;
    if !RelocationHeaderLegal(ss, s, symbolSection) { return Rejected; }
    var relocations: seq<Relocation> := [];
    ghost var table := RelocationTable(ss, names, s);
    for k := 0 to |s.data| / RelocationSize(s)
      invariant relocations == table[..k]
      invariant forall j :: 0 <= j < k ==>
        RelocationLegal(ss[s.header.info], RelocationAt(ss, names, s, j), symbolCount)
    {
      var relocation := RelocationAt(ss, names, s, k);
      if !RelocationLegal(ss[s.header.info], relocation, symbolCount) { return Rejected; }
      relocations := relocations + [relocation];
    }
    return Ok(relocations);
  }

  // ----- exports

  datatype Export = Export(name: string, isFunction: bool, address: u32)

  predicate ExportHeaderLegal(s: Section) {
    |s.data| >= 8 && U32(s.data, 0) <= 4096 && 8 + U32(s.data, 0) * 8 <= |s.data|
  }

  function ExportAt(ss: seq<Section>, s: Section, k: nat): Option<Export>
    requires 8 + (k + 1) * 8 <= |s.data|
  {
    var address, nameOffset := U32(s.data, 8 + k * 8), U32(s.data, 12 + k * 8);
    var isFunction := AnyBit(s.header.flags, EXEC);
    match CString(s.data, nameOffset, 1024)
    case None => None
    case Some(name) =>
      if name == "" || (isFunction && !Aligned4(address)) ||
         !GuestRangeOk(ss, address, if isFunction then 4 else 1, if isFunction then CODE else ALLOC) then None
      else Some(Export(name, isFunction, address))
  }

  ghost predicate ExportTableLegal(ss: seq<Section>, s: Section) {
    && ExportHeaderLegal(s)
    && forall k :: 0 <= k < U32(s.data, 0) ==> ExportAt(ss, s, k).Some?
  }

  ghost function ExportTable(ss: seq<Section>, s: Section): (exports: seq<Export>)
    requires ExportTableLegal(ss, s)
    ensures |exports| == U32(s.data, 0)
  {
    seq(U32(s.data, 0), k requires 0 <= k < U32(s.data, 0) => ExportAt(ss, s, k).value)
  }

  /** The exports of the first `n` sections, in order; an illegal table contributes nothing. */
  ghost function ExportsOf(ss: seq<Section>, n: nat): seq<Export>
    requires n <= |ss|
  {
    if n == 0 then []
    else
      ExportsOf(ss, n - 1)
      + if ss[n - 1].header.kind == RPL_EXPORTS && ExportTableLegal(ss, ss[n - 1]) then ExportTable(ss, ss[n - 1])
        else []
  }

  function Identity(e: Export): (string, bool) {
    (e.name, e.isFunction)
  }

  predicate SameExport(a: Export, b: Export) {
    Identity(a) == Identity(b)
  }

  ghost predicate DistinctExports(exports: seq<Export>) {
    forall i, j :: 0 <= i < j < |exports| ==> !SameExport(exports[i], exports[j])
  }

  ghost predicate ExportsAccept(ss: seq<Section>) {
    && (forall i :: 0 <= i < |ss| && ss[i].header.kind == RPL_EXPORTS ==> ExportTableLegal(ss, ss[i]))
    && DistinctExports(ExportsOf(ss, |ss|))
  }

  method ParseExports(ss: seq<Section>) returns (r: Result<seq<Export>>)
    ensures r.Ok? <==> ExportsAccept(ss)
    ensures r.Ok? ==> r.value == ExportsOf(ss, |ss|)
  {
    hide ExportTableLegal, ExportTable, DistinctExports;
    var exports: seq<Export> := [];
    assert DistinctExports([]) by { NoExports(); }
    for i := 0 to |ss|
      invariant exports == ExportsOf(ss, i) && DistinctExports(exports)
      invariant forall j :: 0 <= j < i && ss[j].header.kind == RPL_EXPORTS ==> ExportTableLegal(ss, ss[j])
    {
      ExportsGrow(ss, i + 1, |ss|);
      if ss[i].header.kind != RPL_EXPORTS { continue; }
      var grown := ParseExportTable(ss, ss[i], exports);
      if grown.Rejected? { return Rejected; }
      exports := grown.value;
    }
    return Ok(exports);
  }

  lemma NoExports()
    ensures DistinctExports([])
  {
  }

  /** A clash among the first exports is a clash among all of them. */
  lemma {:induction false} ExportsGrow(ss: seq<Section>, m: nat, n: nat)
    requires m <= n <= |ss|
    ensures ExportsOf(ss, m) <= ExportsOf(ss, n)
    ensures DistinctExports(ExportsOf(ss, n)) ==> DistinctExports(ExportsOf(ss, m))
    decreases n
  {
    hide ExportTableLegal, ExportTable, SameExport;
    if m < n {
      ExportsGrow(ss, m, n - 1);
    }
    assert forall i :: 0 <= i < |ExportsOf(ss, m)| ==> ExportsOf(ss, m)[i] == ExportsOf(ss, n)[i];
  }

  /** Appending one more export keeps them distinct exactly when no earlier one is the same. */
  lemma DistinctNext(exports: seq<Export>, next: Export)
    requires DistinctExports(exports)
    ensures DistinctExports(exports + [next]) <==> forall i :: 0 <= i < |exports| ==> !SameExport(exports[i], next)
  {
    var all := exports + [next];
    if DistinctExports(all) {
      forall i | 0 <= i < |exports|
        ensures !SameExport(exports[i], next)
      {
        assert all[i] == exports[i] && all[|exports|] == next;
      }
    }
  }

  lemma DistinctPrefix(front: seq<Export>, all: seq<Export>)
    requires front <= all && DistinctExports(all)
    ensures DistinctExports(front)
  {
    assert forall i :: 0 <= i < |front| ==> front[i] == all[i];
  }

  /** `unique` holds exactly the identities of `exports`. */
  ghost predicate Identities(unique: set<(string, bool)>, exports: seq<Export>) {
    && (forall i :: 0 <= i < |exports| ==> Identity(exports[i]) in unique)
    && (forall u :: u in unique ==> exists i :: 0 <= i < |exports| && Identity(exports[i]) == u)
  }

  lemma IdentitiesNext(unique: set<(string, bool)>, exports: seq<Export>, next: Export)
    requires Identities(unique, exports)
    ensures Identities(unique + {Identity(next)}, exports + [next])
  {
    var all := exports + [next];
    forall u | u in unique + {Identity(next)}
      ensures exists i :: 0 <= i < |all| && Identity(all[i]) == u
    {
      if u == Identity(next) {
        assert all[|exports|] == next;
      } else {
        var i :| 0 <= i < |exports| && Identity(exports[i]) == u;
        assert all[i] == exports[i];
      }
    }
  }

  /** Once an identity comes back, the exports of the whole table cannot be distinct. */
  lemma ClashRefused(ss: seq<Section>, s: Section, before: seq<Export>, exports: seq<Export>, next: Export,
                     unique: set<(string, bool)>)
    requires Identities(unique, exports) && Identity(next) in unique && DistinctExports(exports)
    requires before <= exports
    requires ExportTableLegal(ss, s) ==> |exports| + 1 - |before| <= U32(s.data, 0)
    requires ExportTableLegal(ss, s) ==> forall j :: 0 <= j < |exports| + 1 - |before| ==>
               ExportAt(ss, s, j) == Some((exports + [next])[|before| + j])
    ensures !(ExportTableLegal(ss, s) && DistinctExports(before + ExportTable(ss, s)))
  {
    hide ExportAt, ExportTableLegal, DistinctExports, ExportTable;
    var i :| 0 <= i < |exports| && Identity(exports[i]) == Identity(next);
    assert SameExport(exports[i], next);
    DistinctNext(exports, next);
    if ExportTableLegal(ss, s) && DistinctExports(before + ExportTable(ss, s)) {
      PrefixOfTable(ss, s, before, exports + [next]);
      DistinctPrefix(exports + [next], before + ExportTable(ss, s));
    }
  }

  method ParseExportTable(ss: seq<Section>, s: Section, before: seq<Export>) returns (r: Result<seq<Export>>)
    requires DistinctExports(before)
    ensures r.Ok? <==> ExportTableLegal(ss, s) && DistinctExports(before + ExportTable(ss, s))
    ensures r.Ok? ==> r.value == before + ExportTable(ss, s)
  {
    hide ExportAt, DistinctExports;
    if !ExportHeaderLegal(s) { return Rejected; }
    var exports := before;
    var unique: set<(string, bool)> := set e | e in before :: Identity(e);
    for k := 0 to U32(s.data, 0)
      invariant |exports| == |before| + k && before <= exports
      invariant forall j :: 0 <= j < k ==> ExportAt(ss, s, j) == Some(exports[|before| + j])
      invariant DistinctExports(exports)
      invariant Identities(unique, exports)
    {
      var item := ExportAt(ss, s, k);
      if item.None? { return Rejected; }
      var next := item.value;
      DistinctNext(exports, next);
      if Identity(next) in unique {
        ClashRefused(ss, s, before, exports, next, unique);
        return Rejected;
      }
      IdentitiesNext(unique, exports, next);
      unique := unique + {Identity(next)};
      exports := exports + [next];
    }
    assert exports == before + ExportTable(ss, s);
    return Ok(exports);
  }

  lemma PrefixOfTable(ss: seq<Section>, s: Section, before: seq<Export>, front: seq<Export>)
    requires ExportTableLegal(ss, s) && before <= front && |front| - |before| <= U32(s.data, 0)
    requires forall j :: 0 <= j < |front| - |before| ==> ExportAt(ss, s, j) == Some(front[|before| + j])
    ensures front <= before + ExportTable(ss, s)
  {
    hide ExportAt;
  }
}
