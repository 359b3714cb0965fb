/** Every descriptor table, printed from any list: exactly when the inspection accepts it, and what it reads. */
module WpsExact {
  import opened Bytes
  import opened Words
  import opened Utf8
  import opened CStrings
  import opened SectionHeaders
  import opened WpsSections
  import opened WpsGeometry
  import opened WpsLayout
  import opened WpsMetadata
  import opened WpsDescriptors
  import opened WpsTables
  import opened WpsAssembly

  // ----- guest memory, by the flag bits and the bounds of one section

  /** The `size` bytes at `address` are guest bytes of `s`. */
  predicate Encloses(s: Section, address: nat, size: nat) {
    s.header.address <= address && address + size <= s.header.address + s.expandedSize
  }

  predicate IsAllocated(s: Section) {
    s.header.flags / 2 % 2 == 1
  }

  predicate IsExecutable(s: Section) {
    s.header.flags / 4 % 2 == 1
  }

  predicate IsWritable(s: Section) {
    s.header.flags % 2 == 1
  }

  ghost predicate GuestAt(ss: seq<Section>, address: nat, size: nat) {
    exists i :: 0 <= i < |ss| && IsAllocated(ss[i]) && Encloses(ss[i], address, size)
  }

  ghost predicate CodeAt(ss: seq<Section>, address: nat, size: nat) {
    exists i :: 0 <= i < |ss| && IsAllocated(ss[i]) && IsExecutable(ss[i]) && Encloses(ss[i], address, size)
  }

  ghost predicate StorageAt(ss: seq<Section>, address: nat, size: nat) {
    exists i :: 0 <= i < |ss| && IsAllocated(ss[i]) && IsWritable(ss[i]) && Encloses(ss[i], address, size)
  }

  /** `guest_range` finds an allocated section, an executable or writable one when asked, that holds the bytes. */
  lemma RangeExactly(ss: seq<Section>, address: nat, size: nat)
    ensures GuestRangeOk(ss, address, size, ALLOC) <==> GuestAt(ss, address, size)
    ensures GuestRangeOk(ss, address, size, CODE) <==> CodeAt(ss, address, size)
    ensures GuestRangeOk(ss, address, size, STORAGE) <==> StorageAt(ss, address, size)
  {
    forall i | 0 <= i < |ss|
      ensures Covers(ss[i], address, size, ALLOC) <==> IsAllocated(ss[i]) && Encloses(ss[i], address, size)
      ensures Covers(ss[i], address, size, CODE) <==>
                IsAllocated(ss[i]) && IsExecutable(ss[i]) && Encloses(ss[i], address, size)
      ensures Covers(ss[i], address, size, STORAGE) <==>
                IsAllocated(ss[i]) && IsWritable(ss[i]) && Encloses(ss[i], address, size)
    {
      CoversExactly(ss[i], address, size);
    }
    hide Covers, Encloses, IsAllocated, IsExecutable, IsWritable;
  }

  lemma CoversExactly(s: Section, address: nat, size: nat)
    ensures Covers(s, address, size, ALLOC) <==> IsAllocated(s) && Encloses(s, address, size)
    ensures Covers(s, address, size, CODE) <==> IsAllocated(s) && IsExecutable(s) && Encloses(s, address, size)
    ensures Covers(s, address, size, STORAGE) <==> IsAllocated(s) && IsWritable(s) && Encloses(s, address, size)
  {
    AllBitsOfTwo(s.header.flags);
    FlagBits(s.header.flags);
    hide AllBits, AnyBit;
  }

  // ----- hooks

  ghost predicate HookWorks(ss: seq<Section>, hook: Hook) {
    hook.kind <= 26 && hook.target % 4 == 0 && CodeAt(ss, hook.target, 4)
  }

  lemma HookExactly(ss: seq<Section>, hook: Hook)
    ensures HookLegal(ss, hook) <==> HookWorks(ss, hook)
  {
    Aligned(hook.target);
    RangeExactly(ss, hook.target, 4);
    hide Aligned4, GuestRangeOk, CodeAt;
  }

  lemma HookSectionExactly(s: Section, hooks: seq<Hook>)
    requires s.data == PackWords(HookWords(hooks))
    ensures HookSection(s) <==> s.header.kind == 1 && IsAllocated(s) && 1 <= |hooks| <= 64
  {
    hide PackWords, HookWords, AnyBit;
    FlagBits(s.header.flags);
    assert |s.data| == 8 * |hooks|;
  }

  /**
   A printed hook table: 1 to 64 hooks in an allocated section of program bits, of different known kinds, each
   entering an aligned word of code.
   */
  lemma HooksExactly(ss: seq<Section>, names: seq<string>, s: Section, hooks: seq<Hook>)
    requires |names| == |ss| && ByName(ss, names, ".wups.hooks") == Some(s)
    requires s.data == PackWords(HookWords(hooks))
    ensures HooksAccept(ss, names) <==>
              && s.header.kind == 1 && IsAllocated(s) && 1 <= |hooks| <= 64
              && (forall k :: 0 <= k < |hooks| ==> HookWorks(ss, hooks[k]))
              && (forall j, k :: 0 <= j < k < |hooks| ==> hooks[j].kind != hooks[k].kind)
    ensures HooksOf(ss, names) == hooks
  {
    hide HookLegal, HookWorks, HookTable, ByName, PackWords, HookWords, HookSection, IsAllocated;
    HooksReadBack(hooks);
    HookSectionExactly(s, hooks);
    forall k | 0 <= k < |hooks|
      ensures HookLegal(ss, hooks[k]) <==> HookWorks(ss, hooks[k])
    {
      HookExactly(ss, hooks[k]);
    }
  }

  lemma NoHooks(ss: seq<Section>, names: seq<string>)
    requires |names| == |ss| && ByName(ss, names, ".wups.hooks").None?
    ensures !HooksAccept(ss, names)
  {
  }

  /** Whatever is accepted as a hook table is the printing of its hooks. */
  lemma AcceptedHooks(ss: seq<Section>, names: seq<string>)
    requires |names| == |ss| && HooksAccept(ss, names)
    ensures ByName(ss, names, ".wups.hooks").Some?
    ensures ByName(ss, names, ".wups.hooks").value.data == PackWords(HookWords(HooksOf(ss, names)))
  {
    hide ByName, HookLegal, HookTable, PackWords, HookWords;
    HookTableIsPrinted(ByName(ss, names, ".wups.hooks").value.data);
  }

  // ----- replacements

  /** What is asked of a replacement, in terms of its nine fields. */
  ghost predicate ReplacementWorks(ss: seq<Section>, item: Replacement) {
    && item.kind <= 2 && item.library <= 66
    && (item.process == 255 || 1 <= item.process <= 10 || item.process == 12 || 15 <= item.process <= 16)
    && item.target % 4 == 0 && CodeAt(ss, item.target, 4)
    && item.callAddress % 4 == 0 && StorageAt(ss, item.callAddress, 4)
    && (item.library == 66 <==> item.physical != 0 || item.virtual != 0)
    && ShowsName(ss, item.namePointer) && ShowsName(ss, item.replacementPointer)
  }

  ghost predicate ShowsName(ss: seq<Section>, address: nat) {
    exists t :: t != "" && GuestString(ss, address) == Some(t)
  }

  lemma ReplacementExactly(ss: seq<Section>, item: Replacement)
    ensures ReplacementLegal(ss, item) <==> ReplacementWorks(ss, item)
  {
    Aligned(item.target);
    Aligned(item.callAddress);
    RangeExactly(ss, item.target, 4);
    RangeExactly(ss, item.callAddress, 4);
    ProcessExactly(item.process);
    hide Aligned4, GuestRangeOk, CodeAt, StorageAt, GuestString, PROCESS_TARGETS;
    assert NamedAt(ss, item.namePointer) <==> ShowsName(ss, item.namePointer);
    assert NamedAt(ss, item.replacementPointer) <==> ShowsName(ss, item.replacementPointer);
  }

  lemma ProcessExactly(process: nat)
    ensures process in PROCESS_TARGETS <==>
              process == 255 || 1 <= process <= 10 || process == 12 || 15 <= process <= 16
  {
  }

  lemma LoadSectionExactly(s: Section, items: seq<Replacement>)
    requires s.data == PackWords(ReplacementWords(items))
    ensures LoadSection(s) <==> s.header.kind == 1 && IsAllocated(s) && |items| <= 4096
  {
    hide PackWords, ReplacementWords, AnyBit;
    FlagBits(s.header.flags);
    assert |s.data| == 36 * |items|;
  }

  /** A printed load table: at most 4096 replacements that work, in an allocated section of program bits. */
  lemma ReplacementsExactly(ss: seq<Section>, names: seq<string>, s: Section, items: seq<Replacement>)
    requires |names| == |ss| && ByName(ss, names, ".wups.load") == Some(s)
    requires s.data == PackWords(ReplacementWords(items))
    ensures ReplacementsAccept(ss, names) <==>
              && s.header.kind == 1 && IsAllocated(s) && |items| <= 4096
              && forall k :: 0 <= k < |items| ==> ReplacementWorks(ss, items[k])
    ensures ReplacementsOf(ss, names) == items
  {
    hide ReplacementLegal, ReplacementWorks, LoadTable, ByName, PackWords, ReplacementWords, LoadSection, IsAllocated;
    ReplacementsReadBack(items);
    LoadSectionExactly(s, items);
    forall k | 0 <= k < |items|
      ensures ReplacementLegal(ss, items[k]) <==> ReplacementWorks(ss, items[k])
    {
      ReplacementExactly(ss, items[k]);
    }
    assert ReplacementsOf(ss, names) == items;
  }

  /** Whatever is accepted as a load table is the printing of its replacements. */
  lemma AcceptedReplacements(ss: seq<Section>, names: seq<string>)
    requires |names| == |ss| && ReplacementsAccept(ss, names) && ByName(ss, names, ".wups.load").Some?
    ensures ByName(ss, names, ".wups.load").value.data == PackWords(ReplacementWords(ReplacementsOf(ss, names)))
  {
    hide ByName, ReplacementLegal, LoadTable, PackWords, ReplacementWords;
    LoadTableIsPrinted(ByName(ss, names, ".wups.load").value.data);
  }

  /** The load table may be missing. */
  lemma NoReplacements(ss: seq<Section>, names: seq<string>)
    requires |names| == |ss| && ByName(ss, names, ".wups.load").None?
    ensures ReplacementsAccept(ss, names) && ReplacementsOf(ss, names) == []
  {
  }

  // ----- relocations

  /** The bytes that entries of these kinds rewrite. */
  predicate EntryWorks(target: Section, e: Entry, symbolCount: nat) {
    var kind: int := e.kind;
    && e.symbol < symbolCount
    && if kind == 0 then Encloses(target, e.offset, 0)
       else if kind in {4, 5, 6, 11, 251, 252, 253} then Encloses(target, e.offset, 2)
       else kind in {1, 10, 68, 78} && Encloses(target, e.offset, 4)
  }

  function ReadAs(e: Entry, section: string): Relocation {
    Relocation(section, e.offset, e.kind, e.symbol)
  }

  function AllReadAs(entries: seq<Entry>, section: string): (relocations: seq<Relocation>)
    ensures |relocations| == |entries|
  {
    seq(|entries|, k requires 0 <= k < |entries| => ReadAs(entries[k], section))
  }

  lemma EntryWorksExactly(target: Section, e: Entry, r: Relocation, symbolCount: nat)
    requires r.offset == e.offset && r.kind == e.kind as int && r.symbol == e.symbol
    ensures RelocationLegal(target, r, symbolCount) <==> EntryWorks(target, e, symbolCount)
  {
  }

  lemma EntryRead(ss: seq<Section>, names: seq<string>, s: Section, entries: seq<Entry>, k: nat)
    requires |names| == |ss| && IsRelocationSection(s) && s.header.info < |ss| && Packable(entries) && k < |entries|
    requires s.data == PackWords(EntryWords(entries, s.header.kind == RELA))
    ensures (k + 1) * RelocationSize(s) <= |s.data|
    ensures RelocationAt(ss, names, s, k) == ReadAs(entries[k], names[s.header.info])
  {
    hide PackWords, U32, EntryWords;
    EntryFields(entries, s.header.kind == RELA, k);
    ElfInfo(entries[k].symbol, entries[k].kind);
  }

  lemma EntryExactly(ss: seq<Section>, names: seq<string>, s: Section, entries: seq<Entry>, k: nat, symbolCount: nat)
    requires |names| == |ss| && IsRelocationSection(s) && s.header.info < |ss| && Packable(entries) && k < |entries|
    requires s.data == PackWords(EntryWords(entries, s.header.kind == RELA))
    ensures (k + 1) * RelocationSize(s) <= |s.data|
    ensures RelocationAt(ss, names, s, k) == ReadAs(entries[k], names[s.header.info])
    ensures RelocationLegal(ss[s.header.info], RelocationAt(ss, names, s, k), symbolCount) <==>
              EntryWorks(ss[s.header.info], entries[k], symbolCount)
  {
    hide PackWords, EntryWords, RelocationAt, RelocationLegal, EntryWorks;
    EntryRead(ss, names, s, entries, k);
    EntryWorksExactly(ss[s.header.info], entries[k], RelocationAt(ss, names, s, k), symbolCount);
  }

  /**
   A printed relocation table, with addends (RELA) or without (REL): its header names the symbol table and a section,
   and every entry has a symbol there is and a known type whose bytes lie inside that section.
   */
  lemma RelocationsExactly(ss: seq<Section>, names: seq<string>, s: Section, entries: seq<Entry>,
                           symbolSection: nat, symbolCount: nat)
    requires |names| == |ss| && IsRelocationSection(s) && Packable(entries)
    requires s.data == PackWords(EntryWords(entries, s.header.kind == RELA))
    ensures RelocationTableLegal(ss, names, s, symbolSection, symbolCount) <==>
              && s.header.entrySize == (if s.header.kind == 4 then 12 else 8)
              && s.header.link == symbolSection && s.header.info < |ss|
              && forall k :: 0 <= k < |entries| ==> EntryWorks(ss[s.header.info], entries[k], symbolCount)
    ensures s.header.info < |ss| ==> RelocationTable(ss, names, s) == AllReadAs(entries, names[s.header.info])
  {
    hide PackWords, EntryWords, EntryWorks, RelocationAt, RelocationLegal, ReadAs, Encloses;
    EntryCount(s, entries);
    if s.header.info < |ss| {
      forall k | 0 <= k < |entries|
        ensures (k + 1) * RelocationSize(s) <= |s.data|
        ensures RelocationAt(ss, names, s, k) == ReadAs(entries[k], names[s.header.info])
        ensures RelocationLegal(ss[s.header.info], RelocationAt(ss, names, s, k), symbolCount) <==>
                  EntryWorks(ss[s.header.info], entries[k], symbolCount)
      {
        EntryExactly(ss, names, s, entries, k, symbolCount);
      }
    }
  }

  /** An accepted relocation table holds whole entries, one for each relocation read from it. */
  lemma AcceptedEntries(ss: seq<Section>, names: seq<string>, s: Section, symbolSection: nat, symbolCount: nat)
    requires |names| == |ss| && IsRelocationSection(s)
    requires RelocationTableLegal(ss, names, s, symbolSection, symbolCount)
    ensures |s.data| == (if s.header.kind == 4 then 12 else 8) * |RelocationTable(ss, names, s)|
  {
    hide RelocationAt, RelocationLegal;
  }

  lemma EntryCount(s: Section, entries: seq<Entry>)
    requires IsRelocationSection(s) && Packable(entries)
    requires s.data == PackWords(EntryWords(entries, s.header.kind == RELA))
    ensures |s.data| % RelocationSize(s) == 0 && |s.data| / RelocationSize(s) == |entries|
    ensures RelocationSize(s) == if s.header.kind == 4 then 12 else 8
  {
    hide PackWords, EntryWords;
  }

  // ----- symbols and imports

  /** A symbol as it is packed, with its name; `other` is not read. */
  datatype PackedSymbol = PackedSymbol(name: string, value: u32, size: u32, info: byte, other: byte, section: u16)

  function SymbolNames(symbols: seq<PackedSymbol>): (names: seq<string>)
    ensures |names| == |symbols| && forall k :: 0 <= k < |names| ==> names[k] == symbols[k].name
  {
    seq(|symbols|, k requires 0 <= k < |symbols| => symbols[k].name)
  }

  /** The names fit in a table with 32-bit offsets, and each is short enough to be read. */
  predicate NamesPackable(names: seq<string>) {
    && |NameTable(names)| < 0x1_0000_0000
    && forall k :: 0 <= k < |names| ==> '\0' !in names[k] && |Encode(names[k])| <= 1024
  }

  function SymbolWord(symbols: seq<PackedSymbol>, k: nat, j: nat): u32
    requires k < |symbols| && NameStart(SymbolNames(symbols), k) < 0x1_0000_0000
  {
    var y := symbols[k];
    if j == 0 then NameStart(SymbolNames(symbols), k) else if j == 1 then y.value else if j == 2 then y.size
    else y.info * 0x100_0000 + y.other * 0x1_0000 + y.section
  }

  lemma StartsFit(names: seq<string>)
    requires NamesPackable(names)
    ensures forall k :: 0 <= k < |names| ==> NameStart(names, k) < 0x1_0000_0000
  {
    forall k | 0 <= k < |names|
      ensures NameStart(names, k) < 0x1_0000_0000
    {
      StartInside(names, k);
    }
  }

  function SymbolWords(symbols: seq<PackedSymbol>): (words: seq<u32>)
    requires NamesPackable(SymbolNames(symbols))
    ensures |words| == 4 * |symbols|
  {
    StartsFit(SymbolNames(symbols));
    seq(4 * |symbols|, i requires 0 <= i < 4 * |symbols| => SymbolWord(symbols, i / 4, i % 4))
  }

  lemma SymbolFields(symbols: seq<PackedSymbol>, k: nat)
    requires NamesPackable(SymbolNames(symbols)) && k < |symbols|
    ensures NameStart(SymbolNames(symbols), k) < 0x1_0000_0000
    ensures var data, y := PackWords(SymbolWords(symbols)), symbols[k];
            && |data| == 16 * |symbols|
            && U32(data, 16 * k) == NameStart(SymbolNames(symbols), k)
            && U32(data, 16 * k + 4) == y.value && U32(data, 16 * k + 8) == y.size
            && data[16 * k + 12] == y.info && U16(data, 16 * k + 14) == y.section
  {
    hide PackWords, U32, U16, NamesPackable, NameStart;
    StartsFit(SymbolNames(symbols));
    var words, y := SymbolWords(symbols), symbols[k];
    PackedWord(words, 4 * k);
    PackedWord(words, 4 * k + 1);
    PackedWord(words, 4 * k + 2);
    PackedWord(words, 4 * k + 3);
    InfoAndSection(PackWords(words), 16 * k + 12, y.info, y.other, y.section);
  }

  lemma LongNameReads(names: seq<string>, k: nat)
    requires NamesPackable(names) && k < |names|
    ensures CString(NameTable(names), NameStart(names, k), 1024) == Some(names[k])
  {
    hide Encode, CString, NameTable, NameStart;
    NameStands(names, k);
    CStringReads(NameTable(names), NameStart(names, k), 1024, names[k]);
  }

  predicate InImports(ss: seq<Section>, y: PackedSymbol) {
    y.section < |ss| && ss[y.section].header.kind == 0x8000_0002
  }

  const UPPER: string := "ABCDEFGHIJKLMNOPQRSTUVWXYZ"
  const LOWER: string := "abcdefghijklmnopqrstuvwxyz"
  const DIGITS: string := "0123456789"

  /** A letter, a digit, an underscore, a dot or a dash. */
  predicate IsWordChar(c: char) {
    c in UPPER || c in LOWER || c in DIGITS || c in "_.-"
  }

  predicate IsModule(name: string) {
    1 <= |name| <= 64 && forall i :: 0 <= i < |name| ==> IsWordChar(name[i])
  }

  lemma ModuleExactly(name: string)
    ensures Identifier(name, 64) <==> IsModule(name)
  {
    forall i | 0 <= i < |name|
      ensures IdentifierChar(name[i]) <==> IsWordChar(name[i])
    {
      CharExactly(name[i]);
    }
    hide IdentifierChar, IsWordChar;
  }

  /** Consecutive characters from `first` on are exactly a range. */
  lemma Consecutive(all: string, first: char, c: char)
    requires |all| <= 26 && first as int < 128 && forall i :: 0 <= i < |all| ==> all[i] as int == first as int + i
    ensures c in all <==> first as int <= c as int < first as int + |all|
  {
    if first as int <= c as int < first as int + |all| {
      assert all[c as int - first as int] == c;
    }
  }

  lemma CharExactly(c: char)
    ensures IdentifierChar(c) <==> IsWordChar(c)
  {
    Consecutive(UPPER, 'A', c);
    Consecutive(LOWER, 'a', c);
    Consecutive(DIGITS, '0', c);
    hide UPPER, LOWER, DIGITS;
    assert |"_.-"| == 3;
  }

  /** `y` imports its name from a module: a function (type 2) or data (type 1), at a byte of the import section. */
  predicate ImportsFrom(ss: seq<Section>, names: seq<string>, y: PackedSymbol, i: Import)
    requires |names| == |ss|
  {
    && InImports(ss, y) && i.name == y.name != "" && IsModule(i.moduleName)
    && names[y.section] == (if i.isFunction then ".fimport_" else ".dimport_") + i.moduleName
    && y.info % 16 == (if i.isFunction then 2 else 1)
    && Encloses(ss[y.section], y.value, 1)
  }

  /** A symbol of an import section must import something. */
  ghost predicate SymbolWorks(ss: seq<Section>, names: seq<string>, y: PackedSymbol)
    requires |names| == |ss|
  {
    InImports(ss, y) ==> exists i :: ImportsFrom(ss, names, y, i)
  }

  /** `symbol` is what is read of `y`. */
  ghost predicate ReadsSymbol(ss: seq<Section>, names: seq<string>, y: PackedSymbol, symbol: Symbol)
    requires |names| == |ss|
  {
    && symbol.name == y.name && symbol.value == y.value && symbol.size == y.size && symbol.info == y.info
    && symbol.section == y.section
    && if InImports(ss, y) then symbol.imported.Some? && ImportsFrom(ss, names, y, symbol.imported.value)
       else symbol.imported.None?
  }

  lemma ImportExactly(ss: seq<Section>, names: seq<string>, y: PackedSymbol, i: Import)
    requires |names| == |ss| && InImports(ss, y)
    ensures ImportOf(ss[y.section], names[y.section], y.name, y.value, y.info) == Some(i) <==>
              ImportsFrom(ss, names, y, i)
  {
    hide Identifier, IsModule;
    var name := names[y.section];
    if |name| >= 9 {
      ModuleExactly(name[9..]);
      assert name == name[..9] + name[9..];
    }
    assert |".fimport_"| == 9 && |".dimport_"| == 9;
    if ImportsFrom(ss, names, y, i) {
      var prefix := if i.isFunction then ".fimport_" else ".dimport_";
      assert name[..9] == prefix && name[9..] == i.moduleName;
      assert prefix[1] == if i.isFunction then 'f' else 'd';
    }
  }

  lemma SymbolExactly(ss: seq<Section>, names: seq<string>, symbols: seq<PackedSymbol>, k: nat)
    requires |names| == |ss| && NamesPackable(SymbolNames(symbols)) && k < |symbols|
    ensures |PackWords(SymbolWords(symbols))| == 16 * |symbols|
    ensures var read := SymbolAt(ss, names, NameTable(SymbolNames(symbols)), PackWords(SymbolWords(symbols)), k);
            && (read.Some? <==> SymbolWorks(ss, names, symbols[k]))
            && (read.Some? ==> ReadsSymbol(ss, names, symbols[k], read.value))
  {
    hide PackWords, U32, U16, NameTable, NameStart, CString, NamesPackable, SymbolWords, ImportOf, ImportsFrom;
    var y := symbols[k];
    SymbolFields(symbols, k);
    LongNameReads(SymbolNames(symbols), k);
    if InImports(ss, y) {
      var found := ImportOf(ss[y.section], names[y.section], y.name, y.value, y.info);
      forall i
        ensures found == Some(i) <==> ImportsFrom(ss, names, y, i)
      {
        ImportExactly(ss, names, y, i);
      }
      if found.Some? {
        assert ImportsFrom(ss, names, y, found.value);
      }
    }
  }

  /** Both import the same name from sections of the same name, which is the same module and kind. */
  predicate ImportTheSame(ss: seq<Section>, names: seq<string>, a: PackedSymbol, b: PackedSymbol)
    requires |names| == |ss|
  {
    InImports(ss, a) && InImports(ss, b) && names[a.section] == names[b.section] && a.name == b.name
  }

  lemma SameImportExactly(ss: seq<Section>, names: seq<string>, a: PackedSymbol, b: PackedSymbol, i: Import, j: Import)
    requires |names| == |ss| && ImportsFrom(ss, names, a, i) && ImportsFrom(ss, names, b, j)
    ensures i == j <==> ImportTheSame(ss, names, a, b)
  {
    hide IsModule;
    var m, n := names[a.section], names[b.section];
    assert |".fimport_"| == 9 && |".dimport_"| == 9 && ".fimport_"[1] == 'f' && ".dimport_"[1] == 'd';
    assert m[1] == (if i.isFunction then 'f' else 'd') && n[1] == (if j.isFunction then 'f' else 'd');
    assert m[9..] == i.moduleName && n[9..] == j.moduleName;
  }

  lemma ClashExactly(ss: seq<Section>, names: seq<string>, a: PackedSymbol, b: PackedSymbol, x: Symbol, y: Symbol)
    requires |names| == |ss| && ReadsSymbol(ss, names, a, x) && ReadsSymbol(ss, names, b, y)
    ensures SameImport(Some(x), Some(y)) <==> ImportTheSame(ss, names, a, b)
  {
    hide ImportsFrom;
    if InImports(ss, a) && InImports(ss, b) {
      SameImportExactly(ss, names, a, b, x.imported.value, y.imported.value);
    }
  }

  ghost predicate SymbolsWork(ss: seq<Section>, names: seq<string>, symbols: seq<PackedSymbol>)
    requires |names| == |ss|
  {
    && (forall k :: 0 <= k < |symbols| ==> SymbolWorks(ss, names, symbols[k]))
    && (forall j, k :: 0 <= j < k < |symbols| ==> !ImportTheSame(ss, names, symbols[j], symbols[k]))
  }

  ghost predicate ReadsSymbols(ss: seq<Section>, names: seq<string>, symbols: seq<PackedSymbol>, read: seq<Symbol>)
    requires |names| == |ss|
  {
    |read| == |symbols| && forall k :: 0 <= k < |read| ==> ReadsSymbol(ss, names, symbols[k], read[k])
  }

  lemma SymbolTableExactly(ss: seq<Section>, names: seq<string>, symbols: seq<PackedSymbol>)
    requires |names| == |ss| && NamesPackable(SymbolNames(symbols))
    ensures var strings, data := NameTable(SymbolNames(symbols)), PackWords(SymbolWords(symbols));
            && (SymbolsLegal(ss, names, strings, data) <==> SymbolsWork(ss, names, symbols))
            && (SymbolsLegal(ss, names, strings, data) ==>
                  ReadsSymbols(ss, names, symbols, SymbolTable(ss, names, strings, data)))
  {
    hide NameTable, PackWords, SymbolWords, SymbolAt, SymbolWorks, ReadsSymbol, NamesPackable, SameImport,
      ImportTheSame;
    var strings, data := NameTable(SymbolNames(symbols)), PackWords(SymbolWords(symbols));
    assert |data| == 16 * |symbols|;
    forall k | 0 <= k < |symbols|
      ensures var read := SymbolAt(ss, names, strings, data, k);
              && (read.Some? <==> SymbolWorks(ss, names, symbols[k]))
              && (read.Some? ==> ReadsSymbol(ss, names, symbols[k], read.value))
    {
      SymbolExactly(ss, names, symbols, k);
    }
    forall j, k | 0 <= j < k < |symbols| && SymbolWorks(ss, names, symbols[j]) && SymbolWorks(ss, names, symbols[k])
      ensures SameImport(SymbolAt(ss, names, strings, data, j), SymbolAt(ss, names, strings, data, k))
         <==> ImportTheSame(ss, names, symbols[j], symbols[k])
    {
      ClashExactly(ss, names, symbols[j], symbols[k], SymbolAt(ss, names, strings, data, j).value,
                   SymbolAt(ss, names, strings, data, k).value);
    }
  }

  predicate HoldsSymbols(s: Section) {
    s.header.kind == 2 || s.header.kind == 11
  }

  lemma {:induction false} NoSymbolSections(ss: seq<Section>)
    requires forall i :: 0 <= i < |ss| ==> !HoldsSymbols(ss[i])
    ensures SymbolSections(ss) == []
  {
    if ss != [] {
      NoSymbolSections(ss[..|ss| - 1]);
    }
  }

  lemma {:induction false} OneSymbolSection(ss: seq<Section>, at: nat)
    requires at < |ss| && forall i :: 0 <= i < |ss| ==> (HoldsSymbols(ss[i]) <==> i == at)
    ensures SymbolSections(ss) == [ss[at]]
  {
    if at == |ss| - 1 {
      NoSymbolSections(ss[..at]);
    } else {
      OneSymbolSection(ss[..|ss| - 1], at);
    }
  }

  lemma {:induction false} SymbolSectionIsOne(ss: seq<Section>)
    requires |SymbolSections(ss)| <= 1
    ensures forall i, j :: 0 <= i < j < |ss| && HoldsSymbols(ss[i]) ==> !HoldsSymbols(ss[j])
    ensures SymbolSections(ss) == [] <==> forall i :: 0 <= i < |ss| ==> !HoldsSymbols(ss[i])
  {
    if ss != [] {
      var front := ss[..|ss| - 1];
      SymbolSectionIsOne(front);
      assert forall i :: 0 <= i < |front| ==> front[i] == ss[i];
    }
  }

  /** Two symbol tables are refused, and so is none; the one there is holds whole entries. */
  lemma AcceptedSymbolTable(ss: seq<Section>, names: seq<string>) returns (at: nat)
    requires |names| == |ss| && SymbolsAccept(ss, names)
    ensures at < |ss| && forall i :: 0 <= i < |ss| ==> (HoldsSymbols(ss[i]) <==> i == at)
    ensures |ss[at].data| == 16 * |SymbolsOf(ss, names)|
  {
    hide SymbolsLegal, SymbolTable, HoldsSymbols, StringTable;
    SymbolSectionIsOne(ss);
    at :| 0 <= at < |ss| && HoldsSymbols(ss[at]);
    OneSymbolSection(ss, at);
  }

  /**
   The one symbol table, printed from any list of symbols: 16-byte entries with a string table, every symbol of an
   import section an import of its kind, and nothing imported twice.
   */
  lemma SymbolsExactly(ss: seq<Section>, names: seq<string>, at: nat, symbols: seq<PackedSymbol>)
    requires |names| == |ss| && at < |ss| && forall i :: 0 <= i < |ss| ==> (HoldsSymbols(ss[i]) <==> i == at)
    requires NamesPackable(SymbolNames(symbols)) && ss[at].data == PackWords(SymbolWords(symbols))
    requires ss[at].header.link < |ss| ==> ss[ss[at].header.link].data == NameTable(SymbolNames(symbols))
    ensures SymbolsAccept(ss, names) <==>
              && ss[at].header.entrySize == 16 && ss[at].header.link < |ss| && ss[ss[at].header.link].header.kind == 3
              && SymbolsWork(ss, names, symbols)
    ensures SymbolsAccept(ss, names) ==> ReadsSymbols(ss, names, symbols, SymbolsOf(ss, names))
  {
    hide NameTable, PackWords, SymbolWords, SymbolsWork, ReadsSymbols, NamesPackable, SymbolsLegal, SymbolTable,
      SymbolSections, HoldsSymbols;
    OneSymbolSection(ss, at);
    SymbolTableExactly(ss, names, symbols);
    assert |ss[at].data| == 16 * |symbols|;
  }

  // ----- exports

  function ExportNames(exports: seq<Export>): (names: seq<string>)
    ensures |names| == |exports| && forall k :: 0 <= k < |names| ==> names[k] == exports[k].name
  {
    seq(|exports|, k requires 0 <= k < |exports| => exports[k].name)
  }

  /** Names that are there and short enough to be read, behind addresses and offsets that fit in 32 bits. */
  predicate ExportsPackable(exports: seq<Export>) {
    && NamesPackable(ExportNames(exports))
    && 8 + 8 * |exports| + |NameTable(ExportNames(exports))| < 0x1_0000_0000
  }

  /** The count, a word that is not read, and an address and the offset of a name for each export. */
  function ExportWords(exports: seq<Export>, unread: u32): (words: seq<u32>)
    requires ExportsPackable(exports)
    ensures |words| == 2 + 2 * |exports|
  {
    var n := |exports|;
    StartsInside(ExportNames(exports));
    [n, unread]
    + seq(2 * n, i requires 0 <= i < 2 * n =>
        if i % 2 == 0 then exports[i / 2].address else 8 + 8 * n + NameStart(ExportNames(exports), i / 2))
  }

  /** The words, and then the names, each with its terminator. */
  function ExportContent(exports: seq<Export>, unread: u32): bytes
    requires ExportsPackable(exports)
  {
    PackWords(ExportWords(exports, unread)) + NameTable(ExportNames(exports))
  }

  lemma StartsInside(names: seq<string>)
    ensures forall k :: 0 <= k < |names| ==> NameStart(names, k) < |NameTable(names)|
  {
    forall k | 0 <= k < |names|
      ensures NameStart(names, k) < |NameTable(names)|
    {
      StartInside(names, k);
    }
  }

  lemma ExportFields(exports: seq<Export>, unread: u32, k: nat)
    requires ExportsPackable(exports) && k < |exports|
    ensures var data, n := ExportContent(exports, unread), |exports|;
            && |data| >= 8 + 8 * n && U32(data, 0) == n && U32(data, 8 + k * 8) == exports[k].address
            && U32(data, 12 + k * 8) == 8 + 8 * n + NameStart(ExportNames(exports), k)
  {
    hide PackWords, U32, NameTable, NameStart, NamesPackable;
    var words, n := ExportWords(exports, unread), |exports|;
    var data := ExportContent(exports, unread);
    PackedWord(words, 0);
    PackedWord(words, 2 + 2 * k);
    PackedWord(words, 3 + 2 * k);
    SamePrefixWord(PackWords(words), data, 0);
    SamePrefixWord(PackWords(words), data, 8 + k * 8);
    SamePrefixWord(PackWords(words), data, 12 + k * 8);
  }

  lemma StandsBehind(front: bytes, table: bytes, offset: nat, t: string)
    requires StandsAt(table, offset, t)
    ensures StandsAt(front + table, |front| + offset, t)
  {
    hide Encode;
    var n, at := |Encode(t)|, |front| + offset;
    assert (front + table)[at..at + n] == table[offset..offset + n];
  }

  lemma ExportNameReads(exports: seq<Export>, unread: u32, k: nat)
    requires ExportsPackable(exports) && k < |exports|
    ensures CString(ExportContent(exports, unread), 8 + 8 * |exports| + NameStart(ExportNames(exports), k), 1024)
         == Some(exports[k].name)
  {
    hide Encode, CString, NameTable, NameStart, PackWords, ExportWords;
    var words, names := ExportWords(exports, unread), ExportNames(exports);
    NameStands(names, k);
    StandsBehind(PackWords(words), NameTable(names), NameStart(names, k), names[k]);
    CStringReads(ExportContent(exports, unread), 8 + 8 * |exports| + NameStart(names, k), 1024, names[k]);
  }

  /** A function is exported at an aligned word of code, data at any guest byte; neither without a name. */
  ghost predicate ExportWorks(ss: seq<Section>, e: Export) {
    && e.name != ""
    && if e.isFunction then e.address % 4 == 0 && CodeAt(ss, e.address, 4) else GuestAt(ss, e.address, 1)
  }

  lemma PlacedExactly(ss: seq<Section>, s: Section, e: Export)
    requires e.isFunction <==> IsExecutable(s)
    ensures AnyBit(s.header.flags, EXEC) == e.isFunction
    ensures ExportWorks(ss, e) <==>
              && e.name != "" && (e.isFunction ==> Aligned4(e.address))
              && GuestRangeOk(ss, e.address, if e.isFunction then 4 else 1, if e.isFunction then CODE else ALLOC)
  {
    hide Aligned4, GuestRangeOk, AnyBit, CodeAt, GuestAt;
    Aligned(e.address);
    FlagBits(s.header.flags);
    RangeExactly(ss, e.address, 4);
    RangeExactly(ss, e.address, 1);
  }

  lemma ExportExactly(ss: seq<Section>, s: Section, exports: seq<Export>, unread: u32, k: nat)
    requires ExportsPackable(exports) && s.data == ExportContent(exports, unread) && k < |exports|
    requires exports[k].isFunction <==> IsExecutable(s)
    ensures |s.data| >= 8 + 8 * |exports|
    ensures ExportAt(ss, s, k) == if ExportWorks(ss, exports[k]) then Some(exports[k]) else None
  {
    hide CString, U32, Aligned4, GuestRangeOk, AnyBit, ExportWorks, ExportContent, ExportsPackable, NameStart,
      IsExecutable;
    ExportFields(exports, unread, k);
    ExportNameReads(exports, unread, k);
    PlacedExactly(ss, s, exports[k]);
  }

  /**
   An export table printed from any list of at most 4096 exports is legal exactly when every export works, and is
   then read as that list.
   */
  lemma ExportsReadBack(ss: seq<Section>, s: Section, exports: seq<Export>, unread: u32)
    requires ExportsPackable(exports) && s.data == ExportContent(exports, unread)
    requires forall k :: 0 <= k < |exports| ==> (exports[k].isFunction <==> IsExecutable(s))
    ensures ExportTableLegal(ss, s) <==>
              |exports| <= 4096 && forall k :: 0 <= k < |exports| ==> ExportWorks(ss, exports[k])
    ensures ExportTableLegal(ss, s) ==> ExportTable(ss, s) == exports
  {
    hide U32, ExportAt, ExportWorks, ExportContent, ExportsPackable, IsExecutable;
    ExportCount(exports, unread);
    forall k | 0 <= k < |exports|
      ensures ExportAt(ss, s, k) == if ExportWorks(ss, exports[k]) then Some(exports[k]) else None
    {
      ExportExactly(ss, s, exports, unread, k);
    }
  }

  lemma ExportCount(exports: seq<Export>, unread: u32)
    requires ExportsPackable(exports)
    ensures var data := ExportContent(exports, unread);
            |data| >= 8 + 8 * |exports| && U32(data, 0) == |exports|
  {
    hide PackWords, U32, NameTable, NameStart, NamesPackable;
    var words := ExportWords(exports, unread);
    PackedWord(words, 0);
    SamePrefixWord(PackWords(words), ExportContent(exports, unread), 0);
  }

  lemma {:induction false} NoExportSections(ss: seq<Section>, n: nat)
    requires n <= |ss| && forall i :: 0 <= i < n ==> ss[i].header.kind != 0x8000_0001
    ensures ExportsOf(ss, n) == []
  {
    hide ExportTable, ExportTableLegal;
    if n > 0 {
      NoExportSections(ss, n - 1);
    }
  }

  lemma {:induction false} OneExportSection(ss: seq<Section>, at: nat, n: nat)
    requires at < n <= |ss| && forall i :: 0 <= i < |ss| ==> (ss[i].header.kind == 0x8000_0001 <==> i == at)
    ensures ExportsOf(ss, n) == if ExportTableLegal(ss, ss[at]) then ExportTable(ss, ss[at]) else []
  {
    hide ExportTable, ExportTableLegal;
    if n == at + 1 {
      NoExportSections(ss, at);
    } else {
      OneExportSection(ss, at, n - 1);
    }
  }

  /** The only export table of an image: every export works, and no two have the same name. */
  lemma ExportsExactly(ss: seq<Section>, at: nat, exports: seq<Export>, unread: u32)
    requires at < |ss| && forall i :: 0 <= i < |ss| ==> (ss[i].header.kind == 0x8000_0001 <==> i == at)
    requires ExportsPackable(exports) && ss[at].data == ExportContent(exports, unread)
    requires forall k :: 0 <= k < |exports| ==> (exports[k].isFunction <==> IsExecutable(ss[at]))
    ensures ExportsAccept(ss) <==>
              && |exports| <= 4096 && (forall k :: 0 <= k < |exports| ==> ExportWorks(ss, exports[k]))
              && forall j, k :: 0 <= j < k < |exports| ==> exports[j].name != exports[k].name
    ensures ExportsAccept(ss) ==> ExportsOf(ss, |ss|) == exports
  {
    hide ExportTable, ExportTableLegal, ExportWorks, ExportContent, ExportsPackable, IsExecutable, ExportsOf;
    ExportsReadBack(ss, ss[at], exports, unread);
    OneExportSection(ss, at, |ss|);
  }

  /** Whatever is behind them, the first two words ask for at most 4096 exports and room for their pairs. */
  lemma ExportHeaderExactly(ss: seq<Section>, s: Section, count: u32, unread: u32, rest: bytes)
    requires s.data == PackWords([count, unread]) + rest
    ensures ExportHeaderLegal(s) <==> count <= 4096 && 8 * count <= |rest|
    ensures count == 0 ==> ExportTableLegal(ss, s) && ExportTable(ss, s) == []
  {
    hide U32, PackWords, ExportAt;
    PackedWord([count, unread], 0);
    SamePrefixWord(PackWords([count, unread]), s.data, 0);
  }

  lemma NoExportsAccepted(ss: seq<Section>)
    requires forall i :: 0 <= i < |ss| ==> ss[i].header.kind != 0x8000_0001
    ensures ExportsAccept(ss) && ExportsOf(ss, |ss|) == []
  {
    hide ExportTable, ExportTableLegal;
    NoExportSections(ss, |ss|);
  }
}
