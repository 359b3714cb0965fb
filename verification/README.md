# Verified model of the cemod SDK formats

The SDK packs Wii U plugins into `.cemod` archives and checks them before anything is loaded. This project models
the parts of it that decide over untrusted bytes, and proves what their decisions guarantee:

* the inspection of WPS/RPL images (`inspect_wups`): section table, stored ranges, guest memory layout, metadata, hooks,
  replacements, symbols, relocations and exports;
* the trusted-native ELF pipeline: in-place normalisation of relocations, the ELF validator, and the package
  verifier's own reading of the CMB1 bootstrap section;
* the package container: normalised entry names, admission of archive entries, the canonical signature digest, the
  packager and the reader.

## How it is organised

| file | content |
|---|---|
| `Bytes.dfy`, `Intervals.dfy`, `Words.dfy` | big-endian fields, bit masks, sums, ranges that pack, packed words |
| `SectionHeaders.dfy`, `ElfHeaders.dfy` | section headers; the ELF header by its fields, and which headers each reader accepts |
| `Utf8.dfy`, `CStrings.dfy` | strict UTF-8 (RFC 3629), NUL-terminated strings |
| `WpsSections.dfy`, `WpsGeometry.dfy`, `WpsLayout.dfy` | section pass, names, CRC and FILEINFO, guest layout, and its guarantees |
| `WpsMetadata.dfy`, `WpsDescriptors.dfy`, `WpsInspect.dfy` | metadata loop, descriptors, the whole inspection |
| `WpsPrinter.dfy`, `WpsTables.dfy` | the test suite's image printer, read back by the inspection, with compressed sections |
| `WpsExact.dfy`, `WpsGeometryExact.dfy` | every descriptor table printed from any list, and the checks before them, field by field: exactly what is accepted |
| `WpsOwners.dfy` | who owns the bytes that exports, imports and relocations name |
| `WpsAssembly.dfy`, `WpsFixture.dfy` | completing a plugin's sections into an image; the suite's image with any hooks, relocations and exports, and exactly when it is accepted |
| `ElfValidate.dfy`, `ElfGeometry.dfy`, `ElfExact.dfy` | the ELF validator, its image geometry, and what it asks of printed headers, symbols, relocations and records |
| `Normalize.dfy`, `NormalizeLaws.dfy`, `NormalizeValidate.dfy` | normalisation, its laws, and what it does to validity |
| `Bootstrap.dfy` | the second finder of the bootstrap section and its agreement with the validator |
| `ElfFixture.dfy` | the test suite's ELF image with any CMB1 records, symbols and relocations, and exactly when both accept it |
| `EntryNames.dfy`, `Digest.dfy` | entry names and keys, the canonical digest |
| `Package.dfy`, `PackageOrder.dfy`, `PackageRead.dfy` | archive entries, their order, the package reader |
| `Packager.dfy`, `PackageThenRead.dfy` | assembling and signing a package, and reading it again |
| `PackageComplete.dfy` | every package the reader accepts is one the packager can make |
| `PackageWitness.dfy` | one package that is read back, deflated or stored, and two that are packaged in vain |

The loops that check or build something are methods with invariants; each contract says that the method succeeds exactly
when a declarative predicate holds, and what it returns. Lookups (`guest_range`, `guest_string`, sections by name) and
the tests of the manifest's views are functions and predicates. The predicates do not mention running totals, growing
lists or the order of checks; the theorems are about them. What a predicate means is in turn proved of the bytes: the
`...Exactly` lemmas print a header or a table from any fields and say, in terms of those fields alone, when it is
accepted and what is read. Python strings are Dafny strings (Unicode scalar values), byte strings are sequences of
numbers below 256, and 16- and 32-bit fields carry their bounds in their types, so no sum wraps unseen. That every read
in the methods stays within the buffer is proved along the way: no `struct.unpack_from` can fail. A `struct.pack` can,
for a name or content too long for its length field, and `Digest.ComputeDigest` says when.

What the code calls but does not define comes in as parameters: inflating a stream and CRC-32 (`Zlib`), SHA-256
(`Hash`, 32-byte results and nothing else known), the signature scheme (`Verifier`, a signing function), and JSON
decoding together with manifest validation (`Tools.parse`).

## Findings

* The metadata loop advances by decoded characters, not by bytes (`tools/cemodlib.py:694`). Printed metadata is read
  back exactly when no record leaves bytes behind that hold another `=` or are not UTF-8 (`WpsMetadata.RoundTrip`);
  ASCII always is, and a value of two accented letters is not (`WpsMetadata.AccentedValueIsLost`).
* A key of `_normalize_entry` can begin like a drive (`./c:/x` gives `c:/x`) and is then refused when normalised again.
* The test for equal names at `tools/cemodlib.py:916` can never fire.
* The design document promises digests over names sorted by UTF-8 bytes; the code sorts by code point. The two orders
  are the same.
* A second normalisation is not always idle: a relocation table that overlaps a section header can change what the
  next run sees (`NormalizeLaws.SecondRunChangesMore`). A run changes nothing exactly when the file is settled: its
  relocation tables are legal and none of their entries has type 24 (`NormalizeLaws.UnchangedExactly`). A first run
  leaves a settled file whenever none of the 24s it replaces lies in the ELF header or a section header.
* The packager can write a package that its own reader refuses. It reads nothing back, so nothing tests the suffix of
  the output, the size of the archive and of the printed manifest, the compression of an entry (a page of 8192 zeros
  that deflates to 24 bytes is too dense, `PackageWitness.DensePageIsRefused`), or whether the printed manifest is
  still one that describes the package (an unread member `1e400` is printed as `Infinity`, which the reader rejects;
  `PackageWitness.LostManifestIsRefused`). The reader accepts exactly when all of these hold
  (`PackageThenRead.ReadsWhatWasPackaged`).
* Nothing asks an import section to be allocated. An imported symbol names a byte that its import section owns exactly
  when the section is allocated (`WpsOwners.ImportOwner`); `WpsOwners.HiddenImport` is an accepted image where it is not.

## Model

| member | source | states |
|---|---|---|
| Bytes.EncodeDecodeU32 | tools/cemodlib.py:581 | any four bytes are the big-endian field of the number they read as |
| Bytes.DecodeEncodeU64 | tools/cemodlib.py:388 | an eight-byte field holds its high 32 bits first and its low 32 bits behind them |
| Bytes.BitAndBits | tools/cemodlib.py:554-559 | `a & b` has exactly the bits that both have |
| Bytes.SingleBit | tools/cemodlib.py:556-561 | a mask of one bit tests that bit and nothing else |
| Utf8.DecodeEncode | tools/cemodlib.py:384 | every string survives encoding and strict decoding |
| Utf8.EncodeDecode | tools/cemodlib.py:400 | only encodings decode, each to the string it came from |
| Utf8.CodePointOrderIsByteOrder | tools/cemodlib.py:381-385 | one string is before another by code points exactly when its UTF-8 bytes are before the other's |
| Utf8.TextLessExactly | tools/cemodlib.py:381 | the order of names is that of the first place at which they differ, a prefix coming first |
| Utf8.Rfc3629Examples | tools/cemodlib.py:384 | two of the examples in section 7 of RFC 3629, with characters of one to four bytes |
| CStrings.CStringReads | tools/cemodlib.py:393-402 | reading yields `t` exactly when NUL-free `t` of at most the allowed bytes stands there, terminated, inside the buffer |
| WpsSections.ReadSection | tools/cemodlib.py:550-595 | accepts exactly the sections that are legal on their own, and returns header, expanded size and content |
| WpsSections.ReadSections | tools/cemodlib.py:546-605 | accepts exactly when all sections are legal, the stored ranges are pairwise disjoint and the expanded total is within the limit |
| WpsSections.SectionExactly | tools/cemodlib.py:550-595 | a section is accepted as `s` exactly when its alignment is zero or a power of two that divides an allocated address, it is not writable code, its stored bytes avoid the ELF header and the table, and it holds what is stored or, when compressed, a content of exactly the length in front of a stream that inflates to it |
| ElfHeaders.WpsHeaderExactly | tools/cemodlib.py:533-545 | of all headers a file can begin with, exactly those of a Cafe OS RPL with 5 to 512 section headers in the file are accepted |
| WpsGeometryExact.StringTableExactly | tools/cemodlib.py:606-608 | a string table is one in which a string ends behind every offset |
| WpsGeometry.ReadNames | tools/cemodlib.py:609-614 | accepts exactly when every name is a readable string and no two non-empty names are equal |
| WpsGeometry.CheckCrcs | tools/cemodlib.py:633-637 | accepts exactly when every section that is neither NOBITS nor the CRC table has its own CRC in the table |
| WpsGeometry.CheckAddresses | tools/cemodlib.py:641-662 | accepts exactly when every allocated section lies in the memory of its kind and no two of them overlap |
| WpsGeometry.CheckRegions | tools/cemodlib.py:671-682 | accepts exactly when every allocated section fits in its FILEINFO region |
| WpsGeometryExact.FileInfoExactly | tools/cemodlib.py:615-632 | FILEINFO of any words is read exactly when sizes, alignments, trampolines and loader adjustment are legal, and then as its region sizes |
| WpsGeometryExact.CrcsExactly | tools/cemodlib.py:633-637 | a printed CRC table passes exactly when each word is the CRC of its section, but for NOBITS sections and the table itself |
| WpsGeometryExact.AddressesExactly | tools/cemodlib.py:641-662 | the guest layout is accepted exactly when no byte is in two allocated sections and each lies, by its address, where code, data, imports or loader sections may |
| WpsGeometryExact.RegionExactly | tools/cemodlib.py:671-682 | for a section that lies where it may, the region check asks that it ends inside its region |
| WpsGeometry.ReadGeometry | tools/cemodlib.py:533-682 | the checks up to the guest layout accept exactly the images with a legal geometry, and return it |
| WpsGeometryExact.AcceptedSection | tools/cemodlib.py:550-605 | every section of an accepted image is well placed and holds what the file says |
| WpsGeometryExact.AcceptedTrailer | tools/cemodlib.py:606-637 | it has its name in the section of names and, unless exempt, its CRC in the second to last section |
| WpsGeometryExact.AcceptedPair | tools/cemodlib.py:572-614 | no two sections of an accepted image store a byte of the file together or share a non-empty name |
| WpsLayout.FileConservation | tools/cemodlib.py:543-576 | table and stored contents together are no larger than the file, and leave the ELF header free when the table does |
| WpsLayout.RegionConservation | tools/cemodlib.py:623-682 | the three regions are disjoint and below 4 GiB, and the allocated sections of each are together no larger than it |
| WpsLayout.AlignedSections | tools/cemodlib.py:554-559 | alignments are powers of two up to 64 KiB and allocated sections start at multiples of theirs |
| WpsLayout.UniqueOwner | tools/cemodlib.py:642-662 | no guest byte belongs to two positions of an accepted section list |
| WpsLayout.GuestRangeByOwner | tools/cemodlib.py:664-669 | a non-empty range is accepted exactly when the one owner of its first byte has the flags and holds all of it |
| WpsLayout.GuestStringByOwner | tools/cemodlib.py:718-723 | the first-match string lookup reads from the one owner of the address |
| WpsLayout.LookupsIgnoreOrder | tools/cemodlib.py:664-723 | reordering the sections of an accepted image changes no owner, no string and no range answer |
| WpsMetadata.ParseRecords | tools/cemodlib.py:689-703 | the loop computes the fold over strings read at its own offsets, or rejects |
| WpsMetadata.StepsByRecord | tools/cemodlib.py:692-703 | from a terminated record the loop adds it and goes on after its terminator when it is ASCII, and otherwise at an offset still inside it |
| WpsMetadata.CrumbsThenRest | tools/cemodlib.py:692-703 | started anywhere in a record the loop re-reads the rest of it and then goes on after its terminator |
| WpsMetadata.RoundTrip | tools/cemodlib.py:689-703 | printed records are read back as their map exactly when no record leaves a second one behind |
| WpsMetadata.AsciiRoundTrip | tools/cemodlib.py:689-703 | printed ASCII records are read back as their map |
| WpsMetadata.AccentedValueIsLost | tools/cemodlib.py:694 | a legal record whose value is two accented letters is not read back |
| WpsGeometryExact.MetadataExactly | tools/cemodlib.py:684-716 | metadata printed from ASCII records is accepted exactly in an allocated section, with a name, a supported version and legal optional values, and is then the map of the records |
| WpsDescriptors.ParseMetadata | tools/cemodlib.py:684-716 | accepts exactly when the section is there, its records are legal and the required keys have legal values |
| WpsDescriptors.ParseHooks | tools/cemodlib.py:725-736 | accepts exactly when the table is well formed, all hooks are legal and no kind occurs twice |
| WpsDescriptors.ParseReplacements | tools/cemodlib.py:738-764 | accepts exactly when the table is absent or well formed with legal records, and returns them in order |
| WpsDescriptors.ParseSymbols | tools/cemodlib.py:766-802 | accepts exactly when there is one well-formed symbol table whose symbols are legal and whose imports are distinct |
| WpsDescriptors.ParseRelocations | tools/cemodlib.py:804-829 | accepts exactly when every relocation table is well formed and every patch lies inside its target section |
| WpsDescriptors.ParseExports | tools/cemodlib.py:831-853 | accepts exactly when every export table is legal and no name of a kind is exported twice in the image |
| WpsExact.RangeExactly | tools/cemodlib.py:664-669 | a guest range is accepted exactly when one allocated section, executable or writable if asked, holds all of it |
| WpsExact.HooksExactly | tools/cemodlib.py:725-736 | a printed hook table is accepted exactly with 1 to 64 hooks of different known kinds that enter aligned words of code, and is read as that list |
| WpsExact.AcceptedHooks | tools/cemodlib.py:726-731 | whatever is accepted as a hook table is the printing of the hooks read from it |
| WpsExact.ReplacementsExactly | tools/cemodlib.py:738-764 | a printed load table is accepted exactly with at most 4096 replacements whose nine fields are legal, a fixed address going with library 66 alone, and is read as that list |
| WpsExact.AcceptedReplacements | tools/cemodlib.py:741-745 | whatever is accepted as a load table is the printing of the replacements read from it |
| WpsExact.SymbolsExactly | tools/cemodlib.py:766-802 | a printed symbol table is accepted exactly when every symbol of an import section is a function of a `.fimport_` or data of a `.dimport_` section at one of its bytes, and nothing is imported twice; it is read as those symbols and imports |
| WpsExact.AcceptedSymbolTable | tools/cemodlib.py:766-774 | an accepted image has exactly one symbol table, of one whole entry for each symbol |
| WpsExact.RelocationsExactly | tools/cemodlib.py:804-829 | a printed RELA or REL table is accepted exactly when its header fits and every entry has a symbol there is and a known type whose zero, two or four bytes lie in the target section; it is read as that list |
| WpsExact.AcceptedEntries | tools/cemodlib.py:808-812 | an accepted relocation table holds one whole entry for each relocation |
| WpsExact.ExportsReadBack | tools/cemodlib.py:834-853 | an export table printed as count, a word, address and name-offset pairs, and names, is legal exactly when every export is placed and named, and is read as that list |
| WpsExact.ExportsExactly | tools/cemodlib.py:831-853 | the only export table of an image is accepted exactly when moreover no two names are the same |
| WpsExact.ExportHeaderExactly | tools/cemodlib.py:836-840 | the first two words of an export table ask for at most 4096 exports and room for their pairs; no exports at all are legal |
| WpsInspect.InspectWups | tools/cemodlib.py:532-853 | the inspection accepts exactly the images that pass geometry and descriptors, and returns what they say |
| WpsInspect.PatchWordSeparation | tools/cemodlib.py:732-749 | hook and replacement words lie in one executable read-only section, call-through words in one writable non-executable one, and they never overlap |
| WpsOwners.ExportOwner | tools/cemodlib.py:831-853 | an exported function is one aligned word of an executable read-only section; exported data has an owner |
| WpsOwners.ImportOwner | tools/cemodlib.py:775-802 | no import has two symbols, and each names a byte of its import section, which owns it exactly when it is allocated |
| WpsOwners.RelocationOwner | tools/cemodlib.py:804-829 | a relocation names an existing symbol and rewrites bytes of the one section it names, which owns them exactly when it is allocated |
| WpsOwners.HiddenImport | tools/cemodlib.py:786-795 | an accepted image whose imported function is not owned by its import section |
| WpsTables.HooksReadBack | tests/test_cemod.py:93-94 | any list of hooks survives packing and reading |
| WpsTables.ReplacementsReadBack | tests/test_cemod.py:95-97 | any list of replacements survives packing and reading, field by field |
| WpsTables.HookTableIsPrinted | tools/cemodlib.py:731 | every hook table is the printing of the hooks read from it |
| WpsTables.LoadTableIsPrinted | tools/cemodlib.py:744-745 | every load table is the printing of the replacements read from it |
| WpsTables.FileInfoReadsBack | tests/test_cemod.py:121-123 | a packed FILEINFO is read as its region sizes, exactly when they and the alignments are legal |
| WpsPrinter.Offsets | tests/test_cemod.py:130-135 | the layout loop gives each content the aligned cursor and each empty section offset zero |
| WpsPrinter.PrintWps | tests/test_cemod.py:130-149 | the image holds the ELF header fields, every section header and every content at its place, and zero everywhere else |
| WpsPrinter.PrintedUnique | tests/test_cemod.py:130-149 | these requirements determine every byte of the image |
| WpsPrinter.PrintedReadsBack | tests/test_cemod.py:130-149 | any legal list of sections, stored or compressed, is printed into an image whose section pass reads every header and content back and accepts exactly when the contents are together within the limit |
| WpsPrinter.BadStreamIsRefused | tools/cemodlib.py:578-592 | a printed section with the compression flag is refused when its bytes stand for no content |
| WpsPrinter.PrintedCrcsPass | tests/test_cemod.py:124-128 | the printed CRC table passes the CRC check of the printed sections |
| WpsAssembly.NamesReadBack | tests/test_cemod.py:108-116 | every NUL-free name of at most 255 bytes is read back from the offset the loop gave it |
| WpsAssembly.PrintNames | tests/test_cemod.py:108-115 | the loop builds the name table and the offset of every name in it |
| WpsAssembly.PrintCrcs | tests/test_cemod.py:124-128 | the loop over the zeroed table stores the CRC of every content but the table's own |
| WpsAssembly.CompletedGeometry | tests/test_cemod.py:108-149 | any completed plugin is accepted up to its guest layout exactly when names are distinct, regions legal and sections lie where they may; then every section and name comes back |
| WpsAssembly.PrintParts | tests/test_cemod.py:108-149 | the printer makes the image of any completable parts |
| WpsFixture.FixtureAccepted | tests/test_cemod.py:84-149 | for every metadata, hooks, import flags, relocations and exports, the suite's image is accepted exactly when the metadata is legal and at most 256 bytes, 1 to 32 different known hooks enter code, relocations patch .text, and exports lie in code or guest memory under different names; the report then holds what was printed |
| WpsFixture.DefaultLegal | tests/test_cemod.py:84-86 | the suite's default metadata is legal, fits, and is read as its eight records |
| WpsFixture.DefaultImage | tests/test_cemod.py:288-293 | the suite's default image is accepted |
| ElfValidate.ReadSegments | tools/cemodlib.py:429-450 | accepts exactly when the load segments are legal, apart, contain code and fit the codecave, and returns them |
| ElfValidate.CheckNames | tools/cemodlib.py:461-475 | accepts exactly when every name is terminated ASCII and no two non-empty names are equal |
| ElfValidate.CheckSections | tools/cemodlib.py:482-511 | accepts exactly when every section is in bounds with defined symbols and supported relocations into the image |
| ElfValidate.CheckBootstrap | tools/cemodlib.py:513-529 | accepts exactly when one section has the bootstrap name and it is a legal CMB1 table |
| ElfValidate.ValidateElf | tools/cemodlib.py:405-529 | the validator accepts exactly the images that pass all of these |
| ElfHeaders.ElfHeaderExactly | tools/cemodlib.py:415-427 | the validator goes on exactly with the header of a PowerPC shared object whose tables lie in the file, and reads those tables |
| ElfExact.SegmentsExactly | tools/cemodlib.py:429-450 | printed program headers are accepted exactly when the loaded ones are in the file and not writable code, lie apart, hold some code and are together at most 10 MiB |
| ElfExact.NameExactly | tools/cemodlib.py:461-471 | a section name is read exactly when its bytes stand there as a terminated run of non-zero ASCII |
| ElfExact.NamesExactly | tools/cemodlib.py:461-475 | the names are accepted exactly when each stands there, terminated, and no two sections have the same one |
| ElfExact.ElfSymbolsExactly | tools/cemodlib.py:488-494 | a symbol table printed from any symbols is accepted exactly when every symbol after the first has a non-zero section field |
| ElfExact.ElfRelocationsExactly | tools/cemodlib.py:495-511 | a printed relocation table is accepted exactly when every entry has a supported type and a symbol there is, and patches two or four bytes of the image, or none |
| ElfExact.ElfRecordsExactly | tools/cemodlib.py:513-529 | a section of printed CMB1 records is accepted exactly when it is allocated and inside the image with 1 to 64 records that name a module, patch an aligned word under a mask and enter a word of code |
| ElfExact.ElfBootstrapExactly | tools/cemodlib.py:513-524 | a bootstrap section is accepted exactly when its header is that of an allocated section inside the image and its first three words are the CMB1 magic, version 1 with 24-byte records, and a count of 1 to 64 that is its size |
| ElfExact.AcceptedElf | tools/cemodlib.py:405-475 | every accepted image is a PowerPC shared object of at most 10 MiB with a table of names that all its sections use, no two of them sharing one |
| ElfGeometry.SegmentGeometry | tools/cemodlib.py:429-450 | load segments are disjoint, below 4 GiB, never writable and executable, and cover at most 10 MiB |
| ElfGeometry.PatchOwner | tools/cemodlib.py:502-511 | each relocation that patches anything patches bytes of exactly one segment |
| ElfGeometry.HandlerOwner | tools/cemodlib.py:525-529 | each CMB1 handler word lies in exactly one segment, executable and not writable |
| Normalize.RewriteSection | tools/normalize_relocations.py:41-46 | the inner loop rewrites the entries of one section in place and counts them |
| Normalize.Normalize | tools/normalize_relocations.py:21-49 | the file becomes the result of the walk with its count, or is left alone on an error |
| ElfHeaders.NormalizableExactly | tools/normalize_relocations.py:21-29 | a file is walked exactly when its first seven bytes are those of a big-endian 32-bit ELF and its section table lies in it |
| NormalizeLaws.ExactChangeCount | tools/normalize_relocations.py:32-49 | for every input, overlapping or not, each byte is unchanged or went from 24 to 1, and the count is the number of bytes that differ |
| NormalizeLaws.WalkClosed | tools/normalize_relocations.py:33-46 | when no type byte that holds 24 lies in the section header table, the result is the input with every type byte 24 replaced, in whatever order the tables lie |
| NormalizeLaws.UnmarkedKept | tools/normalize_relocations.py:41-46 | when no type byte that holds 24 lies in the ELF header or the section headers, bytes outside all relocation tables stay |
| NormalizeLaws.EntryFields | tools/normalize_relocations.py:42-45 | when moreover the tables do not overlap each other, every entry keeps target, symbol index and addend; type 24 becomes 1 and no 24 is left |
| NormalizeLaws.UnchangedExactly | tools/normalize_relocations.py:21-49 | a run changes nothing and returns 0 exactly when the file can be normalised, its relocation tables are legal and no entry has type 24 |
| NormalizeLaws.Idempotent | tools/normalize_relocations.py:21-49 | a second run changes nothing exactly when the first left such a file, which it does when no type byte that holds 24 lies in the ELF header or the section headers |
| NormalizeLaws.SecondRunChangesMore | tools/normalize_relocations.py:33-46 | a file whose relocation table overlaps a section header is not settled by the first run and is changed again by a second |
| NormalizeValidate.NormalizeThenValidate | tools/cemodlib.py:482-511 | with isolated relocation tables the normalised image is strictly valid exactly when the image was valid with type 24 allowed |
| NormalizeValidate.RelaxedBecomesStrict | tools/normalize_relocations.py:33-46 | every such image is normalised without an error into a strictly valid one |
| Bootstrap.BootstrapSection | tools/verify_cemod.py:30-62 | succeeds exactly when one section has the name and it is loadable, and returns its content |
| Bootstrap.VerifyRecords | tools/verify_cemod.py:88-99 | accepts exactly good CMB1 headers with good records |
| Bootstrap.FinderTablesExactly | tools/verify_cemod.py:30-47 | the finder goes on exactly with the header of a PowerPC shared object whose section table and section of names lie in the file |
| Bootstrap.FoundExactly | tools/verify_cemod.py:48-62 | it finds a section exactly when one, in the file and allocated, is called `.cemod.bootstrap`, and returns its bytes |
| Bootstrap.Cmb1Exactly | tools/verify_cemod.py:88-99 | printed CMB1 records pass exactly when there are 1 to 64 of them, each with a module, a target, a mask and no flags |
| Bootstrap.Cmb1HeaderExactly | tools/verify_cemod.py:89-95 | a CMB1 header passes exactly with the magic, version 1, 24-byte records and a count of 1 to 64 that is the size of the section |
| Bootstrap.BootstrapAgreement | tools/verify_cemod.py:30-99 | on validated images the finder returns the validated bytes, the header checks pass, and the records pass exactly when no target is zero |
| ElfFixture.FixtureAccepted | tests/test_cemod.py:152-170 | for any CMB1 records, symbols and relocations, the suite's image is accepted exactly when it is at most 10 MiB, has 1 to 64 records, each of them legal, every symbol but the first has a section, and every relocation is legal; the verifier then finds the records and accepts them exactly when no target is zero |
| ElfFixture.UndefinedSymbolIsRefused | tools/cemodlib.py:491-494 | an image with an undefined symbol behind the first one is refused |
| ElfFixture.SuiteAccepted | tests/test_cemod.py:152-170 | the suite's own record gives a 768-byte image that both accept |
| Digest.Sorted | tools/cemodlib.py:381 | lists the names in ascending code-point order, each once |
| Digest.SortedByBytes | tools/cemodlib.py:381 | ascending by code points is ascending by UTF-8 bytes |
| Digest.ComputeDigest | tools/cemodlib.py:379-390 | the loop computes the hash of the canonical stream, or fails exactly when a name or content is too long to pack |
| Digest.CanonicalStreamReads | tools/cemodlib.py:381-389 | read as 32-bit name length, name, 64-bit content length and 32 hash bytes, the canonical stream gives the unsigned names in ascending order with the lengths and hashes of their contents |
| Digest.StreamDecodes | tools/cemodlib.py:384-389 | the stream determines the names, lengths and content hashes it was built from |
| Digest.DigestBinding | tools/cemodlib.py:379-390 | equal digests mean equal packages up to the signature, or the lemma returns a collision of the hash |
| Digest.SignatureNotCommitted | tools/cemodlib.py:382-383 | packages that differ only in the signature entry have the same digest |
| EntryNames.NormalizeEntry | tools/cemodlib.py:104-123 | succeeds exactly on safe names and returns their key |
| EntryNames.KeyOfParts | tools/cemodlib.py:104-123 | a name joined from any components is accepted exactly when it is a relative path of at most 255 printable characters without backslash, drive or `..` whose first and last components are there; its key joins the components that stay |
| EntryNames.KeyComponents | tools/cemodlib.py:111-123 | a key splits into non-empty lower-case components, none of them `.` or `..` |
| EntryNames.KeyOfKey | tools/cemodlib.py:104-123 | normalising a key gives it back, unless it begins like a drive |
| EntryNames.HiddenDrive | tools/cemodlib.py:108-123 | `./c:/x` has the key `c:/x`, which is itself refused |
| EntryNames.KeyIsLowerName | tools/cemodlib.py:911-912 | the key is the lower-case name exactly when no component was dropped |
| EntryNames.AcceptedKey | tools/cemodlib.py:910-919 | every accepted entry name is its own key up to case |
| Package.CheckEntry | tools/cemodlib.py:910-937 | accepts exactly the entries that are legal on their own |
| Package.EntryExactly | tools/cemodlib.py:910-937 | an entry is admitted exactly when its name is its own key in lower case and allowed, it has no file type or that of a regular file, is not encrypted, is stored or deflated, comes from at least a two-hundredth of its size when it is over 4096 bytes, and yields its size |
| Package.ReadEntries | tools/cemodlib.py:904-939 | the loop with its running counts accepts exactly when all entries are legal, their keys distinct and the three totals within limits |
| Package.EqualNamesNeverReached | tools/cemodlib.py:913-917 | a name that passed the key test is not among the names read before |
| PackageOrder.AdmissionIgnoresOrder | tools/cemodlib.py:904-939 | a sequence of entries is admitted exactly when any permutation of it is, with the same map |
| PackageOrder.ReadingIgnoresOrder | tools/cemodlib.py:892-976 | archives with the same entries in another order are both refused or give the same contents |
| PackageOrder.NamesDistinctUpToCase | tools/cemodlib.py:910-919 | names of one package differ even when case is ignored |
| PackageRead.ReadPackage | tools/cemodlib.py:892-976 | accepts exactly the archives whose entries, manifest, payload, keys and views are legal, and returns them with the inspection report of a WUPS payload |
| PackageRead.VerifySignature | tools/verify_cemod.py:65-84 | accepts exactly unsigned packages and those whose signature verifies over the canonical digest |
| Packager.ReadUi | tools/package_cemod.py:30-59 | accepts exactly a real directory whose paths are directories and legal, distinct, bounded regular files, and returns the files' entries in order |
| Packager.LinksAreRefused | tools/package_cemod.py:27-40 | a UI tree with a symbolic link or a special file in it is refused |
| Packager.Sign | tools/package_cemod.py:62-89 | signs the digest of everything assembled so far and the public key, or rejects |
| Packager.BuildPackage | tools/package_cemod.py:111-178 | accepts exactly the options that agree on a payload format and a way of signing and that ask for something legal, and returns the entries in order |
| Packager.FormatByOptions | tools/package_cemod.py:136-145 | the payload format is the one that every option given allows |
| Packager.SigningByOptions | tools/package_cemod.py:170-181 | signing options conflict exactly when a private key meets detached material or half of the latter is missing |
| PackageThenRead.ReadsWhatWasPackaged | tools/package_cemod.py:162-186 | the reader accepts what the packager assembled, its entries deflated or stored, exactly when the printed manifest still describes it and suffix, manifest size, archive size and compression ratios are within the reader's limits; it returns the payload and entries as assembled and the manifest as printed, which is the given one whenever printing keeps it |
| PackageThenRead.ReadsWhatWasStored | tools/cemodlib.py:923-935 | with all entries stored no ratio test can fail, and the package is read exactly when suffix, sizes and the printed manifest are in order |
| PackageThenRead.UiRulesAgree | tools/package_cemod.py:30-59 | the packager accepts UI files exactly when the reader admits the entries they become |
| PackageThenRead.AcceptedArchive | tools/cemodlib.py:892-939 | every entry of an accepted archive is in the map that is read, and all limits hold of it |
| PackageThenRead.AcceptedContents | tools/cemodlib.py:942-976 | an accepted package has a manifest of at most 256 KiB, just the payload the manifest selects, of at most 64 MiB, both or none of a 32-byte key and a 64-byte signature, and UI entries exactly in version 4, among them every view |
| PackageComplete.ReadIsPackageable | tools/cemodlib.py:892-976 | every package the reader accepts is assembled by the packager for some request, which it accepts exactly when the signature does |
| PackageThenRead.DenseEntryIsRefused | tools/cemodlib.py:932-935 | an entry over 4096 bytes compressed to less than a two-hundredth makes a package unreadable |
| PackageThenRead.SignedDigestIsVerified | tools/package_cemod.py:73-75 | the digest signed before the signature entry exists is the digest of the finished package |
| PackageThenRead.SignedPackageVerifies | tools/verify_cemod.py:65-84 | what the packager signed verifies, and is read exactly under the same conditions |
| PackageThenRead.SignatureExactly | tools/verify_cemod.py:65-84 | a signed package passes exactly when its key accepts its signature over the hash of the canonical stream |
| PackageThenRead.SignatureBinds | tools/verify_cemod.py:65-84 | two packages that pass with the same key and signature are equal, or the lemma returns a collision of the hash, as long as a signature is one of a single digest |
| PackageWitness.OnePageIsRead | tools/package_cemod.py:111-186 | a version-4 package of the suite's ELF image and one page is accepted by the packager and read back |
| PackageWitness.StoredPageIsRead | tests/test_cemod.py:401-408 | the same package with its entries stored is read back |
| PackageWitness.DensePageIsRefused | tools/cemodlib.py:932-935 | the same request with its page of zeros deflated to 24 bytes is accepted by the packager and refused by the reader |
| PackageWitness.LostManifestIsRefused | tools/package_cemod.py:162-164 | the same request with a printed manifest that does not decode is accepted by the packager, within every limit, and refused by the reader |

## Left out

- Error messages and the order in which errors are found: every exception is the one outcome `Rejected`.
- Manifest validation and JSON (`validate_manifest`, `_validate_web_ui`, `_canonical_origin`): a manifest is its version, payload format and view entries, as far as later checks use them; view entries are known to be canonical names below `ui/`.
- DEFLATE, CRC-32, SHA-256, Ed25519 and OpenSSL: parameters of which only the result length of the hash is known.
- The byte layout of ZIP files, temporary files, renames and directory walking: an archive is its sequence of directory entries with their contents.
- The inferred permissions, warnings and other summaries at `tools/cemodlib.py:855-889`: read off the report, nothing else depends on them.
- The `readelf` and `nm` text checks of `verify_elf` after the record loop, and how `argparse` reads the command line.
- Unicode normalisation of entry names at `tools/cemodlib.py:118`: names are ASCII by then and unchanged by it.
- Runtime rules of the design document that have no code here.
- WpsPrinter.PrintedReadsBack: NOBITS sections are printed without a size; `WpsSections.SectionExactly` is about the others.
- WpsFixture.WpsImage: makes the image for metadata, hooks, relocations and exports of at most 4 MiB each; `WpsFixture.FixtureAccepted` is about any printed image.
- PackageThenRead.ReadsWhatWasPackaged: what printing makes of a manifest and what deflating makes of an entry are inputs, since JSON and DEFLATE are not modelled.
- PackageThenRead.SignedPackageVerifies: takes as given that the signature scheme accepts its own signatures.
- PackageThenRead.SignatureBinds: takes as given that no signature is one of two digests.
- Packager.ReadUi: the directory is given as the list of its paths in sorted order; enumerating and sorting them is not modelled.
- ElfFixture.FixtureAccepted: is about less than 2^24 records, symbols and relocations, so that every field of the image fits its 32 bits.
