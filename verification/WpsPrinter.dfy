/** The test suite's printer of WPS images, and the section pass that reads its images back. */
module WpsPrinter {
  import opened Bytes
  import opened Intervals
  import opened SectionHeaders
  import opened WpsSections
  import opened WpsGeometry

  const TABLE_OFFSET: nat := 0x40

  /**
   A section to print: its header words apart from offset, size and entry size, the bytes to store, and the content
   they stand for.
   */
  datatype Spec = Spec(nameOffset: u32, kind: u32, flags: u32, address: u32, link: u32, info: u32,
                       alignment: u32, stored: bytes, data: bytes)

  /** A section that is stored as it is. */
  function Plain(nameOffset: u32, kind: u32, flags: u32, address: u32, link: u32, info: u32, alignment: u32,
                 data: bytes): Spec
  {
    Spec(nameOffset, kind, flags, address, link, info, alignment, data, data)
  }

  /** `(x + 3) & ~3` */
  function Align4(x: nat): (y: nat)
    ensures x <= y < x + 4 && y % 4 == 0
  {
    (x + 3) / 4 * 4
  }

  /** The cursor when the layout loop reaches section `k`. */
  function CursorAt(specs: seq<Spec>, k: nat): nat
    requires k <= |specs|
  {
    if k == 0 then Align4(TABLE_OFFSET + |specs| * 40)
    else Align4(CursorAt(specs, k - 1) + |specs[k - 1].stored|)
  }

  function OffsetOf(specs: seq<Spec>, i: nat): nat
    requires i < |specs|
  {
    if specs[i].stored == [] then 0 else CursorAt(specs, i)
  }

  function EntrySizeOf(kind: u32): u32 {
    if kind == SYMTAB then 16 else if kind == RELA then 12 else 0
  }

  /** The image stays within the payload limit. */
  ghost predicate Fits(specs: seq<Spec>) {
    5 <= |specs| <= MAX_SECTIONS && CursorAt(specs, |specs|) <= MAX_PAYLOAD_BYTES
  }

  lemma {:induction false} CursorGrows(specs: seq<Spec>, j: nat, k: nat)
    requires j <= k <= |specs|
    ensures TABLE_OFFSET + |specs| * 40 <= CursorAt(specs, j) <= CursorAt(specs, k)
    ensures j < k ==> CursorAt(specs, j) + |specs[j].stored| <= CursorAt(specs, k)
    decreases k
  {
    if k > 0 {
      CursorGrows(specs, if j < k then j else k - 1, k - 1);
    }
  }

  function PrintedHeader(specs: seq<Spec>, i: nat): Header
    requires Fits(specs) && i < |specs|
  {
    CursorGrows(specs, i, |specs|);
    var s := specs[i];
    Header(s.nameOffset, s.kind, s.flags, s.address, OffsetOf(specs, i), |s.stored|, s.link, s.info, s.alignment,
           EntrySizeOf(s.kind))
  }

  // ----- writing into the image

  function Splice(image: bytes, at: nat, chunk: bytes): (s: bytes)
    requires at + |chunk| <= |image|
    ensures |s| == |image|
  {
    image[..at] + chunk + image[at + |chunk|..]
  }

  lemma SpliceStands(image: bytes, at: nat, chunk: bytes)
    requires at + |chunk| <= |image|
    ensures Stands(Splice(image, at, chunk), at, chunk)
  {
  }

  lemma SpliceKeeps(image: bytes, at: nat, chunk: bytes, other: nat, kept: bytes)
    requires at + |chunk| <= |image| && Stands(image, other, kept)
    requires other + |kept| <= at || at + |chunk| <= other
    ensures Stands(Splice(image, at, chunk), other, kept)
  {
    var s := Splice(image, at, chunk);
    assert forall p :: other <= p < other + |kept| ==> s[p] == image[p];
    assert s[other..other + |kept|] == image[other..other + |kept|];
  }

  method PutBytes(image: array<byte>, at: nat, chunk: bytes)
    requires at + |chunk| <= image.Length
    modifies image
    ensures image[..] == Splice(old(image[..]), at, chunk)
  {
    for k := 0 to |chunk|
      invariant forall p :: 0 <= p < image.Length ==>
        image[p] == if at <= p < at + k then chunk[p - at] else old(image[p])
    {
      image[at + k] := chunk[k];
    }
  }

  /** The fixed fields of the ELF header, as one chunk for each write. */
  function ElfHeaderChunks(count: u16, nameIndex: u16): seq<(nat, bytes)> {
    [(0, WPS_MAGIC),
     (16, EncodeU16(0xFE01) + EncodeU16(20) + EncodeU32(1)),
     (24, EncodeU32(TEXT_BASE) + EncodeU32(0)),
     (32, EncodeU32(TABLE_OFFSET)),
     (40, EncodeU16(52) + EncodeU16(0) + EncodeU16(0) + EncodeU16(40) + EncodeU16(count) + EncodeU16(nameIndex))]
  }

  ghost predicate ElfHeaderStands(image: bytes, count: u16, nameIndex: u16) {
    var chunks := ElfHeaderChunks(count, nameIndex);
    forall k :: 0 <= k < 5 ==> Stands(image, chunks[k].0, chunks[k].1)
  }

  ghost predicate SectionStands(image: bytes, specs: seq<Spec>, i: nat)
    requires Fits(specs) && i < |specs|
  {
    && Stands(image, TABLE_OFFSET + i * 40, EncodeHeader(PrintedHeader(specs, i)))
    && (specs[i].stored != [] ==> Stands(image, OffsetOf(specs, i), specs[i].stored))
  }

  /** Everything the printer promises about its image. */
  ghost predicate Laid(image: bytes, specs: seq<Spec>, nameIndex: u16)
    requires Fits(specs)
  {
    && |image| == CursorAt(specs, |specs|)
    && ElfHeaderStands(image, |specs|, nameIndex)
    && forall i :: 0 <= i < |specs| ==> SectionStands(image, specs, i)
  }

  /** Writing section `k` keeps the ELF header and the other sections. */
  lemma WriteKeeps(image: bytes, specs: seq<Spec>, nameIndex: u16, k: nat, at: nat, chunk: bytes)
    requires Fits(specs) && k < |specs| && |image| == CursorAt(specs, |specs|)
    requires || (at == TABLE_OFFSET + k * 40 && |chunk| == 40)
             || (at == CursorAt(specs, k) && chunk == specs[k].stored)
    ensures at + |chunk| <= |image|
    ensures ElfHeaderStands(image, |specs|, nameIndex) ==> ElfHeaderStands(Splice(image, at, chunk), |specs|, nameIndex)
    ensures forall i :: 0 <= i < |specs| && i != k && SectionStands(image, specs, i) ==>
              SectionStands(Splice(image, at, chunk), specs, i)
  {
    CursorGrows(specs, k, |specs|);
    CursorGrows(specs, k + 1, |specs|);
    CursorGrows(specs, k, k + 1);
    if ElfHeaderStands(image, |specs|, nameIndex) {
      HeaderChunksKept(image, |specs|, nameIndex, at, chunk);
    }
    forall i | 0 <= i < |specs| && i != k && SectionStands(image, specs, i)
      ensures SectionStands(Splice(image, at, chunk), specs, i)
    {
      SectionKept(image, specs, k, at, chunk, i);
    }
  }

  lemma HeaderChunksKept(image: bytes, count: u16, nameIndex: u16, at: nat, chunk: bytes)
    requires ElfHeaderStands(image, count, nameIndex) && 64 <= at && at + |chunk| <= |image|
    ensures ElfHeaderStands(Splice(image, at, chunk), count, nameIndex)
  {
    hide Splice, Stands;
    var chunks := ElfHeaderChunks(count, nameIndex);
    ChunksBelow64(count, nameIndex);
    forall k | 0 <= k < 5
      ensures Stands(Splice(image, at, chunk), chunks[k].0, chunks[k].1)
    {
      SpliceKeeps(image, at, chunk, chunks[k].0, chunks[k].1);
    }
  }

  lemma ChunksBelow64(count: u16, nameIndex: u16)
    ensures forall k :: 0 <= k < 5 ==>
              ElfHeaderChunks(count, nameIndex)[k].0 + |ElfHeaderChunks(count, nameIndex)[k].1| <= 64
  {
  }

  /** What is written for section `k` lies apart from the header and the content of section `i`. */
  lemma WritesApart(specs: seq<Spec>, k: nat, at: nat, size: nat, i: nat)
    requires k < |specs| && i < |specs| && i != k
    requires (at == TABLE_OFFSET + k * 40 && size == 40) || (at == CursorAt(specs, k) && size == |specs[k].stored|)
    ensures TABLE_OFFSET + i * 40 + 40 <= at || at + size <= TABLE_OFFSET + i * 40
    ensures specs[i].stored != [] ==>
              OffsetOf(specs, i) + |specs[i].stored| <= at || at + size <= OffsetOf(specs, i)
  {
    hide CursorAt;
    if i < k {
      CursorGrows(specs, i, k);
    } else {
      CursorGrows(specs, k, i);
    }
  }

  lemma SectionKept(image: bytes, specs: seq<Spec>, k: nat, at: nat, chunk: bytes, i: nat)
    requires Fits(specs) && k < |specs| && i < |specs| && i != k && at + |chunk| <= |image|
    requires || (at == TABLE_OFFSET + k * 40 && |chunk| == 40)
             || (at == CursorAt(specs, k) && chunk == specs[k].stored)
    requires SectionStands(image, specs, i)
    ensures SectionStands(Splice(image, at, chunk), specs, i)
  {
    hide Splice, Stands, EncodeHeader, PrintedHeader, CursorAt, OffsetOf, Fits;
    WritesApart(specs, k, at, |chunk|, i);
    SpliceKeeps(image, at, chunk, TABLE_OFFSET + i * 40, EncodeHeader(PrintedHeader(specs, i)));
    if specs[i].stored != [] {
      SpliceKeeps(image, at, chunk, OffsetOf(specs, i), specs[i].stored);
    }
  }

  method Offsets(specs: seq<Spec>) returns (offsets: seq<nat>, cursor: nat)
    ensures |offsets| == |specs| && cursor == CursorAt(specs, |specs|)
    ensures forall i :: 0 <= i < |specs| ==> offsets[i] == OffsetOf(specs, i)
  {
    cursor := Align4(TABLE_OFFSET + |specs| * 40);
    offsets := [];
    for k := 0 to |specs|
      invariant cursor == CursorAt(specs, k) && |offsets| == k
      invariant forall i :: 0 <= i < k ==> offsets[i] == OffsetOf(specs, i)
    {
      offsets := offsets + [if specs[k].stored != [] then cursor else 0];
      cursor := Align4(cursor + |specs[k].stored|);
    }
  }

  // ----- the bytes that are never written

  /** `p` is a byte of one of the ELF header fields. */
  predicate InElfHeader(p: int) {
    0 <= p < 11 || 16 <= p < 36 || 40 <= p < 52
  }

  /** `p` is a byte of the header or the content of section `i`. */
  predicate InSection(specs: seq<Spec>, i: nat, p: int)
    requires i < |specs|
  {
    || TABLE_OFFSET + i * 40 <= p < TABLE_OFFSET + i * 40 + 40
    || (specs[i].stored != [] && OffsetOf(specs, i) <= p < OffsetOf(specs, i) + |specs[i].stored|)
  }

  predicate Written(specs: seq<Spec>, p: int) {
    InElfHeader(p) || exists i :: 0 <= i < |specs| && InSection(specs, i, p)
  }

  /** Every byte that belongs to nothing is zero. */
  ghost predicate Padded(image: bytes, specs: seq<Spec>) {
    forall p :: 0 <= p < |image| && !Written(specs, p) ==> image[p] == 0
  }

  lemma SplicePadded(image: bytes, specs: seq<Spec>, at: nat, chunk: bytes)
    requires at + |chunk| <= |image| && Padded(image, specs)
    requires forall p :: at <= p < at + |chunk| ==> Written(specs, p)
    ensures Padded(Splice(image, at, chunk), specs)
  {
    hide Written;
    var s := Splice(image, at, chunk);
    assert forall p :: 0 <= p < |s| && !(at <= p < at + |chunk|) ==> s[p] == image[p];
  }

  lemma SectionPadded(image: bytes, specs: seq<Spec>, i: nat, at: nat, chunk: bytes)
    requires i < |specs| && at + |chunk| <= |image| && Padded(image, specs)
    requires || (at == TABLE_OFFSET + i * 40 && |chunk| == 40)
             || (at == OffsetOf(specs, i) && chunk == specs[i].stored != [])
    ensures Padded(Splice(image, at, chunk), specs)
  {
    hide Padded, Splice, OffsetOf;
    forall p | at <= p < at + |chunk|
      ensures Written(specs, p)
    {
      assert InSection(specs, i, p);
    }
    SplicePadded(image, specs, at, chunk);
  }

  lemma ChunkPadded(image: bytes, specs: seq<Spec>, count: u16, nameIndex: u16, k: nat)
    requires k < 5 && Padded(image, specs)
    requires ElfHeaderChunks(count, nameIndex)[k].0 + |ElfHeaderChunks(count, nameIndex)[k].1| <= |image|
    ensures var (at, chunk) := ElfHeaderChunks(count, nameIndex)[k];
            Padded(Splice(image, at, chunk), specs)
  {
    hide Padded, Splice, InSection;
    var (at, chunk) := ElfHeaderChunks(count, nameIndex)[k];
    assert forall p :: at <= p < at + |chunk| ==> InElfHeader(p);
    SplicePadded(image, specs, at, chunk);
  }

  /** Header fields, sections and padding are all there is: two images printed for the same sections are equal. */
  lemma PrintedUnique(a: bytes, b: bytes, specs: seq<Spec>, nameIndex: u16)
    requires Fits(specs) && Laid(a, specs, nameIndex) && Laid(b, specs, nameIndex)
    requires Padded(a, specs) && Padded(b, specs)
    ensures a == b
  {
    hide CursorAt, OffsetOf, ElfHeaderStands, SectionStands, Written;
    forall p | 0 <= p < |a|
      ensures a[p] == b[p]
    {
      if Written(specs, p) {
        WrittenDetermined(a, b, specs, nameIndex, p);
      }
    }
  }

  lemma SameStands(a: bytes, b: bytes, at: nat, chunk: bytes, p: nat)
    requires Stands(a, at, chunk) && Stands(b, at, chunk) && at <= p < at + |chunk|
    ensures p < |a| && p < |b| && a[p] == b[p]
  {
    assert a[p] == a[at..at + |chunk|][p - at] && b[p] == b[at..at + |chunk|][p - at];
  }

  lemma WrittenDetermined(a: bytes, b: bytes, specs: seq<Spec>, nameIndex: u16, p: nat)
    requires Fits(specs) && Laid(a, specs, nameIndex) && Laid(b, specs, nameIndex) && Written(specs, p)
    ensures p < |a| && p < |b| && a[p] == b[p]
  {
    hide CursorAt, OffsetOf, Stands, EncodeHeader, PrintedHeader, ElfHeaderChunks;
    if InElfHeader(p) {
      var k := HeaderChunkOf(|specs|, nameIndex, p);
      var (at, chunk) := ElfHeaderChunks(|specs|, nameIndex)[k];
      SameStands(a, b, at, chunk, p);
    } else {
      var i :| 0 <= i < |specs| && InSection(specs, i, p);
      assert SectionStands(a, specs, i) && SectionStands(b, specs, i);
      if TABLE_OFFSET + i * 40 <= p < TABLE_OFFSET + i * 40 + 40 {
        SameStands(a, b, TABLE_OFFSET + i * 40, EncodeHeader(PrintedHeader(specs, i)), p);
      } else {
        SameStands(a, b, OffsetOf(specs, i), specs[i].stored, p);
      }
    }
  }

  lemma HeaderChunkOf(count: u16, nameIndex: u16, p: nat) returns (k: nat)
    requires InElfHeader(p)
    ensures k < 5 == |ElfHeaderChunks(count, nameIndex)|
    ensures var (at, chunk) := ElfHeaderChunks(count, nameIndex)[k];
            at <= p < at + |chunk|
  {
    k := if p < 11 then 0 else if p < 24 then 1 else if p < 32 then 2 else if p < 36 then 3 else 4;
  }

  // ----- the printer

  method PutElfHeader(image: array<byte>, count: u16, nameIndex: u16, ghost specs: seq<Spec>)
    requires image.Length >= 64 && Padded(image[..], specs)
    modifies image
    ensures ElfHeaderStands(image[..], count, nameIndex) && Padded(image[..], specs)
  {
    ChunksBelow64(count, nameIndex);
    ChunksInOrder(count, nameIndex);
    hide Stands, Splice, ElfHeaderChunks, Padded;
    ghost var chunks := ElfHeaderChunks(count, nameIndex);
    for k := 0 to 5
      invariant forall j :: 0 <= j < k ==> Stands(image[..], chunks[j].0, chunks[j].1)
      invariant Padded(image[..], specs)
    {
      var (at, chunk) := ElfHeaderChunks(count, nameIndex)[k];
      ghost var before := image[..];
      PutBytes(image, at, chunk);
      SpliceStands(before, at, chunk);
      ChunkPadded(before, specs, count, nameIndex, k);
      forall j | 0 <= j < k
        ensures Stands(image[..], chunks[j].0, chunks[j].1)
      {
        SpliceKeeps(before, at, chunk, chunks[j].0, chunks[j].1);
      }
    }
  }

  lemma ChunksInOrder(count: u16, nameIndex: u16)
    ensures var chunks := ElfHeaderChunks(count, nameIndex);
            |chunks| == 5 && forall j, k :: 0 <= j < k < 5 ==> chunks[j].0 + |chunks[j].1| <= chunks[k].0
  {
  }

  /** The layout loop and the writes into a zeroed buffer. */
  method PrintWps(specs: seq<Spec>, nameIndex: u16) returns (result: bytes)
    requires Fits(specs)
    ensures Laid(result, specs, nameIndex) && Padded(result, specs)
  {
    hide ElfHeaderStands, SectionStands, Splice, EncodeHeader, CursorAt, PrintedHeader, OffsetOf, Written;
    var offsets, cursor := Offsets(specs);
    CursorGrows(specs, 0, |specs|);
    var image := new byte[cursor](i => 0);
    PutElfHeader(image, |specs|, nameIndex, specs);
    hide Padded;
    for k := 0 to |specs|
      invariant ElfHeaderStands(image[..], |specs|, nameIndex)
      invariant forall i :: 0 <= i < k ==> SectionStands(image[..], specs, i)
      invariant Padded(image[..], specs)
    {
      ghost var before := image[..];
      var header := EncodeHeader(PrintedHeader(specs, k));
      WriteKeeps(before, specs, nameIndex, k, TABLE_OFFSET + k * 40, header);
      PutBytes(image, TABLE_OFFSET + k * 40, header);
      ghost var between := image[..];
      SpliceStands(before, TABLE_OFFSET + k * 40, header);
      SectionPadded(before, specs, k, TABLE_OFFSET + k * 40, header);
      if specs[k].stored != [] {
        NonEmptyOffset(specs, k);
        WriteKeeps(between, specs, nameIndex, k, offsets[k], specs[k].stored);
        SectionPadded(between, specs, k, offsets[k], specs[k].stored);
        PutBytes(image, offsets[k], specs[k].stored);
      }
      SectionWritten(between, image[..], specs, k);
    }
    result := image[..];
  }

  lemma NonEmptyOffset(specs: seq<Spec>, k: nat)
    requires k < |specs| && specs[k].stored != []
    ensures OffsetOf(specs, k) == CursorAt(specs, k)
  {
  }

  lemma SectionWritten(between: bytes, after: bytes, specs: seq<Spec>, k: nat)
    requires Fits(specs) && k < |specs| && |between| == CursorAt(specs, |specs|)
    requires Stands(between, TABLE_OFFSET + k * 40, EncodeHeader(PrintedHeader(specs, k)))
    requires specs[k].stored != [] ==> OffsetOf(specs, k) + |specs[k].stored| <= |between|
    requires after == if specs[k].stored == [] then between else Splice(between, OffsetOf(specs, k), specs[k].stored)
    ensures SectionStands(after, specs, k)
  {
    CursorGrows(specs, k, |specs|);
    hide Splice, Stands, EncodeHeader, PrintedHeader, CursorAt;
    if specs[k].stored != [] {
      NonEmptyOffset(specs, k);
      SpliceStands(between, OffsetOf(specs, k), specs[k].stored);
      SpliceKeeps(between, OffsetOf(specs, k), specs[k].stored, TABLE_OFFSET + k * 40,
                  EncodeHeader(PrintedHeader(specs, k)));
    }
  }

  // ----- reading the image back

  lemma ElfHeaderWords(count: u16, nameIndex: u16)
    ensures var c := ElfHeaderChunks(count, nameIndex);
            && c[0].1 == WPS_MAGIC && |WPS_MAGIC| == 11
            && |c[1].1| == 8 && c[1].1[0..2] == EncodeU16(0xFE01) && c[1].1[2..4] == EncodeU16(20)
            && c[1].1[4..8] == EncodeU32(1)
            && |c[2].1| == 8 && c[2].1[4..8] == EncodeU32(0)
            && |c[3].1| == 4 && c[3].1[0..4] == EncodeU32(TABLE_OFFSET)
            && |c[4].1| == 12 && c[4].1[0..2] == EncodeU16(52) && c[4].1[4..6] == EncodeU16(0)
            && c[4].1[6..8] == EncodeU16(40) && c[4].1[8..10] == EncodeU16(count)
            && c[4].1[10..12] == EncodeU16(nameIndex)
  {
    hide EncodeU16, EncodeU32;
  }

  lemma ChunksStand(image: bytes, specs: seq<Spec>, nameIndex: u16)
    requires Fits(specs) && nameIndex < |specs| && Laid(image, specs, nameIndex)
    ensures var c := ElfHeaderChunks(|specs|, nameIndex);
            && |c| == 5
            && c[0].0 == 0 && c[1].0 == 16 && c[2].0 == 24 && c[3].0 == 32 && c[4].0 == 40
            && Stands(image, 16, c[1].1) && Stands(image, 24, c[2].1) && Stands(image, 32, c[3].1)
            && Stands(image, 40, c[4].1) && |image| >= 52 && image[..11] == WPS_MAGIC
  {
    hide CursorAt, SectionStands;
    var c := ElfHeaderChunks(|specs|, nameIndex);
    assert Stands(image, c[0].0, c[0].1) && Stands(image, c[1].0, c[1].1) && Stands(image, c[2].0, c[2].1);
    assert Stands(image, c[3].0, c[3].1) && Stands(image, c[4].0, c[4].1);
  }

  lemma TableReadsBack(image: bytes, specs: seq<Spec>, nameIndex: u16)
    requires Fits(specs) && nameIndex < |specs| && Laid(image, specs, nameIndex)
    ensures ReadTable(image) == Some(Table(TABLE_OFFSET, |specs|, nameIndex))
  {
    var c := ElfHeaderChunks(|specs|, nameIndex);
    ChunksStand(image, specs, nameIndex);
    CursorGrows(specs, 0, |specs|);
    hide ElfHeaderChunks, EncodeU16, EncodeU32, U16, U32, Laid, CursorAt, WPS_MAGIC;
    ElfHeaderWords(|specs|, nameIndex);
    ReadHalf(image, 16, c[1].1, 0, 0xFE01);
    ReadHalf(image, 16, c[1].1, 2, 20);
    ReadWord(image, 16, c[1].1, 4, 1);
    ReadWord(image, 24, c[2].1, 4, 0);
    ReadWord(image, 32, c[3].1, 0, TABLE_OFFSET);
    ReadHalf(image, 40, c[4].1, 0, 52);
    ReadHalf(image, 40, c[4].1, 4, 0);
    ReadHalf(image, 40, c[4].1, 6, 40);
    ReadHalf(image, 40, c[4].1, 8, |specs|);
    ReadHalf(image, 40, c[4].1, 10, nameIndex);
  }

  /**
   What the section pass asks of a section: stored as it is or, when it is flagged so, as a stream of exactly its
   content.
   */
  predicate SpecLegal(s: Spec, zlib: Zlib) {
    && PrintedPlacement(s)
    && if AnyBit(s.flags, COMPRESSED) then s.kind != NOBITS && Deflates(s.stored, s.data, zlib)
       else s.stored == s.data && (s.kind == NOBITS ==> s.data == [])
  }

  predicate PrintedPlacement(s: Spec) {
    && AlignmentLegal(s.alignment)
    && !(AnyBit(s.flags, WRITE) && AnyBit(s.flags, EXEC))
    && (AnyBit(s.flags, ALLOC) && s.alignment != 0 ==> BitAnd(s.address, s.alignment - 1) == 0)
  }

  ghost predicate SpecsLegal(specs: seq<Spec>, zlib: Zlib) {
    && specs != [] && specs[0].kind == 0 && specs[0].stored == []
    && forall i :: 0 <= i < |specs| ==> SpecLegal(specs[i], zlib)
  }

  /** Section `i` of the image is accepted and is what was printed. */
  ghost predicate ReadsBack(image: bytes, table: Table, specs: seq<Spec>, i: nat, zlib: Zlib)
    requires Fits(specs) && TableFits(image, table) && table.count == |specs| && i < |specs|
  {
    && HeaderOf(image, table, i) == PrintedHeader(specs, i)
    && SectionLegal(image, table, i, zlib)
    && SectionAt(image, table, i, zlib) == Section(i, PrintedHeader(specs, i), |specs[i].data|, specs[i].data)
  }

  lemma SectionReadsBack(image: bytes, specs: seq<Spec>, nameIndex: u16, zlib: Zlib, i: nat)
    requires Fits(specs) && SpecsLegal(specs, zlib) && Laid(image, specs, nameIndex) && i < |specs|
    ensures var table := Table(TABLE_OFFSET, |specs|, nameIndex);
            TableFits(image, table) && ReadsBack(image, table, specs, i, zlib)
  {
    hide PrintedHeader, EncodeHeader, ElfHeaderStands, SectionStands, SpecLegal, ReadsBack;
    CursorGrows(specs, i, |specs|);
    StandsReadsBack(image, Table(TABLE_OFFSET, |specs|, nameIndex), specs, i, zlib);
  }

  lemma StandsReadsBack(image: bytes, table: Table, specs: seq<Spec>, i: nat, zlib: Zlib)
    requires Fits(specs) && TableFits(image, table) && table.offset == TABLE_OFFSET && table.count == |specs|
    requires i < |specs| && SectionStands(image, specs, i) && SpecLegal(specs[i], zlib)
    requires i == 0 ==> specs[0].kind == 0 && specs[0].stored == []
    ensures ReadsBack(image, table, specs, i, zlib)
  {
    hide Fits, CursorAt, EncodeHeader, HeaderAt, SpecLegal, SectionLegal, SectionAt, Stands;
    CursorGrows(specs, i, |specs|);
    HeaderReadsBack(image, TABLE_OFFSET + i * 40, PrintedHeader(specs, i));
    PrintedIsLegal(image, table, specs[i], PrintedHeader(specs, i), i, zlib);
  }

  /** A header over stored bytes that stand outside the tables is accepted, and yields their content. */
  lemma PrintedIsLegal(image: bytes, table: Table, s: Spec, h: Header, i: nat, zlib: Zlib)
    requires TableFits(image, table) && i < table.count && HeaderOf(image, table, i) == h
    requires SpecLegal(s, zlib) && (i == 0 ==> s.kind == 0 && s.stored == [])
    requires h.kind == s.kind && h.flags == s.flags && h.address == s.address && h.alignment == s.alignment
    requires h.storedSize == |s.stored| && (s.stored == [] ==> h.fileOffset == 0)
    requires s.stored != [] ==>
               Stands(image, h.fileOffset, s.stored) && h.fileOffset >= 52 && h.fileOffset >= table.Extent().End()
    ensures SectionLegal(image, table, i, zlib)
    ensures SectionAt(image, table, i, zlib) == Section(i, h, |s.data|, s.data)
  {
    InflatedExactly(s.stored, s.data, zlib);
    hide HeaderOf, AnyBit, AlignmentLegal, BitAnd, Inflated, Deflates;
    if s.stored != [] {
      assert image[h.fileOffset..h.fileOffset + h.storedSize] == s.stored;
    }
  }

  function DataSizes(specs: seq<Spec>): (xs: seq<nat>)
    ensures |xs| == |specs|
  {
    seq(|specs|, i requires 0 <= i < |specs| => |specs[i].data|)
  }

  /** Nothing is compressed. */
  ghost predicate AllPlain(specs: seq<Spec>) {
    forall i :: 0 <= i < |specs| ==> specs[i].stored == specs[i].data
  }

  lemma {:induction false} DataBelowCursor(specs: seq<Spec>, k: nat)
    requires k <= |specs| && AllPlain(specs)
    ensures Sum(DataSizes(specs)[..k]) <= CursorAt(specs, k)
  {
    if k > 0 {
      DataBelowCursor(specs, k - 1);
      assert DataSizes(specs)[..k][..k - 1] == DataSizes(specs)[..k - 1];
    }
  }

  /** Contents that are stored as they are stay below the limit for expanded contents. */
  lemma PlainFits(specs: seq<Spec>)
    requires Fits(specs) && AllPlain(specs)
    ensures Sum(DataSizes(specs)) <= MAX_EXPANDED_BYTES
  {
    DataBelowCursor(specs, |specs|);
    assert DataSizes(specs)[..|specs|] == DataSizes(specs);
  }

  lemma PrintedApart(image: bytes, specs: seq<Spec>, nameIndex: u16, zlib: Zlib)
    requires Fits(specs) && SpecsLegal(specs, zlib) && Laid(image, specs, nameIndex)
    ensures TableFits(image, Table(TABLE_OFFSET, |specs|, nameIndex))
    ensures Disjoint(StoredRanges(image, Table(TABLE_OFFSET, |specs|, nameIndex)))
  {
    var table := Table(TABLE_OFFSET, |specs|, nameIndex);
    SectionReadsBack(image, specs, nameIndex, zlib, 0);
    var rs := StoredRanges(image, table);
    forall i | 0 <= i < |specs|
      ensures rs[i] == StoredRange(PrintedHeader(specs, i))
    {
      SectionReadsBack(image, specs, nameIndex, zlib, i);
    }
    hide HeaderOf, SectionLegal, SectionAt, Laid, StoredRanges, SpecsLegal;
    forall i, j | 0 <= i < j < |specs| && rs[i].size > 0 && rs[j].size > 0
      ensures !Overlap(rs[i], rs[j])
    {
      CursorGrows(specs, i, j);
      NonEmptyOffset(specs, i);
      NonEmptyOffset(specs, j);
    }
  }

  /**
   Any legal list of sections, stored or compressed, is printed into an image whose section pass reads every header
   and content back, and accepts exactly when the contents together are within the limit.
   */
  lemma PrintedReadsBack(image: bytes, specs: seq<Spec>, nameIndex: u16, zlib: Zlib)
    requires Fits(specs) && SpecsLegal(specs, zlib) && nameIndex < |specs| && Laid(image, specs, nameIndex)
    ensures var table := Table(TABLE_OFFSET, |specs|, nameIndex);
            && ReadTable(image) == Some(table) && AllLegal(image, table, zlib)
            && (SectionPassAccepts(image, table, zlib) <==> Sum(DataSizes(specs)) <= MAX_EXPANDED_BYTES)
            && forall i :: 0 <= i < |specs| ==>
                 Sections(image, table, zlib)[i]
                 == Section(i, PrintedHeader(specs, i), |specs[i].data|, specs[i].data)
  {
    TableReadsBack(image, specs, nameIndex);
    SectionsReadBack(image, specs, nameIndex, zlib);
    PrintedApart(image, specs, nameIndex, zlib);
    hide Laid, SpecsLegal, PrintedHeader, StoredRanges, Disjoint, ReadTable, Sum, CursorAt, DataSizes, AllLegal,
      Sections, ExpandedSizes;
    SameSizes(Sections(image, Table(TABLE_OFFSET, |specs|, nameIndex), zlib), specs);
  }

  lemma SectionsReadBack(image: bytes, specs: seq<Spec>, nameIndex: u16, zlib: Zlib)
    requires Fits(specs) && SpecsLegal(specs, zlib) && Laid(image, specs, nameIndex)
    ensures var table := Table(TABLE_OFFSET, |specs|, nameIndex);
            && TableFits(image, table) && AllLegal(image, table, zlib)
            && forall i :: 0 <= i < |specs| ==>
                 Sections(image, table, zlib)[i]
                 == Section(i, PrintedHeader(specs, i), |specs[i].data|, specs[i].data)
  {
    var table := Table(TABLE_OFFSET, |specs|, nameIndex);
    SectionReadsBack(image, specs, nameIndex, zlib, 0);
    hide SectionLegal, SectionAt, Laid, SpecsLegal, PrintedHeader, Fits, HeaderOf, ReadsBack;
    forall i | 0 <= i < |specs|
      ensures SectionLegal(image, table, i, zlib)
      ensures SectionAt(image, table, i, zlib) == Section(i, PrintedHeader(specs, i), |specs[i].data|, specs[i].data)
    {
      SectionReadsBack(image, specs, nameIndex, zlib, i);
      ReadsBackMeans(image, table, specs, i, zlib);
    }
  }

  lemma ReadsBackMeans(image: bytes, table: Table, specs: seq<Spec>, i: nat, zlib: Zlib)
    requires Fits(specs) && TableFits(image, table) && table.count == |specs| && i < |specs|
    requires ReadsBack(image, table, specs, i, zlib)
    ensures SectionLegal(image, table, i, zlib)
    ensures SectionAt(image, table, i, zlib) == Section(i, PrintedHeader(specs, i), |specs[i].data|, specs[i].data)
  {
  }

  lemma SameSizes(ss: seq<Section>, specs: seq<Spec>)
    requires |ss| == |specs| && forall i :: 0 <= i < |ss| ==> ss[i].expandedSize == |specs[i].data|
    ensures ExpandedSizes(ss) == DataSizes(specs)
  {
  }

  lemma StoredIsThere(image: bytes, specs: seq<Spec>, i: nat)
    requires Fits(specs) && |image| == CursorAt(specs, |specs|) && i < |specs| && SectionStands(image, specs, i)
    ensures TABLE_OFFSET + 40 * |specs| <= |image|
    ensures HeaderAt(image, TABLE_OFFSET + i * 40) == PrintedHeader(specs, i)
    ensures PrintedHeader(specs, i).flags == specs[i].flags
    ensures Stands(image, PrintedHeader(specs, i).fileOffset, specs[i].stored)
    ensures PrintedHeader(specs, i).storedSize == |specs[i].stored|
  {
    hide CursorAt, EncodeHeader, HeaderAt;
    CursorGrows(specs, i, |specs|);
    HeaderReadsBack(image, TABLE_OFFSET + i * 40, PrintedHeader(specs, i));
    if specs[i].stored == [] {
      assert image[0..0] == [];
    }
  }

  lemma NoContent(image: bytes, table: Table, h: Header, stored: bytes, i: nat, zlib: Zlib)
    requires TableFits(image, table) && i < table.count && h == HeaderAt(image, table.offset + i * 40)
    requires h.flags / 0x0800_0000 % 2 == 1 && Stands(image, h.fileOffset, stored) && h.storedSize == |stored|
    requires !Inflatable(stored, zlib)
    ensures !SectionPassAccepts(image, table, zlib)
  {
    hide SectionLegal, SectionAt, WellPlaced, Deflates, HeaderAt, StoredRanges, Disjoint, ExpandedSizes, Sections;
    if SectionLegal(image, table, i, zlib) {
      SectionExactly(image, table, i, zlib, SectionAt(image, table, i, zlib));
    }
  }

  /** A printed section with the compression flag is refused when its bytes do not stand for any content. */
  lemma BadStreamIsRefused(image: bytes, specs: seq<Spec>, nameIndex: u16, zlib: Zlib, i: nat)
    requires Fits(specs) && Laid(image, specs, nameIndex) && i < |specs|
    requires specs[i].flags / 0x0800_0000 % 2 == 1 && !Inflatable(specs[i].stored, zlib)
    ensures var table := Table(TABLE_OFFSET, |specs|, nameIndex);
            TableFits(image, table) && !SectionPassAccepts(image, table, zlib)
  {
    hide Stands, CursorAt, HeaderAt, Inflatable, SectionPassAccepts, Fits, SectionStands, PrintedHeader,
      ElfHeaderStands;
    StoredIsThere(image, specs, i);
    NoContent(image, Table(TABLE_OFFSET, |specs|, nameIndex), PrintedHeader(specs, i), specs[i].stored, i, zlib);
  }

  // ----- the CRC table

  /** One CRC for each content, zero in the place of the table itself. */
  function CrcTable(datas: seq<bytes>, crcIndex: nat, zlib: Zlib): (table: bytes)
    ensures |table| == 4 * |datas|
  {
    if datas == [] then []
    else
      var k := |datas| - 1;
      CrcTable(datas[..k], crcIndex, zlib) + EncodeU32(if k == crcIndex then 0 else zlib.crc32(datas[k]))
  }

  lemma {:induction false} CrcTableAt(datas: seq<bytes>, crcIndex: nat, zlib: Zlib, i: nat)
    requires i < |datas| && i != crcIndex
    ensures U32(CrcTable(datas, crcIndex, zlib), i * 4) == zlib.crc32(datas[i])
  {
    var k := |datas| - 1;
    var table := CrcTable(datas, crcIndex, zlib);
    var front := CrcTable(datas[..k], crcIndex, zlib);
    hide EncodeU32;
    if i == k {
      assert table[i * 4..i * 4 + 4] == EncodeU32(zlib.crc32(datas[i]));
      DecodeEncodeU32(zlib.crc32(datas[i]), table, i * 4);
    } else {
      CrcTableAt(datas[..k], crcIndex, zlib, i);
      assert forall p :: 0 <= p < |front| ==> table[p] == front[p];
    }
  }

  lemma PrintedKind(specs: seq<Spec>, i: nat)
    requires Fits(specs) && i < |specs|
    ensures PrintedHeader(specs, i).kind == specs[i].kind
  {
  }

  /** The printed CRC table passes the CRC check of the printed sections. */
  lemma PrintedCrcsPass(image: bytes, specs: seq<Spec>, nameIndex: u16, zlib: Zlib, datas: seq<bytes>)
    requires Fits(specs) && SpecsLegal(specs, zlib) && nameIndex < |specs| && Laid(image, specs, nameIndex)
    requires Sum(DataSizes(specs)) <= MAX_EXPANDED_BYTES
    requires var crcIndex := |specs| - 2;
             && specs[crcIndex].kind == RPL_CRCS
             && |datas| == |specs| && (forall i :: 0 <= i < |specs| && i != crcIndex ==> datas[i] == specs[i].data)
             && specs[crcIndex].data == CrcTable(datas, crcIndex, zlib)
    ensures var table := Table(TABLE_OFFSET, |specs|, nameIndex);
            && TableFits(image, table) && SectionPassAccepts(image, table, zlib)
            && CrcsAccept(Sections(image, table, zlib), specs[|specs| - 2].data, zlib)
  {
    hide SectionPassAccepts, Sections, Laid, SpecsLegal, CrcTable, U32, SectionLegal, PrintedHeader, AllLegal, Fits,
      CrcExempt, ReadTable, Sum, DataSizes;
    PrintedReadsBack(image, specs, nameIndex, zlib);
    var table := Table(TABLE_OFFSET, |specs|, nameIndex);
    var ss := Sections(image, table, zlib);
    forall i | 0 <= i < |specs| && !CrcExempt(ss[i])
      ensures U32(specs[|specs| - 2].data, i * 4) == zlib.crc32(ss[i].data)
    {
      PrintedKind(specs, i);
      NotExempt(ss[i]);
      CrcTableAt(datas, |specs| - 2, zlib, i);
    }
  }

  lemma NotExempt(s: Section)
    requires !CrcExempt(s)
    ensures s.header.kind != RPL_CRCS
  {
  }
}
