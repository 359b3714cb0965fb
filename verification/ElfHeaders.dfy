/** The ELF32 header by its fields: printed, and exactly which headers each reader accepts. */
module ElfHeaders {
  import opened Bytes
  import WpsSections
  import ElfValidate
  import Normalize

  type Ident = s: bytes | |s| == 16 witness [0, 0, 0, 0, 0, 0, 0, 0, 0, 0, 0, 0, 0, 0, 0, 0]

  datatype ElfHeader = ElfHeader(ident: Ident, fileType: u16, machine: u16, version: u32, entry: u32,
                                 programOffset: u32, sectionOffset: u32, flags: u32, headerSize: u16,
                                 programSize: u16, programCount: u16, sectionSize: u16, sectionCount: u16,
                                 namesIndex: u16)

  /** File type to flags. */
  function EncodeFront(h: ElfHeader): (s: bytes)
    ensures |s| == 24
  {
    EncodeU16(h.fileType) + EncodeU16(h.machine) + EncodeU32(h.version) + EncodeU32(h.entry)
    + EncodeU32(h.programOffset) + EncodeU32(h.sectionOffset) + EncodeU32(h.flags)
  }

  /** The six 16-bit fields at the end. */
  function EncodeBack(h: ElfHeader): (s: bytes)
    ensures |s| == 12
  {
    EncodeU16(h.headerSize) + EncodeU16(h.programSize) + EncodeU16(h.programCount) + EncodeU16(h.sectionSize)
    + EncodeU16(h.sectionCount) + EncodeU16(h.namesIndex)
  }

  function EncodeElfHeader(h: ElfHeader): (s: bytes)
    ensures |s| == 52
  {
    h.ident + EncodeFront(h) + EncodeBack(h)
  }

  lemma FrontFields(h: ElfHeader)
    ensures var s := EncodeFront(h);
            && s[0..2] == EncodeU16(h.fileType) && s[2..4] == EncodeU16(h.machine) && s[4..8] == EncodeU32(h.version)
            && s[12..16] == EncodeU32(h.programOffset) && s[16..20] == EncodeU32(h.sectionOffset)
  {
    hide EncodeU16, EncodeU32;
  }

  lemma BackFields(h: ElfHeader)
    ensures var s := EncodeBack(h);
            && s[0..2] == EncodeU16(h.headerSize) && s[2..4] == EncodeU16(h.programSize)
            && s[4..6] == EncodeU16(h.programCount) && s[6..8] == EncodeU16(h.sectionSize)
            && s[8..10] == EncodeU16(h.sectionCount) && s[10..12] == EncodeU16(h.namesIndex)
  {
    hide EncodeU16;
  }

  /** The image begins with this header. */
  ghost predicate Begins(image: bytes, h: ElfHeader) {
    Stands(image, 0, EncodeElfHeader(h))
  }

  lemma PartsStand(image: bytes, h: ElfHeader)
    requires Begins(image, h)
    ensures |image| >= 52 && image[..16] == h.ident
    ensures Stands(image, 16, EncodeFront(h)) && Stands(image, 40, EncodeBack(h))
  {
    hide EncodeFront, EncodeBack;
    var s := EncodeElfHeader(h);
    assert forall p :: 0 <= p < 52 ==> image[p] == image[0..52][p] == s[p];
    assert image[..16] == h.ident;
    assert image[16..40] == EncodeFront(h);
    assert image[40..52] == EncodeBack(h);
  }

  lemma IdentRead(image: bytes, h: ElfHeader, k: nat)
    requires Begins(image, h) && k <= 16
    ensures |image| >= 52 && image[..k] == h.ident[..k]
  {
    hide Begins;
    PartsStand(image, h);
    assert image[..k] == image[..16][..k];
  }

  lemma HeaderRead(image: bytes, h: ElfHeader)
    requires Begins(image, h)
    ensures |image| >= 52
    ensures U16(image, 16) == h.fileType && U16(image, 18) == h.machine && U32(image, 20) == h.version
    ensures U32(image, 28) == h.programOffset && U32(image, 32) == h.sectionOffset
    ensures U16(image, 40) == h.headerSize && U16(image, 42) == h.programSize && U16(image, 44) == h.programCount
    ensures U16(image, 46) == h.sectionSize && U16(image, 48) == h.sectionCount && U16(image, 50) == h.namesIndex
  {
    hide Begins, Stands, EncodeFront, EncodeBack, EncodeU16, EncodeU32, U16, U32;
    PartsStand(image, h);
    FrontFields(h);
    BackFields(h);
    var front, back := EncodeFront(h), EncodeBack(h);
    ReadHalf(image, 16, front, 0, h.fileType);
    ReadHalf(image, 16, front, 2, h.machine);
    ReadWord(image, 16, front, 4, h.version);
    ReadWord(image, 16, front, 12, h.programOffset);
    ReadWord(image, 16, front, 16, h.sectionOffset);
    ReadHalf(image, 40, back, 0, h.headerSize);
    ReadHalf(image, 40, back, 2, h.programSize);
    ReadHalf(image, 40, back, 4, h.programCount);
    ReadHalf(image, 40, back, 6, h.sectionSize);
    ReadHalf(image, 40, back, 8, h.sectionCount);
    ReadHalf(image, 40, back, 10, h.namesIndex);
  }

  /** The header that a file begins with. */
  function HeaderIn(image: bytes): ElfHeader
    requires |image| >= 52
  {
    ElfHeader(image[..16], U16(image, 16), U16(image, 18), U32(image, 20), U32(image, 24), U32(image, 28),
              U32(image, 32), U32(image, 36), U16(image, 40), U16(image, 42), U16(image, 44), U16(image, 46),
              U16(image, 48), U16(image, 50))
  }

  lemma FrontIs(image: bytes)
    requires |image| >= 52
    ensures EncodeFront(HeaderIn(image)) == image[16..40]
  {
    hide EncodeU16, EncodeU32, U16, U32;
    EncodeDecodeU16(image, 16);
    EncodeDecodeU16(image, 18);
    EncodeDecodeU32(image, 20);
    EncodeDecodeU32(image, 24);
    EncodeDecodeU32(image, 28);
    EncodeDecodeU32(image, 32);
    EncodeDecodeU32(image, 36);
    FrontJoins(image);
  }

  lemma BackIs(image: bytes)
    requires |image| >= 52
    ensures EncodeBack(HeaderIn(image)) == image[40..52]
  {
    hide EncodeU16, EncodeU32, U16, U32;
    EncodeDecodeU16(image, 40);
    EncodeDecodeU16(image, 42);
    EncodeDecodeU16(image, 44);
    EncodeDecodeU16(image, 46);
    EncodeDecodeU16(image, 48);
    EncodeDecodeU16(image, 50);
    BackJoins(image);
  }

  /** Every file of at least 52 bytes begins with some header. */
  lemma HeaderExists(image: bytes)
    requires |image| >= 52
    ensures Begins(image, HeaderIn(image))
  {
    hide EncodeFront, EncodeBack, U16, U32;
    FrontIs(image);
    BackIs(image);
    assert image[0..52] == image[..16] + image[16..40] + image[40..52];
  }

  lemma FrontJoins(image: bytes)
    requires |image| >= 52
    ensures image[16..40] == image[16..18] + image[18..20] + image[20..24] + image[24..28] + image[28..32]
                             + image[32..36] + image[36..40]
  {
  }

  lemma BackJoins(image: bytes)
    requires |image| >= 52
    ensures image[40..52] == image[40..42] + image[42..44] + image[44..46] + image[46..48] + image[48..50]
                             + image[50..52]
  {
  }

  // ----- the three readers

  /** A WPS image: a big-endian 32-bit Cafe OS RPL without program headers, and 5 to 512 section headers in the file. */
  predicate IsWps(h: ElfHeader, size: nat) {
    && size <= 64 * 1024 * 1024
    && h.ident[..11] == [0x7F, 0x45, 0x4C, 0x46, 1, 2, 1, 0xCA, 0xFE, 0x50, 0x4C]
    && h.fileType == 0xFE01 && h.machine == 20 && h.version == 1 && h.headerSize == 52
    && h.programOffset == 0 && h.programCount == 0
    && h.sectionSize == 40 && 5 <= h.sectionCount <= 512 && h.namesIndex < h.sectionCount
    && h.sectionOffset + 40 * h.sectionCount <= size
  }

  /** `inspect_wups` goes on exactly with these headers, and with the section table they name. */
  lemma WpsHeaderExactly(image: bytes, h: ElfHeader)
    requires Begins(image, h)
    ensures WpsSections.ReadTable(image) ==
              if IsWps(h, |image|) then Some(WpsSections.Table(h.sectionOffset, h.sectionCount, h.namesIndex)) else None
  {
    hide Begins, U16, U32;
    HeaderRead(image, h);
    IdentRead(image, h, 11);
  }

  /** A big-endian 32-bit PowerPC shared object. */
  predicate IsPowerPc(h: ElfHeader) {
    h.ident[..7] == [0x7F, 0x45, 0x4C, 0x46, 1, 2, 1] && h.fileType == 3 && h.machine == 20 && h.version == 1
  }

  /** Both tables in the file, with entries of at least 32 and 40 bytes, and names in one of the sections. */
  predicate HasTables(h: ElfHeader, size: nat) {
    && h.programSize >= 32 && 1 <= h.programCount <= 128
    && h.programOffset + h.programSize * h.programCount <= size
    && h.sectionSize >= 40 && 1 <= h.sectionCount <= 1024 && h.namesIndex < h.sectionCount
    && h.sectionOffset + h.sectionSize * h.sectionCount <= size
  }

  /** `validate_elf` goes on exactly with these headers, and reads the tables they name. */
  lemma ElfHeaderExactly(elf: bytes, h: ElfHeader)
    requires Begins(elf, h)
    ensures ElfValidate.IsPowerPcElf(elf) <==> IsPowerPc(h)
    ensures |elf| >= 52
    ensures ElfValidate.TablesOf(elf) ==
              ElfValidate.Tables(h.programOffset, h.programSize, h.programCount,
                                 h.sectionOffset, h.sectionSize, h.sectionCount, h.namesIndex)
    ensures ElfValidate.TablesLegal(elf, ElfValidate.TablesOf(elf)) <==> HasTables(h, |elf|)
  {
    hide Begins, U16, U32;
    HeaderRead(elf, h);
    IdentRead(elf, h, 7);
  }

  /** `normalize` asks only for the first seven bytes and a section table in the file. */
  lemma NormalizableExactly(elf: bytes, h: ElfHeader)
    requires Begins(elf, h)
    ensures Normalize.Normalizable(elf) <==>
              && h.ident[..7] == [0x7F, 0x45, 0x4C, 0x46, 1, 2, 1]
              && h.sectionSize >= 40 && h.sectionOffset + h.sectionSize * h.sectionCount <= |elf|
  {
    hide Begins, U16, U32;
    HeaderRead(elf, h);
    IdentRead(elf, h, 7);
  }

  /** Shorter files have no header, and are refused by all of them. */
  lemma ShortFiles(s: bytes)
    requires |s| < 52
    ensures WpsSections.ReadTable(s).None? && !ElfValidate.IsPowerPcElf(s) && !Normalize.Normalizable(s)
  {
  }
}
