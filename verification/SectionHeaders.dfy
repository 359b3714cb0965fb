/** The ten 32-bit words of an ELF32 section header. */
module SectionHeaders {
  import opened Bytes

  datatype Header = Header(nameOffset: u32, kind: u32, flags: u32, address: u32, fileOffset: u32,
                           storedSize: u32, link: u32, info: u32, alignment: u32, entrySize: u32)

  // section types
  const PROGBITS: u32 := 1
  const SYMTAB: u32 := 2
  const STRTAB: u32 := 3
  const RELA: u32 := 4
  const NOBITS: u32 := 8
  const REL: u32 := 9
  const DYNSYM: u32 := 11

  function HeaderAt(image: bytes, at: nat): Header
    requires at + 40 <= |image|
  {
    Header(U32(image, at), U32(image, at + 4), U32(image, at + 8), U32(image, at + 12), U32(image, at + 16),
           U32(image, at + 20), U32(image, at + 24), U32(image, at + 28), U32(image, at + 32), U32(image, at + 36))
  }

  function EncodeHeader(h: Header): (s: bytes)
    ensures |s| == 40
  {
    EncodeU32(h.nameOffset) + EncodeU32(h.kind) + EncodeU32(h.flags) + EncodeU32(h.address)
    + EncodeU32(h.fileOffset) + EncodeU32(h.storedSize) + EncodeU32(h.link) + EncodeU32(h.info)
    + EncodeU32(h.alignment) + EncodeU32(h.entrySize)
  }

  lemma HeaderWords(h: Header)
    ensures var s := EncodeHeader(h);
            && s[0..4] == EncodeU32(h.nameOffset) && s[4..8] == EncodeU32(h.kind) && s[8..12] == EncodeU32(h.flags)
            && s[12..16] == EncodeU32(h.address) && s[16..20] == EncodeU32(h.fileOffset)
            && s[20..24] == EncodeU32(h.storedSize) && s[24..28] == EncodeU32(h.link) && s[28..32] == EncodeU32(h.info)
            && s[32..36] == EncodeU32(h.alignment) && s[36..40] == EncodeU32(h.entrySize)
  {
    hide EncodeU32;
  }

  /** A printed header reads back as itself. */
  lemma HeaderReadsBack(image: bytes, at: nat, h: Header)
    requires Stands(image, at, EncodeHeader(h))
    ensures HeaderAt(image, at) == h
  {
    var s := EncodeHeader(h);
    HeaderWords(h);
    hide EncodeHeader, EncodeU32, U32;
    ReadWord(image, at, s, 0, h.nameOffset);
    ReadWord(image, at, s, 4, h.kind);
    ReadWord(image, at, s, 8, h.flags);
    ReadWord(image, at, s, 12, h.address);
    ReadWord(image, at, s, 16, h.fileOffset);
    ReadWord(image, at, s, 20, h.storedSize);
    ReadWord(image, at, s, 24, h.link);
    ReadWord(image, at, s, 28, h.info);
    ReadWord(image, at, s, 32, h.alignment);
    ReadWord(image, at, s, 36, h.entrySize);
  }
}
