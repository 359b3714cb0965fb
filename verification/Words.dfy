/** Tables of big-endian words: packed words, and the entries of ELF symbol and relocation tables. */
module Words {
  import opened Bytes

  /** `struct.pack` of consecutive 32-bit words. */
  function PackWords(words: seq<u32>): (s: bytes)
    ensures |s| == 4 * |words|
  {
    if words == [] then [] else PackWords(words[..|words| - 1]) + EncodeU32(words[|words| - 1])
  }

  lemma {:induction false} PackedWord(words: seq<u32>, i: nat)
    requires i < |words|
    ensures U32(PackWords(words), i * 4) == words[i]
  {
    hide EncodeU32, U32;
    var k := |words| - 1;
    var s, front := PackWords(words), PackWords(words[..k]);
    if i == k {
      assert s[i * 4..i * 4 + 4] == EncodeU32(words[k]);
      DecodeEncodeU32(words[k], s, i * 4);
    } else {
      PackedWord(words[..k], i);
      SamePrefixWord(front, s, i * 4);
    }
  }

  function WordsIn(data: bytes): (words: seq<u32>)
    requires |data| % 4 == 0
    ensures |words| == |data| / 4
  {
    seq(|data| / 4, i requires 0 <= i < |data| / 4 => U32(data, i * 4))
  }

  lemma LastWord(data: bytes)
    requires |data| % 4 == 0 && data != []
    ensures var front := data[..|data| - 4];
            && WordsIn(data)[..|data| / 4 - 1] == WordsIn(front)
            && data == front + EncodeU32(WordsIn(data)[|data| / 4 - 1])
  {
    hide U32, EncodeU32;
    var k := |data| - 4;
    var front := data[..k];
    forall i | 0 <= i < |front| / 4
      ensures U32(front, i * 4) == U32(data, i * 4)
    {
      SamePrefixWord(front, data, i * 4);
    }
    EncodeDecodeU32(data, k);
    assert data == front + data[k..k + 4];
  }

  /** Bytes that are whole words are the words they read as, packed. */
  lemma {:induction false} Repacked(data: bytes)
    requires |data| % 4 == 0
    ensures PackWords(WordsIn(data)) == data
  {
    if data != [] {
      hide WordsIn, EncodeU32;
      LastWord(data);
      Repacked(data[..|data| - 4]);
    }
  }

  lemma SamePrefixWord(front: bytes, s: bytes, at: nat)
    requires at + 4 <= |front| && front <= s
    ensures U32(front, at) == U32(s, at)
  {
  }

  // ----- relocation entries

  /** A relocation entry as it is packed. */
  datatype Entry = Entry(offset: u32, symbol: nat, kind: byte, addend: u32)

  predicate Packable(entries: seq<Entry>) {
    forall k :: 0 <= k < |entries| ==> entries[k].symbol < 0x100_0000
  }

  /** Three words for each entry, or two without addends. */
  function EntryWords(entries: seq<Entry>, addends: bool): (words: seq<u32>)
    requires Packable(entries)
    ensures |words| == (if addends then 3 else 2) * |entries|
  {
    var w := if addends then 3 else 2;
    seq(w * |entries|, i requires 0 <= i < w * |entries| =>
      var e := entries[i / w];
      if i % w == 0 then e.offset else if i % w == 1 then e.symbol * 0x100 + e.kind else e.addend)
  }

  lemma EntryFields(entries: seq<Entry>, addends: bool, k: nat)
    requires Packable(entries) && k < |entries|
    ensures var data, size := PackWords(EntryWords(entries, addends)), if addends then 12 else 8;
            && |data| == size * |entries| && (k + 1) * size <= |data|
            && U32(data, k * size) == entries[k].offset
            && U32(data, k * size + 4) == entries[k].symbol * 0x100 + entries[k].kind
  {
    hide PackWords, U32;
    var words := EntryWords(entries, addends);
    if addends {
      PackedWord(words, 3 * k);
      PackedWord(words, 3 * k + 1);
    } else {
      PackedWord(words, 2 * k);
      PackedWord(words, 2 * k + 1);
    }
  }

  /** `info >> 8` and `info & 0xFF`. */
  lemma ElfInfo(symbol: nat, kind: byte)
    ensures (symbol * 0x100 + kind as int) / 0x100 == symbol && (symbol * 0x100 + kind as int) % 0x100 == kind as int
  {
  }

  // ----- symbol entries

  /** The last word of a symbol entry: the info byte, another byte, and the section number. */
  lemma InfoAndSection(data: bytes, at: nat, info: byte, other: byte, section: u16)
    requires at + 4 <= |data| && U32(data, at) == info * 0x100_0000 + other * 0x1_0000 + section
    ensures data[at] == info && U16(data, at + 2) == section
  {
  }
}
