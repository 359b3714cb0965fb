/** Descriptor tables, printed and read back. */
module WpsTables {
  import opened Bytes
  import opened Words
  import opened WpsSections
  import opened WpsGeometry
  import opened WpsDescriptors

  // ----- hooks

  function HookWords(hooks: seq<Hook>): (words: seq<u32>)
    ensures |words| == 2 * |hooks|
  {
    seq(2 * |hooks|, i requires 0 <= i < 2 * |hooks| => if i % 2 == 0 then hooks[i / 2].kind else hooks[i / 2].target)
  }

  /** A printed hook table reads back as the hooks. */
  lemma HooksReadBack(hooks: seq<Hook>)
    ensures HookTable(PackWords(HookWords(hooks))) == hooks
  {
    hide U32, PackWords;
    var data := PackWords(HookWords(hooks));
    forall k | 0 <= k < |hooks|
      ensures HookAt(data, k) == hooks[k]
    {
      PackedWord(HookWords(hooks), 2 * k);
      PackedWord(HookWords(hooks), 2 * k + 1);
    }
  }

  /** Every hook table is a printed one. */
  lemma HookTableIsPrinted(data: bytes)
    requires |data| % 8 == 0
    ensures PackWords(HookWords(HookTable(data))) == data
  {
    hide U32, PackWords;
    Repacked(data);
    assert HookWords(HookTable(data)) == WordsIn(data);
  }

  // ----- replacements

  function ReplacementWord(item: Replacement, j: nat): u32 {
    if j == 0 then item.kind else if j == 1 then item.physical else if j == 2 then item.virtual
    else if j == 3 then item.namePointer else if j == 4 then item.library else if j == 5 then item.replacementPointer
    else if j == 6 then item.target else if j == 7 then item.callAddress else item.process
  }

  function ReplacementWords(items: seq<Replacement>): (words: seq<u32>)
    ensures |words| == 9 * |items|
  {
    seq(9 * |items|, i requires 0 <= i < 9 * |items| => ReplacementWord(items[i / 9], i % 9))
  }

  /** A printed load table reads back as the replacements. */
  lemma ReplacementsReadBack(items: seq<Replacement>)
    ensures LoadTable(PackWords(ReplacementWords(items))) == items
  {
    hide U32, PackWords, ReplacementAt;
    var data := PackWords(ReplacementWords(items));
    forall k | 0 <= k < |items|
      ensures ReplacementAt(data, k) == items[k]
    {
      ReplacementReadsBack(items, k);
    }
  }

  lemma ReplacementReadsBack(items: seq<Replacement>, k: nat)
    requires k < |items|
    ensures ReplacementAt(PackWords(ReplacementWords(items)), k) == items[k]
  {
    hide U32, PackWords, ReplacementWords;
    ReplacementField(items, k, 0);
    ReplacementField(items, k, 1);
    ReplacementField(items, k, 2);
    ReplacementField(items, k, 3);
    ReplacementField(items, k, 4);
    ReplacementField(items, k, 5);
    ReplacementField(items, k, 6);
    ReplacementField(items, k, 7);
    ReplacementField(items, k, 8);
  }

  lemma ReplacementField(items: seq<Replacement>, k: nat, j: nat)
    requires k < |items| && j < 9
    ensures U32(PackWords(ReplacementWords(items)), k * 36 + j * 4) == ReplacementWord(items[k], j)
  {
    hide U32, PackWords;
    PackedWord(ReplacementWords(items), 9 * k + j);
  }

  lemma LoadWord(data: bytes, i: nat)
    requires |data| % 36 == 0 && i < |data| / 4
    ensures |ReplacementWords(LoadTable(data))| == |data| / 4
    ensures ReplacementWords(LoadTable(data))[i] == WordsIn(data)[i]
  {
    hide U32, ReplacementWord, ReplacementAt;
    var k, j := i / 9, i % 9;
    assert i == 9 * k + j;
    ReplacementWordRead(data, k, j);
  }

  /** Every load table is a printed one. */
  lemma LoadTableIsPrinted(data: bytes)
    requires |data| % 36 == 0
    ensures PackWords(ReplacementWords(LoadTable(data))) == data
  {
    hide U32, PackWords, ReplacementWords, LoadTable, WordsIn;
    Repacked(data);
    var words, read := ReplacementWords(LoadTable(data)), WordsIn(data);
    assert |words| == |data| / 4 == |read|;
    forall i | 0 <= i < |words|
      ensures words[i] == read[i]
    {
      LoadWord(data, i);
    }
    assert words == read;
  }

  lemma ReplacementWordRead(data: bytes, k: nat, j: nat)
    requires (k + 1) * 36 <= |data| && j < 9
    ensures ReplacementWord(ReplacementAt(data, k), j) == U32(data, (9 * k + j) * 4)
  {
    hide U32;
  }

  // ----- FILEINFO

  /** A FILEINFO content: the fields the inspection reads, zero elsewhere. */
  function FileInfoWords(text: u32, textAlignment: u32, data: u32, dataAlignment: u32, loader: u32): (words: seq<u32>)
    ensures |words| == 24
  {
    seq(24, i => if i == 0 then 0xCAFE_0402 else if i == 1 then text else if i == 2 then textAlignment
                 else if i == 3 then data else if i == 4 then dataAlignment else if i == 5 then loader else 0)
  }

  /** The region sizes a printed FILEINFO section declares are the ones that are read from it. */
  lemma FileInfoReadsBack(ss: seq<Section>, text: u32, textAlignment: u32, data: u32, dataAlignment: u32, loader: u32)
    requires |ss| >= 2 && ss[|ss| - 2].header.kind == RPL_CRCS && ss[|ss| - 1].header.kind == RPL_FILEINFO
    requires |ss[|ss| - 2].data| == 4 * |ss|
    requires ss[|ss| - 1].data == PackWords(FileInfoWords(text, textAlignment, data, dataAlignment, loader))
    ensures ReadFileInfo(ss) ==
              if 0 < text <= MAX_EXPANDED_BYTES && data <= MAX_EXPANDED_BYTES && loader <= MAX_EXPANDED_BYTES
                 && RegionAlignmentLegal(textAlignment) && RegionAlignmentLegal(dataAlignment)
              then Some(FileInfo(text, data, loader)) else None
  {
    hide U32, PackWords, RegionAlignmentLegal;
    var words := FileInfoWords(text, textAlignment, data, dataAlignment, loader);
    PackedWord(words, 0);
    PackedWord(words, 1);
    PackedWord(words, 2);
    PackedWord(words, 3);
    PackedWord(words, 4);
    PackedWord(words, 5);
    PackedWord(words, 8);
    PackedWord(words, 19);
  }
}
