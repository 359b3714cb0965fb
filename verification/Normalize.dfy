/** In-place normalisation of unaligned absolute relocations over all RELA sections of an ELF file. */
module Normalize {
  import opened Bytes
  import opened SectionHeaders
  import opened ElfValidate

  // ----- what the walk computes

  /** `struct.pack_into(">I", data, at, value)`. */
  function PackU32(data: bytes, at: nat, value: u32): (d: bytes)
    requires at + 4 <= |data|
    ensures |d| == |data|
  {
    data[..at] + EncodeU32(value) + data[at + 4..]
  }

  predicate IsUnaligned(data: bytes, at: nat)
    requires at + 8 <= |data|
  {
    U32(data, at + 4) % 0x100 == R_PPC_UADDR32
  }

  /** One relocation entry: its type becomes the aligned one, its symbol index stays. */
  function RewriteEntry(data: bytes, at: nat): (d: bytes)
    requires at + 8 <= |data|
    ensures |d| == |data|
  {
    if IsUnaligned(data, at) then PackU32(data, at + 4, U32(data, at + 4) / 0x100 * 0x100 + R_PPC_ADDR32) else data
  }

  /** `count` entries from `at` on: the bytes and the number of changes. */
  function RewriteEntries(data: bytes, at: nat, step: nat, count: nat): (r: (bytes, nat))
    requires step >= 12 && at + step * count <= |data|
    ensures |r.0| == |data|
    decreases count
  {
    if count == 0 then (data, 0)
    else
      EntriesFit(at, step, count);
      var rest := RewriteEntries(RewriteEntry(data, at), at + step, step, count - 1);
      (rest.0, rest.1 + if IsUnaligned(data, at) then 1 else 0)
  }

  lemma EntriesFit(at: nat, step: nat, count: nat)
    requires count > 0
    ensures at + step <= at + step * count && at + step + step * (count - 1) == at + step * count
  {
    assert step * count == step + step * (count - 1);
  }

  predicate RelaLegal(data: bytes, h: Header) {
    h.entrySize >= 12 && h.storedSize % h.entrySize == 0 && h.fileOffset + h.storedSize <= |data|
  }

  function EntryCount(h: Header): (n: nat)
    requires h.entrySize >= 12 && h.storedSize % h.entrySize == 0
    ensures h.entrySize * n == h.storedSize
  {
    h.storedSize / h.entrySize
  }

  /** Sections `index..` in order; each header is read from the bytes as they are by then. */
  function Walk(data: bytes, t: Tables, index: nat): (r: Option<(bytes, nat)>)
    requires SectionTableFits(data, t) && index <= t.sectionCount
    ensures r.Some? ==> |r.value.0| == |data|
    decreases t.sectionCount - index
  {
    if index == t.sectionCount then Some((data, 0))
    else
      var h := SectionAt(data, t, index);
      if h.kind != RELA then Walk(data, t, index + 1)
      else if !RelaLegal(data, h) then None
      else
        var here := RewriteEntries(data, h.fileOffset, h.entrySize, EntryCount(h));
        match Walk(here.0, t, index + 1)
        case None => None
        case Some(rest) => Some((rest.0, here.1 + rest.1))
  }

  predicate Normalizable(elf: bytes) {
    |elf| >= 52 && elf[..7] == ELF_IDENT && SectionTableFits(elf, TablesOf(elf))
  }

  /** The bytes written back and the count returned; None when the file is refused and left alone. */
  function Normalized(elf: bytes): (r: Option<(bytes, nat)>)
    ensures r.Some? ==> |r.value.0| == |elf|
  {
    if Normalizable(elf) then Walk(elf, TablesOf(elf), 0) else None
  }

  // ----- the tool

  class ElfFile {
    var contents: bytes

    constructor (contents: bytes)
      ensures this.contents == contents
    {
      this.contents := contents;
    }
  }

  method WriteU32(data: array<byte>, at: nat, value: u32)
    requires at + 4 <= data.Length
    modifies data
    ensures data[..] == PackU32(old(data[..]), at, value)
  {
    var field := EncodeU32(value);
    data[at], data[at + 1], data[at + 2], data[at + 3] := field[0], field[1], field[2], field[3];
    assert data[..at] == old(data[..at]) && data[at + 4..] == old(data[at + 4..]);
    assert data[..] == data[..at] + data[at..at + 4] + data[at + 4..];
  }

  method ReadU32(data: array<byte>, at: nat) returns (value: u32)
    requires at + 4 <= data.Length
    ensures value == U32(data[..], at)
  {
    value := (data[at] as int) * 0x100_0000 + (data[at + 1] as int) * 0x1_0000
             + (data[at + 2] as int) * 0x100 + (data[at + 3] as int);
  }

  function AddChanges(changed: nat, r: (bytes, nat)): (bytes, nat) {
    (r.0, changed + r.1)
  }

  /** The inner loop: every entry of one RELA section. */
  method RewriteSection(data: array<byte>, offset: nat, size: nat, entrySize: nat) returns (changed: nat)
    requires entrySize >= 12 && size % entrySize == 0 && offset + size <= data.Length
    modifies data
    ensures size == entrySize * (size / entrySize)
    ensures (data[..], changed) == RewriteEntries(old(data[..]), offset, entrySize, size / entrySize)
  {
    hide U32, PackU32, RewriteEntries;
    ghost var n := size / entrySize;
    NoChanges(data[..], offset, entrySize, n);
    ghost var done: nat := 0;
    changed := 0;
    var relocation := offset;
    while relocation < offset + size
      invariant done <= n && relocation + entrySize * (n - done) == offset + size
      invariant RewriteEntries(old(data[..]), offset, entrySize, n)
             == AddChanges(changed, RewriteEntries(data[..], relocation, entrySize, n - done))
      decreases n - done
    {
      EntryCountLeft(entrySize, n - done, offset + size - relocation);
      EntriesFit(relocation, entrySize, n - done);
      RewriteStep(data[..], relocation, entrySize, n - done);
      var info := ReadU32(data, relocation + 4);
      if info % 0x100 == R_PPC_UADDR32 {
        WriteU32(data, relocation + 4, info / 0x100 * 0x100 + R_PPC_ADDR32);
        changed := changed + 1;
      }
      relocation := relocation + entrySize;
      done := done + 1;
    }
    EntryCountLeft(entrySize, n - done, offset + size - relocation);
    AllRewritten(data[..], relocation, entrySize);
  }

  lemma NoChanges(data: bytes, at: nat, step: nat, count: nat)
    requires step >= 12 && at + step * count <= |data|
    ensures RewriteEntries(data, at, step, count) == AddChanges(0, RewriteEntries(data, at, step, count))
  {
  }

  lemma AllRewritten(data: bytes, at: nat, step: nat)
    requires step >= 12 && at + step * 0 <= |data|
    ensures RewriteEntries(data, at, step, 0) == (data, 0)
  {
  }

  lemma RewriteStep(data: bytes, at: nat, step: nat, count: nat)
    requires step >= 12 && count > 0 && at + step * count <= |data|
    ensures at + 8 <= |data| && (at + step) + step * (count - 1) <= |data|
    ensures RewriteEntries(data, at, step, count) ==
              AddChanges(if IsUnaligned(data, at) then 1 else 0,
                         RewriteEntries(RewriteEntry(data, at), at + step, step, count - 1))
  {
    EntriesFit(at, step, count);
  }

  lemma EntryCountLeft(step: nat, count: nat, gap: int)
    requires step > 0 && step * count == gap
    ensures gap <= 0 <==> count == 0
  {
    assert count > 0 ==> step * count >= step * 1;
  }

  /** The outer loop and the file: on an error nothing is written back. */
  method Normalize(path: ElfFile) returns (r: Result<nat>)
    modifies path
    ensures match Normalized(old(path.contents))
            case None => r == Rejected && path.contents == old(path.contents)
            case Some(done) => r == Ok(done.1) && path.contents == done.0
  {
    hide SectionAt, RelaLegal, RewriteEntries;
    var original := path.contents;
    var data := new byte[|original|](i requires 0 <= i < |original| => original[i]);
    assert data[..] == original;
    if |original| < 52 || data[..7] != ELF_IDENT { return Rejected; }
    var t := TablesOf(original);
    if !SectionTableFits(original, t) { return Rejected; }
    var changed := 0;
    for index := 0 to t.sectionCount
      invariant path.contents == original
      invariant Walk(original, t, 0) ==
                match Walk(data[..], t, index)
                case None => None
                case Some(rest) => Some(AddChanges(changed, rest))
    {
      var h := SectionAt(data[..], t, index);
      if h.kind != RELA { continue; }
      if !RelaLegal(data[..], h) { return Rejected; }
      LegalShape(data[..], h);
      var here := RewriteSection(data, h.fileOffset, h.storedSize, h.entrySize);
      changed := changed + here;
    }
    path.contents := data[..];
    return Ok(changed);
  }

  lemma LegalShape(data: bytes, h: Header)
    requires RelaLegal(data, h)
    ensures h.entrySize >= 12 && h.storedSize % h.entrySize == 0 && h.fileOffset + h.storedSize <= |data|
    ensures EntryCount(h) == h.storedSize / h.entrySize
  {
  }
}
