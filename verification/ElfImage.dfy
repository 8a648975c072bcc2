/** How an ELF64 file lays its headers out (System V gABI, chapters 4 and 5): every field in
    its place, the ones the loader skips included. */
module ElfImage {
  import opened Words
  import opened Storage
  import opened ElfFile

  /** All fields of the ELF header. */
  datatype FileHeader = FileHeader(
    ident: seq<byte>, kind: u16, machine: u16, version: u32, entry: u64, phoff: u64, shoff: u64, flags: u32,
    ehsize: u16, phentsize: u16, phnum: u16, shentsize: u16, shnum: u16, shstrndx: u16)

  /** All fields of a program header. */
  datatype ProgramHeader = ProgramHeader(
    kind: u32, flags: u32, offset: u64, vaddr: u64, paddr: u64, filesz: u64, memsz: u64, align: u64)

  function HeaderBytes(h: FileHeader): seq<byte> {
    h.ident + Bytes16(h.kind) + Bytes16(h.machine) + Bytes32(h.version)
    + Bytes64(h.entry) + Bytes64(h.phoff) + Bytes64(h.shoff)
    + Bytes32(h.flags) + Bytes16(h.ehsize) + Bytes16(h.phentsize) + Bytes16(h.phnum)
    + Bytes16(h.shentsize) + Bytes16(h.shnum) + Bytes16(h.shstrndx)
  }

  function EntryBytes(p: ProgramHeader): (b: seq<byte>)
    ensures |b| == 56
  {
    Bytes32(p.kind) + Bytes32(p.flags) + Bytes64(p.offset) + Bytes64(p.vaddr) + Bytes64(p.paddr)
    + Bytes64(p.filesz) + Bytes64(p.memsz) + Bytes64(p.align)
  }

  /** A program header in memory reads back as its kind, file offset, physical address and
      sizes, whatever the other fields hold. */
  lemma EntryReadsBack(m: seq<byte>, at: nat, p: ProgramHeader)
    requires at + 56 <= |m| && m[at..at + 56] == EntryBytes(p)
    ensures SegmentAt(m, at) == Segment(p.kind, p.offset, p.paddr, p.filesz, p.memsz)
  {
    var b := EntryBytes(p);
    hide Bytes32, Bytes64, Get32, Get64;
    assert b[0..4] == Bytes32(p.kind) && b[8..16] == Bytes64(p.offset) && b[24..32] == Bytes64(p.paddr);
    assert b[32..40] == Bytes64(p.filesz) && b[40..48] == Bytes64(p.memsz);
    hide EntryBytes;
    Get32At(m, at, p.kind) by { SliceOfSlice(m, at, b, 0, 4); }
    Get64At(m, at + 8, p.offset) by { SliceOfSlice(m, at, b, 8, 16); }
    Get64At(m, at + 24, p.paddr) by { SliceOfSlice(m, at, b, 24, 32); }
    Get64At(m, at + 32, p.filesz) by { SliceOfSlice(m, at, b, 32, 40); }
    Get64At(m, at + 40, p.memsz) by { SliceOfSlice(m, at, b, 40, 48); }
  }

  /** Where the fields of the header sit. */
  lemma HeaderLayout(h: FileHeader)
    requires |h.ident| == 16
    ensures var b := HeaderBytes(h);
      && |b| == 64 && b[0..16] == h.ident && b[16..18] == Bytes16(h.kind) && b[18..20] == Bytes16(h.machine)
      && b[24..32] == Bytes64(h.entry) && b[32..40] == Bytes64(h.phoff)
      && b[54..56] == Bytes16(h.phentsize) && b[56..58] == Bytes16(h.phnum)
  {
    hide Bytes16, Bytes32, Bytes64;
    var front := h.ident + Bytes16(h.kind) + Bytes16(h.machine) + Bytes32(h.version)
                 + Bytes64(h.entry) + Bytes64(h.phoff) + Bytes64(h.shoff);
    var back := Bytes32(h.flags) + Bytes16(h.ehsize) + Bytes16(h.phentsize) + Bytes16(h.phnum)
                + Bytes16(h.shentsize) + Bytes16(h.shnum) + Bytes16(h.shstrndx);
    assert HeaderBytes(h) == front + back;
    assert front[0..16] == h.ident && front[16..18] == Bytes16(h.kind) && front[18..20] == Bytes16(h.machine);
    assert front[24..32] == Bytes64(h.entry) && front[32..40] == Bytes64(h.phoff) && |front| == 48;
    assert back[6..8] == Bytes16(h.phentsize) && back[8..10] == Bytes16(h.phnum) && |back| == 16;
    hide HeaderBytes;
    FrontSlice(front, back, 0, 16);
    FrontSlice(front, back, 16, 18);
    FrontSlice(front, back, 18, 20);
    FrontSlice(front, back, 24, 32);
    FrontSlice(front, back, 32, 40);
    BackSlice(front, back, 6, 8);
    BackSlice(front, back, 8, 10);
  }

  lemma FrontSlice(front: seq<byte>, back: seq<byte>, lo: nat, hi: nat)
    requires lo <= hi <= |front|
    ensures (front + back)[lo..hi] == front[lo..hi]
  {
  }

  lemma BackSlice(front: seq<byte>, back: seq<byte>, lo: nat, hi: nat)
    requires lo <= hi <= |back|
    ensures (front + back)[|front| + lo..|front| + hi] == back[lo..hi]
  {
  }

  /** The header reads back, and it is accepted exactly when its fields say: the magic
      number, 64-bit, little-endian, a fixed-address executable for x86-64, with at least
      one program header of 56 bytes. */
  lemma HeaderReadsBack(m: seq<byte>, at: nat, h: FileHeader)
    requires |h.ident| == 16 && |HeaderBytes(h)| == 64
    requires at + 64 <= |m| && m[at..at + 64] == HeaderBytes(h)
    ensures HeaderAt(m, at) == Header(h.ident, h.kind, h.machine, h.entry, h.phoff, h.phentsize, h.phnum)
    ensures HeaderIsValid(HeaderAt(m, at)) <==>
              && h.ident[0] == 0x7F && h.ident[1] == 0x45 && h.ident[2] == 0x4C && h.ident[3] == 0x46
              && h.ident[4] == 2 && h.ident[5] == 1
              && h.kind == 2 && h.machine == 62 && h.phnum != 0 && h.phentsize == 56
  {
    HeaderLayout(h);
    var b := HeaderBytes(h);
    hide Bytes16, Bytes64, Get16, Get64, HeaderBytes;
    SliceOfSlice(m, at, b, 0, 16);
    Get16At(m, at + 16, h.kind) by { SliceOfSlice(m, at, b, 16, 18); }
    Get16At(m, at + 18, h.machine) by { SliceOfSlice(m, at, b, 18, 20); }
    Get64At(m, at + 24, h.entry) by { SliceOfSlice(m, at, b, 24, 32); }
    Get64At(m, at + 32, h.phoff) by { SliceOfSlice(m, at, b, 32, 40); }
    Get16At(m, at + 54, h.phentsize) by { SliceOfSlice(m, at, b, 54, 56); }
    Get16At(m, at + 56, h.phnum) by { SliceOfSlice(m, at, b, 56, 58); }
    MagicBytes(h.ident);
  }

  lemma MagicBytes(ident: seq<byte>)
    requires |ident| == 16
    ensures ident[..4] == [0x7F, 0x45, 0x4C, 0x46] <==>
              ident[0] == 0x7F && ident[1] == 0x45 && ident[2] == 0x4C && ident[3] == 0x46
  {
    assert ident[..4] == [ident[0], ident[1], ident[2], ident[3]];
  }

  /** The file starts with header `h` and holds the program headers `ps` at its e_phoff,
      56 bytes apart. */
  ghost predicate Written(content: seq<byte>, h: FileHeader, ps: seq<ProgramHeader>) {
    && |h.ident| == 16 && |HeaderBytes(h)| == 64 && 64 <= |content| && content[..64] == HeaderBytes(h)
    && h.phnum == |ps| && h.phoff + |ps| * 56 <= |content|
    && forall i :: 0 <= i < |ps| ==> EntryAt(content, h.phoff + i * 56, ps[i])
  }

  ghost predicate EntryAt(content: seq<byte>, at: nat, p: ProgramHeader) {
    at + 56 <= |content| && content[at..at + 56] == EntryBytes(p)
  }

  function SegmentOf(p: ProgramHeader): Segment {
    Segment(p.kind, p.offset, p.paddr, p.filesz, p.memsz)
  }

  /** The loader's view of a file written so with an acceptable header: it has a table, and
      its segments are the program headers' kinds, offsets, physical addresses and sizes. */
  lemma WrittenFileReads(content: seq<byte>, h: FileHeader, ps: seq<ProgramHeader>)
    requires Written(content, h, ps) && HeaderIsValid(HeaderAt(content, 0))
    ensures HasTable(content) && HeaderAt(content, 0).entry == h.entry && |Segments(content)| == |ps|
    ensures forall i :: 0 <= i < |ps| ==> Segments(content)[i] == SegmentOf(ps[i])
  {
    assert content[0..64] == content[..64];
    HeaderReadsBack(content, 0, h);
    hide HeaderBytes, EntryBytes, HeaderAt, SegmentAt, HeaderIsValid;
    forall i | 0 <= i < |ps| ensures Segments(content)[i] == SegmentOf(ps[i]) {
      assert EntryAt(content, h.phoff + i * 56, ps[i]);
      EntryReadsBack(content, h.phoff + i * 56, ps[i]);
    }
  }

  /** The program header's file bytes stand at its physical address, followed by zeros. */
  ghost predicate BytesInPlace(m: seq<byte>, content: seq<byte>, p: ProgramHeader) {
    && p.paddr + p.filesz <= |m| && p.paddr + p.memsz <= |m|
    && (p.filesz > 0 ==> p.offset + p.filesz <= |content|
                         && m[p.paddr..p.paddr + p.filesz] == content[p.offset..p.offset + p.filesz])
    && forall a :: p.paddr + p.filesz <= a < p.paddr + p.memsz ==> m[a] == 0
  }

  lemma LoadedInPlace(m: seq<byte>, content: seq<byte>, p: ProgramHeader)
    requires Loaded(m, content, SegmentOf(p))
    ensures BytesInPlace(m, content, p)
  {
  }

  /** What a load of such a file means in terms of its program headers. */
  lemma WrittenFileLoaded(m: seq<byte>, content: seq<byte>, h: FileHeader, ps: seq<ProgramHeader>)
    requires Written(content, h, ps) && HeaderIsValid(HeaderAt(content, 0))
    requires HasTable(content) && AllLoaded(m, content, |Segments(content)|)
    ensures forall i :: 0 <= i < |ps| && ps[i].kind == 1 ==> BytesInPlace(m, content, ps[i])
  {
    WrittenFileReads(content, h, ps);
    hide Written, Segments, HeaderIsValid, HeaderAt, HasTable, BytesInPlace, Loaded, Fits;
    forall i | 0 <= i < |ps| && ps[i].kind == 1 ensures BytesInPlace(m, content, ps[i]) {
      assert Loaded(m, content, Segments(content)[i]);
      LoadedInPlace(m, content, ps[i]);
    }
  }
}
