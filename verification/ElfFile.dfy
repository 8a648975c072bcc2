/** Loading the kernel: exact reads over a file that may return short, header checks,
    placement of PT_LOAD segments and zeroing of .bss. */
module ElfFile {
  import opened Words
  import opened Storage
  import opened Firmware
  import MapImage

  const EHDR_BYTES := 64
  const PHDR_BYTES := 56
  const ET_EXEC := 2
  const EM_X86_64 := 0x3E
  const PT_LOAD := 1

  /** The fields of the ELF header the loader uses. */
  datatype Header = Header(ident: seq<byte>, kind: u16, machine: u16, entry: u64, phoff: u64, phentsize: u16, phnum: u16)

  function HeaderAt(m: seq<byte>, a: nat): Header
    requires a + EHDR_BYTES <= |m|
  {
    Header(m[a..a + 16], Get16(m, a + 16), Get16(m, a + 18), Get64(m, a + 24), Get64(m, a + 32),
           Get16(m, a + 54), Get16(m, a + 56))
  }

  /** The fields of a program header the loader uses. */
  datatype Segment = Segment(kind: u32, offset: u64, paddr: u64, filesz: u64, memsz: u64)

  function SegmentAt(m: seq<byte>, a: nat): Segment
    requires a + PHDR_BYTES <= |m|
  {
    Segment(Get32(m, a), Get64(m, a + 8), Get64(m, a + 24), Get64(m, a + 32), Get64(m, a + 40))
  }

  /** 64-bit little-endian ET_EXEC for x86-64 with a program header table of the known stride. */
  predicate HeaderIsValid(eh: Header)
    requires |eh.ident| == 16
  {
    && eh.ident[..4] == [0x7F, 0x45, 0x4C, 0x46]
    && eh.ident[4] == 2 && eh.ident[5] == 1
    && eh.kind == ET_EXEC && eh.machine == EM_X86_64
    && eh.phnum != 0 && eh.phentsize == PHDR_BYTES
  }

  /** The file starts with an acceptable header whose table lies inside the file. */
  predicate HasTable(content: seq<byte>) {
    && EHDR_BYTES <= |content|
    && var eh := HeaderAt(content, 0);
       HeaderIsValid(eh) && eh.phoff + eh.phnum * PHDR_BYTES <= |content|
  }

  function Segments(content: seq<byte>): (segments: seq<Segment>)
    requires HasTable(content)
    ensures |segments| == HeaderAt(content, 0).phnum
  {
    var eh := HeaderAt(content, 0);
    seq(eh.phnum, i requires 0 <= i < eh.phnum => SegmentAt(content, eh.phoff + i * PHDR_BYTES))
  }

  /** Pages requested for a segment: the rounding up is done in 64 bits and wraps. */
  function PagesFor(memsz: u64): nat {
    (memsz + PAGE_SIZE - 1) % 0x1_0000_0000_0000_0000 / PAGE_SIZE
  }

  function BlockOf(seg: Segment): Block {
    Block(seg.paddr, PagesFor(seg.memsz) * PAGE_SIZE)
  }

  /** Bytes stored from p_paddr on: the file's bytes, then zeros up to p_memsz. */
  function Stored(seg: Segment): nat {
    if seg.filesz <= seg.memsz then seg.memsz else seg.filesz
  }

  /** Both sizes fit the pages requested. */
  predicate Fits(seg: Segment) {
    Stored(seg) <= BlockOf(seg).size
  }

  /** Every loadable segment of the file fits its pages. */
  predicate Fitting(content: seq<byte>) {
    HasTable(content) ==>
      forall i :: 0 <= i < |Segments(content)| && Segments(content)[i].kind == PT_LOAD ==> Fits(Segments(content)[i])
  }

  /** Memory at p_paddr is the file's bytes followed by zeros up to p_memsz. */
  ghost predicate Loaded(m: seq<byte>, content: seq<byte>, seg: Segment) {
    && seg.paddr + Stored(seg) <= |m|
    && (seg.filesz > 0 ==> seg.offset + seg.filesz <= |content|)
    && (seg.filesz > 0 ==> m[seg.paddr..seg.paddr + seg.filesz] == content[seg.offset..seg.offset + seg.filesz])
    && forall k :: seg.paddr + seg.filesz <= k < seg.paddr + seg.memsz ==> m[k] == 0
  }

  // ---- exact reads ------------------------------------------------------------------

  /** Memory after the first `done` bytes have been read. */
  ghost function ReadSoFar(m: seq<byte>, address: nat, content: seq<byte>, offset: nat, done: nat): seq<byte>
    requires done > 0 ==> address + done <= |m| && offset + done <= |content|
  {
    if done == 0 then m else Splice(m, address, content[offset..offset + done])
  }

  /** A short read of `chunk` bytes continues where the last one stopped. */
  lemma ReadStep(m: seq<byte>, address: nat, content: seq<byte>, offset: nat, done: nat, chunk: nat)
    requires address + done + chunk <= |m| && offset + done + chunk <= |content| && chunk > 0
    ensures |ReadSoFar(m, address, content, offset, done)| == |m|
    ensures Splice(ReadSoFar(m, address, content, offset, done), address + done,
                   content[offset + done..offset + done + chunk])
            == ReadSoFar(m, address, content, offset, done + chunk)
  {
    hide Splice;
    if done > 0 {
      var sofar, next := content[offset..offset + done], content[offset + done..offset + done + chunk];
      assert content[offset..offset + done + chunk] == sofar + next;
      SpliceAdjacent(m, address, sofar, next);
    }
  }

  lemma ReadSoFarEnds(m: seq<byte>, address: nat, content: seq<byte>, offset: nat, size: nat)
    requires address + size <= |m|
    ensures ReadSoFar(m, address, content, offset, 0) == m
    ensures 0 < size && offset + size <= |content| ==>
              ReadSoFar(m, address, content, offset, size) == Splice(m, address, content[offset..offset + size])
  {
  }

  lemma ReadSoFarStays(m: seq<byte>, address: nat, content: seq<byte>, offset: nat, done: nat, size: nat)
    requires done <= size && address + size <= |m| && (done > 0 ==> offset + done <= |content|)
    ensures AgreeOutside(m, ReadSoFar(m, address, content, offset, done), address, address + size)
  {
  }

  /** Reads exactly `size` bytes at `offset` into memory, or fails. It succeeds if and
      only if no call fails and the file is long enough. */
  method ReadAt(file: File, offset: u64, out: Ram, address: u64, size: u64) returns (status: Status)
    requires address + size <= |out.cells| && address + size < 0x1_0000_0000_0000_0000
    requires !file.failed
    modifies file, out
    ensures status == Success <==> !file.failed && (size == 0 || offset + size <= |file.content|)
    ensures status != Success && !file.failed ==> status == LoadError
    ensures status == Success && size > 0 ==>
      out.cells == Splice(old(out.cells), address, file.content[offset..offset + size])
    ensures status == Success && size == 0 ==> out.cells == old(out.cells)
    ensures AgreeOutside(old(out.cells), out.cells, address, address + size)
  {
    hide Splice, ReadSoFar;
    ReadSoFarEnds(out.cells, address, file.content, offset, size);
    status := file.SetPosition(offset);
    if status != Success {
      return;
    }
    var done: u64 := 0;
    ghost var before := out.cells;
    while done < size
      invariant done <= size && !file.failed && file.position == offset + done
      invariant done > 0 ==> offset + done <= |file.content|
      invariant out.cells == ReadSoFar(before, address, file.content, offset, done)
      decreases size - done
    {
      ReadSoFarStays(before, address, file.content, offset, done, size);
      var chunk: u64;
      status, chunk := file.Read(size - done, out, address + done);
      if status != Success {
        return;
      }
      if chunk == 0 {
        return LoadError;
      }
      ReadStep(before, address, file.content, offset, done, chunk);
      done := done + chunk;
    }
    ReadSoFarStays(before, address, file.content, offset, done, size);
    return Success;
  }

  // ---- one segment --------------------------------------------------------------------

  /** The page count covers p_memsz and wastes less than a page, unless the rounding
      wraps; then no page is requested. */
  lemma PagesCover(memsz: u64)
    ensures memsz + PAGE_SIZE <= 0x1_0000_0000_0000_0000 ==> memsz <= PagesFor(memsz) * PAGE_SIZE < memsz + PAGE_SIZE
    ensures memsz + PAGE_SIZE > 0x1_0000_0000_0000_0000 ==> PagesFor(memsz) == 0
  {
  }

  /** The guard in terms of the header: the rounding does not wrap, and the file bytes
      fit the pages, even if there are more of them than p_memsz. */
  lemma FitsGuard(seg: Segment)
    ensures Fits(seg) <==>
              seg.memsz + PAGE_SIZE <= 0x1_0000_0000_0000_0000 && seg.filesz <= PagesFor(seg.memsz) * PAGE_SIZE
  {
    PagesCover(seg.memsz);
    hide PagesFor;
  }

  /** The .bss loop, which does nothing when the file bytes already reach p_memsz. */
  method ZeroTail(ram: Ram, base: u64, filesz: u64, memsz: u64)
    requires filesz < memsz ==> base + memsz <= |ram.cells|
    modifies ram
    ensures |ram.cells| == |old(ram.cells)|
    ensures forall k :: base + filesz <= k < base + memsz ==> ram.cells[k] == 0
    ensures AgreeOutside(old(ram.cells), ram.cells, base + filesz, base + memsz)
  {
    hide Splice;
    ghost var m := ram.cells;
    var b: u64 := filesz;
    while b < memsz
      invariant filesz <= b && (b == filesz || b <= memsz) && |ram.cells| == |m|
      invariant forall k :: base + filesz <= k < base + b ==> ram.cells[k] == 0
      invariant AgreeOutside(m, ram.cells, base + filesz, base + memsz)
    {
      ghost var before := ram.cells;
      ram.Write(base + b, [0]);
      assert ram.cells[base + b + 0] == [0][0];
      b := b + 1;
    }
  }

  /** The file holds the segment's bytes. */
  predicate InFile(content: seq<byte>, seg: Segment) {
    seg.filesz == 0 || seg.offset + seg.filesz <= |content|
  }

  /** There is memory behind every byte stored, or will be once the pages are granted. */
  predicate Backed(seg: Segment, memory: nat) {
    Fits(seg) || seg.paddr + Stored(seg) <= memory
  }

  /** Allocates a segment's pages at its own address, copies the file bytes in and
      zeroes the rest. Nothing checks that the bytes stored fit those pages, or even
      memory. */
  method LoadSegment(fw: Platform, file: File, seg: Segment) returns (status: Status)
    requires fw.Valid() && !fw.exited && !file.failed
    modifies fw`rows, fw`key, fw`live, fw`refusals, fw.ram, file
    ensures fw.Valid() && |fw.ram.cells| == |old(fw.ram.cells)|
    ensures old(fw.live) <= fw.live && old(fw.refusals) <= fw.refusals
    ensures status == Success ==> !file.failed && fw.refusals == old(fw.refusals) && seg.paddr % PAGE_SIZE == 0
    ensures status == Success ==> fw.live == old(fw.live) + {BlockOf(seg)} && BlockOf(seg) !in old(fw.live)
    ensures status == Success ==> forall a :: a in old(fw.live) ==> Apart(a, BlockOf(seg))
    ensures Backed(seg, |fw.ram.cells|) ==>
      AgreeOutside(old(fw.ram.cells), fw.ram.cells, seg.paddr, seg.paddr + Stored(seg))
    ensures Fits(seg) ==>
      AgreeOutside(old(fw.ram.cells), fw.ram.cells, BlockOf(seg).base, BlockOf(seg).base + BlockOf(seg).size)
    ensures Backed(seg, |fw.ram.cells|) && status == Success ==> Loaded(fw.ram.cells, file.content, seg)
    ensures Backed(seg, |fw.ram.cells|) ==>
      (status == Success <==> !file.failed && fw.refusals == old(fw.refusals) && InFile(file.content, seg))
  {
    hide Reportable, Owned, Splice;
    var pages: u64 := (seg.memsz + PAGE_SIZE - 1) % 0x1_0000_0000_0000_0000 / PAGE_SIZE;
    assert BlockOf(seg) == Block(seg.paddr, pages * PAGE_SIZE);
    hide PagesFor;
    var dest: u64;
    status, dest := fw.AllocatePages(seg.paddr, false, pages);
    if status != Success {
      return;
    }
    if dest + Stored(seg) > |fw.ram.cells| {
      status := StoreOffTheEnd(fw.ram, file);
      return;
    }
    if seg.filesz > 0 {
      status := ReadAt(file, seg.offset, fw.ram, dest, seg.filesz);
      if status != Success {
        return;
      }
    }
    ZeroTail(fw.ram, dest, seg.filesz, seg.memsz);
  }

  // ---- when the bytes stored stay inside the pages ----------------------------------------

  /** What a load of the segment makes of memory `m`. */
  ghost predicate LoadedFrom(m: seq<byte>, n: seq<byte>, content: seq<byte>, seg: Segment) {
    Loaded(n, content, seg) && AgreeOutside(m, n, seg.paddr, seg.paddr + Stored(seg))
  }

  ghost predicate StaysInside(m: seq<byte>, n: seq<byte>, b: Block) {
    AgreeOutside(m, n, b.base, b.base + b.size)
  }

  /** A load leaves all memory outside its own pages alone, whatever was there, exactly
      when the segment fits. */
  lemma InsideExactlyWhenFits(content: seq<byte>, seg: Segment, memory: nat)
    requires seg.filesz > 0 ==> seg.offset + seg.filesz <= |content|
    requires seg.paddr + Stored(seg) <= memory
    ensures Fits(seg) <==>
      forall m, n :: |m| == memory && LoadedFrom(m, n, content, seg) ==> StaysInside(m, n, BlockOf(seg))
  {
    hide PagesFor;
    if !Fits(seg) {
      var n := LoadedMemory(content, seg, memory);
      var past := seg.paddr + BlockOf(seg).size;
      var other: byte := if n[past] == 0 then 1 else 0;
      var m := n[past := other];
      assert LoadedFrom(m, n, content, seg);
      assert m[past] != n[past] && !StaysInside(m, n, BlockOf(seg));
    }
  }

  /** Some memory that holds the segment. */
  ghost function LoadedMemory(content: seq<byte>, seg: Segment, memory: nat): (m: seq<byte>)
    requires seg.filesz > 0 ==> seg.offset + seg.filesz <= |content|
    requires seg.paddr + Stored(seg) <= memory
    ensures |m| == memory && Loaded(m, content, seg)
  {
    var zeros: seq<byte> := seq(memory, _ => 0);
    if seg.filesz == 0 then zeros
    else Splice(zeros, seg.paddr, content[seg.offset..seg.offset + seg.filesz])
  }

  /** Byte `k` of an acceptable header for one program header, entry point 0x100000. */
  function HeaderByte(k: nat): byte {
    match k
    case 0 => 0x7F
    case 1 => 0x45
    case 2 => 0x4C
    case 3 => 0x46
    case 4 => 2
    case 5 => 1
    case 16 => ET_EXEC
    case 18 => EM_X86_64
    case 26 => 0x10
    case 32 => EHDR_BYTES
    case 54 => PHDR_BYTES
    case 56 => 1
    case _ => 0
  }

  /** Byte `k` of a PT_LOAD entry at 0x100000 with 4097 file bytes from offset 0 on and
      p_memsz 1. */
  function EntryByte(k: nat): byte {
    match k
    case 0 => PT_LOAD
    case 26 => 0x10
    case 32 => 1
    case 33 => 0x10
    case 40 => 1
    case _ => 0
  }

  function OverrunHeader(): (b: seq<byte>)
    ensures |b| == EHDR_BYTES
  {
    seq(EHDR_BYTES, k requires 0 <= k => HeaderByte(k))
  }

  function OverrunEntry(): (b: seq<byte>)
    ensures |b| == PHDR_BYTES
  {
    seq(PHDR_BYTES, k requires 0 <= k => EntryByte(k))
  }

  /** Header, program header, and bytes of 7 up to 4097. */
  function OverrunFile(): (content: seq<byte>)
    ensures |content| == 4097 && content[4096] == 7
    ensures content[..EHDR_BYTES] == OverrunHeader()
    ensures content[EHDR_BYTES..EHDR_BYTES + PHDR_BYTES] == OverrunEntry()
  {
    OverrunHeader() + OverrunEntry() + seq(3977, _ => 7)
  }

  lemma OverrunHeaderRead()
    ensures HeaderAt(OverrunHeader(), 0) == Header(OverrunHeader()[..16], ET_EXEC, EM_X86_64, 0x10_0000, 64, 56, 1)
    ensures HeaderIsValid(HeaderAt(OverrunHeader(), 0))
  {
    var h := OverrunHeader();
    assert h[0..16] == h[..16];
    assert h[..16][..4] == [h[0], h[1], h[2], h[3]];
  }

  lemma OverrunEntryRead()
    ensures SegmentAt(OverrunEntry(), 0) == Segment(PT_LOAD, 0, 0x10_0000, 4097, 1)
  {
  }

  const OVERRUN := Segment(PT_LOAD, 0, 0x10_0000, 4097, 1)

  lemma OverrunFileRead()
    ensures HasTable(OverrunFile()) && Segments(OverrunFile()) == [OVERRUN]
  {
    var content := OverrunFile();
    hide OverrunFile, OverrunHeader, OverrunEntry, HeaderAt, SegmentAt, HeaderIsValid;
    OverrunHeaderRead();
    OverrunEntryRead();
    SameHeader(OverrunHeader(), content);
    assert content[EHDR_BYTES..EHDR_BYTES + PHDR_BYTES] == OverrunEntry()[0..0 + PHDR_BYTES];
    SameSegment(content, EHDR_BYTES, OverrunEntry(), 0);
    assert HasTable(content);
    assert Segments(content)[0] == OVERRUN;
  }

  lemma OverrunDoesNotFit()
    ensures BlockOf(OVERRUN) == Block(0x10_0000, PAGE_SIZE) && !Fits(OVERRUN)
  {
  }

  /** A file the header check accepts, whose one segment overruns its one page: loading
      it changes a byte of whatever block lies behind. */
  lemma OverrunChangesNeighbour(m: seq<byte>, n: seq<byte>)
    requires 0x10_2000 <= |m| && m[0x10_1000] != 7
    ensures HasTable(OverrunFile()) && Segments(OverrunFile()) == [OVERRUN] && !Fitting(OverrunFile())
    ensures Apart(BlockOf(OVERRUN), Block(0x10_1000, PAGE_SIZE))
    ensures LoadedFrom(m, n, OverrunFile(), OVERRUN) ==> |n| == |m| && n[0x10_1000] == 7
  {
    OverrunFileRead();
    OverrunDoesNotFit();
    assert Segments(OverrunFile())[0] == OVERRUN;
    if LoadedFrom(m, n, OverrunFile(), OVERRUN) {
      LastStoredByte(n, OverrunFile(), OVERRUN);
    }
    hide *;
  }

  lemma LastStoredByte(m: seq<byte>, content: seq<byte>, seg: Segment)
    requires Loaded(m, content, seg) && seg.filesz > 0
    ensures seg.paddr + seg.filesz <= |m| && seg.offset + seg.filesz <= |content|
    ensures m[seg.paddr + seg.filesz - 1] == content[seg.offset + seg.filesz - 1]
  {
    var k := seg.filesz - 1;
    assert m[seg.paddr..seg.paddr + seg.filesz][k] == content[seg.offset..seg.offset + seg.filesz][k];
  }

  // ---- the whole image ------------------------------------------------------------------

  /** Blocks of the loadable segments. */
  function SegmentBlocks(segments: seq<Segment>): set<Block> {
    if segments == [] then {}
    else
      var n := |segments| - 1;
      SegmentBlocks(segments[..n]) + (if segments[n].kind == PT_LOAD then {BlockOf(segments[n])} else {})
  }

  lemma {:induction false} InSegmentBlocks(segments: seq<Segment>, b: Block)
    ensures b in SegmentBlocks(segments) <==>
            exists i :: 0 <= i < |segments| && segments[i].kind == PT_LOAD && b == BlockOf(segments[i])
  {
    if segments != [] {
      var n := |segments| - 1;
      InSegmentBlocks(segments[..n], b);
      assert forall i :: 0 <= i < n ==> segments[..n][i] == segments[i];
    }
  }

  ghost predicate Within(blocks: set<Block>, a: nat) {
    exists b :: b in blocks && b.base <= a < b.base + b.size
  }

  /** The program header table, copied from the file, is what memory holds at `base`. */
  ghost predicate TableAt(m: seq<byte>, base: nat, content: seq<byte>)
    requires HasTable(content)
  {
    var eh := HeaderAt(content, 0);
    var size := eh.phnum * PHDR_BYTES;
    base + size <= |m| && m[base..base + size] == content[eh.phoff..eh.phoff + size]
  }

  lemma EntryOfTable(m: seq<byte>, base: nat, content: seq<byte>, phoff: nat, size: nat, k: nat)
    requires base + size <= |m| && phoff + size <= |content| && k + PHDR_BYTES <= size
    requires m[base..base + size] == content[phoff..phoff + size]
    ensures SegmentAt(m, base + k) == SegmentAt(content, phoff + k)
  {
    hide SegmentAt;
    var table := content[phoff..phoff + size];
    SliceOfSlice(m, base, table, k, k + PHDR_BYTES);
    SliceOfSlice(content, phoff, table, k, k + PHDR_BYTES);
    SameSegment(m, base + k, content, phoff + k);
  }

  lemma SegmentInFile(content: seq<byte>, i: nat)
    requires HasTable(content) && i < |Segments(content)|
    ensures var eh := HeaderAt(content, 0);
      && i < eh.phnum && eh.phoff + i * PHDR_BYTES + PHDR_BYTES <= |content|
      && Segments(content)[i] == SegmentAt(content, eh.phoff + i * PHDR_BYTES)
  {
    hide SegmentAt, HeaderAt, HeaderIsValid;
  }

  lemma SegmentFromTable(m: seq<byte>, base: nat, content: seq<byte>, i: nat)
    requires HasTable(content) && TableAt(m, base, content) && i < |Segments(content)|
    ensures base + i * PHDR_BYTES + PHDR_BYTES <= |m|
    ensures SegmentAt(m, base + i * PHDR_BYTES) == Segments(content)[i]
  {
    hide SegmentAt, HeaderAt, HeaderIsValid, Segments;
    SegmentInFile(content, i);
    var eh := HeaderAt(content, 0);
    EntryOfTable(m, base, content, eh.phoff, eh.phnum * PHDR_BYTES, i * PHDR_BYTES);
  }

  lemma SameSegment(m: seq<byte>, a: nat, n: seq<byte>, c: nat)
    requires a + PHDR_BYTES <= |m| && c + PHDR_BYTES <= |n|
    requires m[a..a + PHDR_BYTES] == n[c..c + PHDR_BYTES]
    ensures SegmentAt(m, a) == SegmentAt(n, c)
  {
    Same32(m, a, n, c, 0);
    Same64(m, a, n, c, 8);
    Same64(m, a, n, c, 24);
    Same64(m, a, n, c, 32);
    Same64(m, a, n, c, 40);
    hide Get32, Get64;
  }

  lemma SameByte(m: seq<byte>, a: nat, n: seq<byte>, c: nat, k: nat)
    requires a + PHDR_BYTES <= |m| && c + PHDR_BYTES <= |n| && k < PHDR_BYTES
    requires m[a..a + PHDR_BYTES] == n[c..c + PHDR_BYTES]
    ensures m[a + k] == n[c + k]
  {
    assert m[a..a + PHDR_BYTES][k] == n[c..c + PHDR_BYTES][k];
  }

  lemma Same32(m: seq<byte>, a: nat, n: seq<byte>, c: nat, k: nat)
    requires k + 4 <= PHDR_BYTES && a + PHDR_BYTES <= |m| && c + PHDR_BYTES <= |n|
    requires m[a..a + PHDR_BYTES] == n[c..c + PHDR_BYTES]
    ensures Get32(m, a + k) == Get32(n, c + k)
  {
    SameByte(m, a, n, c, k);
    SameByte(m, a, n, c, k + 1);
    SameByte(m, a, n, c, k + 2);
    SameByte(m, a, n, c, k + 3);
  }

  lemma Same64(m: seq<byte>, a: nat, n: seq<byte>, c: nat, k: nat)
    requires k + 8 <= PHDR_BYTES && a + PHDR_BYTES <= |m| && c + PHDR_BYTES <= |n|
    requires m[a..a + PHDR_BYTES] == n[c..c + PHDR_BYTES]
    ensures Get64(m, a + k) == Get64(n, c + k)
  {
    Same32(m, a, n, c, k);
    Same32(m, a, n, c, k + 4);
    hide Get32;
  }

  /** Everything a write inside one block cannot disturb in a block apart from it. */
  lemma LoadedApart(m: seq<byte>, n: seq<byte>, content: seq<byte>, seg: Segment, b: Block)
    requires Loaded(m, content, seg) && Fits(seg) && Apart(BlockOf(seg), b)
    requires AgreeOutside(m, n, b.base, b.base + b.size)
    ensures Loaded(n, content, seg)
  {
    hide PagesFor;
    assert forall k :: seg.paddr <= k < seg.paddr + Stored(seg) ==> n[k] == m[k];
    if seg.filesz > 0 {
      assert n[seg.paddr..seg.paddr + seg.filesz] == m[seg.paddr..seg.paddr + seg.filesz];
    }
  }

  lemma TableApart(m: seq<byte>, n: seq<byte>, content: seq<byte>, table: Block, b: Block)
    requires HasTable(content) && TableAt(m, table.base, content) && Apart(table, b)
    requires table.size == HeaderAt(content, 0).phnum * PHDR_BYTES
    requires AgreeOutside(m, n, b.base, b.base + b.size)
    ensures TableAt(n, table.base, content)
  {
    assert forall k :: table.base <= k < table.base + table.size ==> n[k] == m[k];
    assert n[table.base..table.base + table.size] == m[table.base..table.base + table.size];
  }

  /** Progress of the segment loop: the first `i` headers are in place. */
  ghost predicate InPlace(content: seq<byte>, table: Block, live0: set<Block>, m0: seq<byte>,
                          live: set<Block>, m: seq<byte>, i: nat)
  {
    && HasTable(content) && i <= |Segments(content)|
    && table.size == HeaderAt(content, 0).phnum * PHDR_BYTES && TableAt(m, table.base, content)
    && live == live0 + {table} + SegmentBlocks(Segments(content)[..i]) && table !in live0
    && table !in SegmentBlocks(Segments(content)[..i]) && SegmentBlocks(Segments(content)[..i]) !! live0
    && AllLoaded(m, content, i)
    && |m| == |m0| && forall a :: 0 <= a < |m| && !Within(live - live0, a) ==> m[a] == m0[a]
  }

  ghost predicate AllLoaded(m: seq<byte>, content: seq<byte>, i: nat)
    requires HasTable(content) && i <= |Segments(content)|
  {
    forall j :: 0 <= j < i && Segments(content)[j].kind == PT_LOAD ==>
                  && Loaded(m, content, Segments(content)[j]) && Fits(Segments(content)[j])
                  && Segments(content)[j].paddr % PAGE_SIZE == 0
  }

  lemma SkippedSegment(content: seq<byte>, table: Block, live0: set<Block>, m0: seq<byte>,
                       live: set<Block>, m: seq<byte>, i: nat)
    requires InPlace(content, table, live0, m0, live, m, i) && i < |Segments(content)|
    requires Segments(content)[i].kind != PT_LOAD
    ensures InPlace(content, table, live0, m0, live, m, i + 1)
  {
    hide Segments, Loaded, TableAt, HasTable, HeaderAt;
    var segs := Segments(content);
    assert segs[..i + 1][..i] == segs[..i];
  }

  /** Segments already in place survive a write inside a block apart from them. */
  lemma EarlierSegmentsKept(content: seq<byte>, m: seq<byte>, m': seq<byte>, i: nat, b: Block)
    requires HasTable(content) && i <= |Segments(content)| && AllLoaded(m, content, i)
    requires AgreeOutside(m, m', b.base, b.base + b.size)
    requires forall a :: a in SegmentBlocks(Segments(content)[..i]) ==> Apart(a, b)
    ensures AllLoaded(m', content, i)
  {
    var segs := Segments(content);
    hide Segments, Loaded, Fits, BlockOf, HasTable, Apart;
    forall j | 0 <= j < i && segs[j].kind == PT_LOAD ensures Loaded(m', content, segs[j]) {
      assert segs[..i][j] == segs[j];
      InSegmentBlocks(segs[..i], BlockOf(segs[j]));
      LoadedApart(m, m', content, segs[j], b);
    }
  }

  lemma OneMoreSegment(content: seq<byte>, table: Block, live0: set<Block>, m0: seq<byte>,
                       live: set<Block>, m: seq<byte>, i: nat, live': set<Block>, m': seq<byte>)
    requires InPlace(content, table, live0, m0, live, m, i) && i < |Segments(content)|
    requires Segments(content)[i].kind == PT_LOAD
    requires var b := BlockOf(Segments(content)[i]);
      && live' == live + {b} && b !in live && (forall a :: a in live ==> Apart(a, b))
      && AgreeOutside(m, m', b.base, b.base + b.size)
    requires Loaded(m', content, Segments(content)[i]) && Fits(Segments(content)[i])
    requires Segments(content)[i].paddr % PAGE_SIZE == 0
    ensures InPlace(content, table, live0, m0, live', m', i + 1)
  {
    hide Segments, Loaded, Fits, BlockOf, TableAt, HasTable, HeaderAt, Apart;
    var segs := Segments(content);
    var b := BlockOf(segs[i]);
    assert segs[..i + 1][..i] == segs[..i];
    TableApart(m, m', content, table, b);
    EarlierSegmentsKept(content, m, m', i, b);
    assert AllLoaded(m', content, i + 1);
    hide AllLoaded;
    FrameGrows(m0, m, m', live - live0, live' - live0, b);
  }

  lemma FrameGrows(m0: seq<byte>, m: seq<byte>, m': seq<byte>, blocks: set<Block>, blocks': set<Block>, b: Block)
    requires |m| == |m0| && blocks' >= blocks + {b} && AgreeOutside(m, m', b.base, b.base + b.size)
    requires forall a :: 0 <= a < |m| && !Within(blocks, a) ==> m[a] == m0[a]
    ensures |m'| == |m0| && forall a :: 0 <= a < |m'| && !Within(blocks', a) ==> m'[a] == m0[a]
  {
    forall a | 0 <= a < |m'| && !Within(blocks', a) ensures m'[a] == m0[a] {
      assert !Within(blocks, a);
      assert b in blocks';
    }
  }

  /** The header, read into the loader's own stack frame. */
  method ReadHeader(file: File) returns (status: Status, eh: Header)
    requires !file.failed
    modifies file
    ensures status == Success <==> !file.failed && EHDR_BYTES <= |file.content|
    ensures status != Success && !file.failed ==> status == LoadError
    ensures status == Success ==> eh == HeaderAt(file.content, 0)
    ensures |eh.ident| == 16
  {
    var frame := new Ram(seq(EHDR_BYTES, _ => 0));
    status := ReadAt(file, 0, frame, 0, EHDR_BYTES);
    assert status == Success ==> frame.cells == file.content[..EHDR_BYTES] by {
      if status == Success {
        assert frame.cells[0..0 + EHDR_BYTES] == frame.cells;
        assert file.content[0..0 + EHDR_BYTES] == file.content[..EHDR_BYTES];
      }
    }
    hide Get64, Get16;
    eh := HeaderAt(frame.cells, 0);
    if status == Success {
      SameHeader(frame.cells, file.content);
    }
  }

  lemma SameHeader(m: seq<byte>, content: seq<byte>)
    requires EHDR_BYTES <= |content| && m == content[..EHDR_BYTES]
    ensures HeaderAt(m, 0) == HeaderAt(content, 0)
  {
    assert forall k :: 0 <= k < EHDR_BYTES ==> m[k] == content[k];
  }

  ghost predicate SomeLoadable(content: seq<byte>, i: nat)
    requires HasTable(content) && i <= |Segments(content)|
  {
    exists j :: 0 <= j < i && Segments(content)[j].kind == PT_LOAD
  }

  ghost predicate AllInFile(content: seq<byte>, i: nat)
    requires HasTable(content) && i <= |Segments(content)|
  {
    forall j :: 0 <= j < i && Segments(content)[j].kind == PT_LOAD ==> InFile(content, Segments(content)[j])
  }

  /** Nothing was written but the segments' pages and the table. */
  ghost predicate OnlyImageWritten(content: seq<byte>, table: Block, m0: seq<byte>, m: seq<byte>) {
    && |m| == |m0|
    && forall a :: 0 <= a < |m| && !Within(Reach(content) + {table}, a) ==> m[a] == m0[a]
  }

  ghost function Reach(content: seq<byte>): set<Block> {
    if HasTable(content) then SegmentBlocks(Segments(content)) else {}
  }

  /** The pass over the program headers. What it reads as headers is the file's table
      as long as every segment fits its pages. */
  method LoadSegments(fw: Platform, file: File, table: u64, phnum: u64, ghost live0: set<Block>, ghost m0: seq<byte>)
    returns (status: Status, loaded: nat)
    requires fw.Valid() && !fw.exited && !file.failed && HasTable(file.content)
    requires phnum == |Segments(file.content)|
    requires InPlace(file.content, Block(table, phnum * PHDR_BYTES), live0, m0, fw.live, fw.ram.cells, 0)
    modifies fw`rows, fw`key, fw`live, fw`refusals, fw.ram, file
    ensures fw.Valid() && |fw.ram.cells| == |m0| && old(fw.live) <= fw.live && old(fw.refusals) <= fw.refusals
    ensures status == Success ==> !file.failed && fw.refusals == old(fw.refusals)
    ensures Fitting(file.content) && status == Success ==>
      InPlace(file.content, Block(table, phnum * PHDR_BYTES), live0, m0, fw.live, fw.ram.cells, phnum)
    ensures Fitting(file.content) && status == Success ==> (loaded > 0 <==> SomeLoadable(file.content, phnum))
    ensures Fitting(file.content) ==>
      OnlyImageWritten(file.content, Block(table, phnum * PHDR_BYTES), m0, fw.ram.cells)
    ensures Fitting(file.content) ==>
      (status == Success <==> !file.failed && fw.refusals == old(fw.refusals) && AllInFile(file.content, phnum))
  {
    hide Reportable, Owned, InPlace, Segments, HasTable, Loaded, Fits, BlockOf, Stored, InFile, OnlyImageWritten, Fitting;
    hide SomeLoadable, AllInFile, AgreeOutside, Apart, SegmentAt, TableAt;
    ghost var block := Block(table, phnum * PHDR_BYTES);
    ghost var content := file.content;
    loaded := 0;
    var i: u64 := 0;
    TableIsLive(content, block, live0, m0, fw.live, fw.ram.cells, 0);
    NoneSoFar(content);
    while i < phnum
      invariant i <= phnum && fw.Valid() && !file.failed && fw.refusals == old(fw.refusals)
      invariant old(fw.live) <= fw.live && |fw.ram.cells| == |m0|
      invariant Fitting(content) ==> InPlace(content, block, live0, m0, fw.live, fw.ram.cells, i)
      invariant Fitting(content) ==> (loaded > 0 <==> SomeLoadable(content, i)) && AllInFile(content, i)
    {
      ghost var live, m := fw.live, fw.ram.cells;
      EntryInRam(fw, table, phnum, i);
      var seg := SegmentAt(fw.ram.cells, table + i * PHDR_BYTES);
      if Fitting(content) {
        TableIsLive(content, block, live0, m0, live, m, i);
        SegmentFromTable(m, table, content, i);
        FittingSegment(content, i);
        FitsIsBacked(seg, |fw.ram.cells|);
      }
      OneMoreHeader(content, i);
      if seg.kind != PT_LOAD {
        if Fitting(content) {
          SkippedSegment(content, block, live0, m0, live, m, i);
        }
      } else {
        status := LoadSegment(fw, file, seg);
        if Fitting(content) {
          WrittenSoFar(content, block, live0, m0, live, m, i, fw.ram.cells);
        }
        if status != Success {
          return;
        }
        if Fitting(content) {
          OneMoreSegment(content, block, live0, m0, live, m, i, fw.live, fw.ram.cells);
        }
        loaded := loaded + 1;
      }
      i := i + 1;
    }
    if Fitting(content) {
      WrittenAtEnd(content, block, live0, m0, fw.live, fw.ram.cells);
    }
    status := Success;
  }

  lemma NoneSoFar(content: seq<byte>)
    requires HasTable(content)
    ensures AllInFile(content, 0) && !SomeLoadable(content, 0)
  {
  }

  lemma OneMoreHeader(content: seq<byte>, i: nat)
    requires HasTable(content) && i < |Segments(content)|
    ensures SomeLoadable(content, i + 1) <==> SomeLoadable(content, i) || Segments(content)[i].kind == PT_LOAD
    ensures AllInFile(content, i + 1) <==>
              AllInFile(content, i) && (Segments(content)[i].kind == PT_LOAD ==> InFile(content, Segments(content)[i]))
    ensures AllInFile(content, |Segments(content)|) ==> AllInFile(content, i + 1)
  {
    hide HasTable, Segments, InFile;
  }

  lemma FitsIsBacked(seg: Segment, memory: nat)
    ensures Fits(seg) ==> Backed(seg, memory)
  {
  }

  lemma EntryInRam(fw: Platform, table: nat, phnum: nat, i: nat)
    requires fw.Valid() && Block(table, phnum * PHDR_BYTES) in fw.live && i < phnum
    ensures table + i * PHDR_BYTES + PHDR_BYTES <= table + phnum * PHDR_BYTES <= |fw.ram.cells|
    ensures |fw.ram.cells| < 0x1_0000_0000_0000_0000
  {
    hide Reportable, OnlyLoaderData;
  }

  /** Stores inside the next segment's pages are stores inside the image. */
  lemma WrittenSoFar(content: seq<byte>, table: Block, live0: set<Block>, m0: seq<byte>,
                     live: set<Block>, m: seq<byte>, i: nat, m': seq<byte>)
    requires InPlace(content, table, live0, m0, live, m, i) && i < |Segments(content)|
    requires Segments(content)[i].kind == PT_LOAD
    requires var b := BlockOf(Segments(content)[i]); AgreeOutside(m, m', b.base, b.base + b.size)
    ensures OnlyImageWritten(content, table, m0, m')
  {
    hide HasTable, Segments, BlockOf, AllLoaded, TableAt, Within;
    var segs := Segments(content);
    InSegmentBlocks(segs, BlockOf(segs[i]));
    PrefixBlocks(segs, i);
    FrameGrows(m0, m, m', live - live0, SegmentBlocks(segs) + {table}, BlockOf(segs[i]));
  }

  lemma WrittenAtEnd(content: seq<byte>, table: Block, live0: set<Block>, m0: seq<byte>, live: set<Block>, m: seq<byte>)
    requires HasTable(content) && InPlace(content, table, live0, m0, live, m, |Segments(content)|)
    ensures OnlyImageWritten(content, table, m0, m)
  {
    hide HasTable, Segments, AllLoaded, TableAt;
    var segs := Segments(content);
    assert segs[..|segs|] == segs;
    assert live - live0 == SegmentBlocks(segs) + {table};
  }

  lemma PrefixBlocks(segs: seq<Segment>, i: nat)
    requires i <= |segs|
    ensures SegmentBlocks(segs[..i]) <= SegmentBlocks(segs)
  {
    forall b | b in SegmentBlocks(segs[..i]) ensures b in SegmentBlocks(segs) {
      InSegmentBlocks(segs[..i], b);
      InSegmentBlocks(segs, b);
    }
  }

  lemma TableIsLive(content: seq<byte>, table: Block, live0: set<Block>, m0: seq<byte>,
                    live: set<Block>, m: seq<byte>, i: nat)
    requires InPlace(content, table, live0, m0, live, m, i)
    ensures table in live && HasTable(content) && TableAt(m, table.base, content) && |m| == |m0|
  {
  }

  lemma FittingSegment(content: seq<byte>, i: nat)
    requires HasTable(content) && Fitting(content) && i < |Segments(content)|
    ensures Segments(content)[i].kind == PT_LOAD ==> Fits(Segments(content)[i])
  {
  }

  /** What a successful load means, from the blocks and memory before it. */
  ghost predicate ImageLoaded(content: seq<byte>, live0: set<Block>, m0: seq<byte>,
                              live: set<Block>, m: seq<byte>, entry: u64, table: Block)
  {
    && HasTable(content) && entry == HeaderAt(content, 0).entry
    && SomeLoadable(content, |Segments(content)|)
    && AllLoaded(m, content, |Segments(content)|)
    && live == live0 + SegmentBlocks(Segments(content)) && SegmentBlocks(Segments(content)) !! live0
    && (forall b :: b in live ==> Apart(b, table))
    && |m| == |m0|
    && forall a :: 0 <= a < |m| && !Within(SegmentBlocks(Segments(content)) + {table}, a) ==> m[a] == m0[a]
  }

  lemma StartInPlace(content: seq<byte>, table: Block, live0: set<Block>, m0: seq<byte>, live: set<Block>, m: seq<byte>)
    requires HasTable(content) && table.size == HeaderAt(content, 0).phnum * PHDR_BYTES
    requires live == live0 + {table} && table !in live0
    requires var eh := HeaderAt(content, 0);
      table.base + table.size <= |m0|
      && m == Splice(m0, table.base, content[eh.phoff..eh.phoff + table.size])
    ensures InPlace(content, table, live0, m0, live, m, 0)
  {
    var eh := HeaderAt(content, 0);
    var data := content[eh.phoff..eh.phoff + table.size];
    assert |data| == table.size;
    hide Splice, HeaderAt, HasTable, Segments;
    assert Segments(content)[..0] == [];
    forall a | 0 <= a < |m| && !Within(live - live0, a) ensures m[a] == m0[a] {
      assert table in live - live0;
    }
  }

  lemma DoneInPlace(content: seq<byte>, table: Block, live0: set<Block>, m0: seq<byte>,
                    live: set<Block>, m: seq<byte>, entry: u64)
    requires HasTable(content) && InPlace(content, table, live0, m0, live, m, |Segments(content)|)
    requires SomeLoadable(content, |Segments(content)|) && entry == HeaderAt(content, 0).entry
    requires forall a, b :: a in live && b in live && a != b ==> Apart(a, b)
    ensures ImageLoaded(content, live0, m0, live - {table}, m, entry, table)
  {
    var segs := Segments(content);
    assert segs[..|segs|] == segs;
    hide Segments, HasTable, HeaderAt, TableAt, AllLoaded, SomeLoadable, SegmentBlocks, Apart;
    assert live - live0 == SegmentBlocks(segs) + {table};
    assert live - {table} == live0 + SegmentBlocks(segs);
  }

  /** A file the loader can load: an acceptable header, a table and segment bytes inside
      the file, and something to load. */
  ghost predicate Loadable(content: seq<byte>) {
    && HasTable(content) && AllInFile(content, |Segments(content)|)
    && SomeLoadable(content, |Segments(content)|)
  }

  /** Loads the kernel: header, program header table, segments. If every segment fits
      its pages, it succeeds exactly for a loadable file when no call fails and no
      allocation is refused; every loadable segment is then in place in its own pages,
      owned by the loader. The table is given back on every way out. Nothing but those pages and the table's pool memory is
      written, whatever the outcome. */
  method ElfLoadKernel(fw: Platform, file: File) returns (status: Status, entry: u64, ghost table: Block)
    requires fw.Valid() && !fw.exited && !file.failed
    modifies fw`rows, fw`key, fw`live, fw`refusals, fw.ram, file
    ensures fw.Valid() && |fw.ram.cells| == |old(fw.ram.cells)| && old(fw.live) <= fw.live
    ensures old(fw.refusals) <= fw.refusals
    ensures Fitting(file.content) && status == Success ==>
      ImageLoaded(file.content, old(fw.live), old(fw.ram.cells), fw.live, fw.ram.cells, entry, table)
    ensures Fitting(file.content) ==>
      (status == Success <==> !file.failed && fw.refusals == old(fw.refusals) && Loadable(file.content))
    ensures Fitting(file.content) ==> OnlyImageWritten(file.content, table, old(fw.ram.cells), fw.ram.cells)
    ensures !file.failed && |file.content| < EHDR_BYTES ==> status == LoadError
    ensures !file.failed && EHDR_BYTES <= |file.content| && !HeaderIsValid(HeaderAt(file.content, 0)) ==> status == LoadError
    ensures table.size > 0 ==> table !in fw.live
    ensures status == Success ==> !file.failed && fw.refusals == old(fw.refusals)
    ensures status == Success ==> HasTable(file.content) && entry == HeaderAt(file.content, 0).entry
    ensures status != Success ==> entry == 0
  {
    hide Reportable, Owned, InPlace, ImageLoaded, Segments, Splice, HeaderAt, AllLoaded, Fitting, AllInFile, SomeLoadable;
    entry, table := 0, Block(0, 0);
    ghost var live0, m0, content := fw.live, fw.ram.cells, file.content;
    var eh;
    status, eh := ReadHeader(file);
    if status != Success {
      return;
    }
    if !HeaderIsValid(eh) {
      return LoadError, 0, table;
    }
    var size: u64 := eh.phnum * PHDR_BYTES;
    var base;
    status, base := fw.AllocatePool(size);
    if status != Success {
      return;
    }
    table := Block(base, size);
    status := ReadAt(file, eh.phoff, fw.ram, base, size);
    TableWritten(content, table, m0, fw.ram.cells);
    if status != Success {
      fw.FreePool(Block(base, size));
      return;
    }
    StartInPlace(content, table, live0, m0, fw.live, fw.ram.cells);
    var loaded;
    status, loaded := LoadSegments(fw, file, base, eh.phnum, live0, m0);
    if status != Success {
      fw.FreePool(Block(base, size));
      return;
    }
    ghost var live := fw.live;
    OwnedApart(fw.rows, live, |fw.ram.cells|);
    fw.FreePool(Block(base, size));
    if loaded == 0 {
      return LoadError, 0, table;
    }
    if Fitting(content) {
      DoneInPlace(content, table, live0, m0, live, fw.ram.cells, eh.entry);
    }
    return Success, eh.entry, table;
  }

  lemma TableWritten(content: seq<byte>, table: Block, m0: seq<byte>, m: seq<byte>)
    requires AgreeOutside(m0, m, table.base, table.base + table.size)
    ensures OnlyImageWritten(content, table, m0, m)
  {
    hide HasTable, Segments, SegmentBlocks;
    forall a | 0 <= a < |m| && !Within(Reach(content) + {table}, a) ensures m[a] == m0[a] {
      assert table in Reach(content) + {table};
    }
  }

  lemma OwnedApart(rows: seq<MapImage.Row>, live: set<Block>, memory: nat)
    requires Owned(rows, live, memory)
    ensures forall a, b :: a in live && b in live && a != b ==> Apart(a, b)
  {
  }
}
