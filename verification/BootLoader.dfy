/** The boot sequence: the memory-map buffer, the BootInfo page, and leaving boot services. */
module BootLoader {
  import opened Words
  import opened Storage
  import opened MemoryMap
  import opened MapImage
  import opened Firmware
  import opened ElfFile

  const MAGIC := 0x3130_534F_4652_594E

  /** The memory map as the loader keeps it: a buffer of fixed capacity, reused on
      every refresh. A base of 0 is the null pointer. */
  class MapBuffer {
    var base: u64
    var size: u64
    var key: nat
    var stride: u64
    var capacity: u64

    constructor ()
      ensures base == 0
    {
      base, size, key, stride, capacity := 0, 0, 0, 0, 0;
    }

    function Buffer(): Block
      reads this
    {
      Block(base, capacity)
    }

    /** The buffer, once allocated, belongs to the loader. */
    ghost predicate Held(fw: Platform)
      reads this, fw
    {
      base != 0 ==> Buffer() in fw.live
    }

    /** What the fields say when the last refresh succeeded. */
    ghost predicate Current(fw: Platform)
      reads this, fw
    {
      base != 0 && size == |Image(fw.rows)| && size <= capacity && key == fw.key && stride == fw.stride
    }

    /** Refreshes the map. The first call sizes the buffer by a probe, adds slack for
        eight descriptors and allocates it. */
    method Refresh(fw: Platform) returns (status: Status, ghost opening: seq<Call>)
      requires fw.Valid() && !fw.exited && Held(fw)
      modifies this, fw`rows, fw`key, fw`live, fw`log, fw`refusals, fw.ram
      ensures fw.Valid() && Held(fw) && old(fw.live) <= fw.live
      ensures old(base) != 0 ==>
        fw.log == old(fw.log) + [MapRead(status == Success, fw.key, |Image(fw.rows)|)] && key == fw.key
      ensures old(base) != 0 ==> fw.refusals == old(fw.refusals)
      ensures old(base) == 0 ==> |opening| == (if fw.refusals == old(fw.refusals) then 2 else 1)
      ensures old(base) == 0 ==> fw.log == old(fw.log) + opening && opening[0].MapRead? && !opening[0].ok
      ensures old(base) == 0 ==> old(fw.refusals) <= fw.refusals <= old(fw.refusals) + 1
      ensures old(base) == 0 && fw.refusals == old(fw.refusals) ==>
        && base != 0 && capacity == opening[0].size + 8 * fw.stride
        && opening[1] == MapRead(status == Success, fw.key, |Image(fw.rows)|) && key == fw.key
        && (status == Success <==> opening[1].size <= capacity)
      ensures old(base) == 0 && fw.refusals != old(fw.refusals) ==> status != Success
      ensures old(base) != 0 ==> base == old(base) && capacity == old(capacity) && fw.live == old(fw.live)
      ensures old(base) == 0 ==> fw.live == old(fw.live) || (base != 0 && fw.live == old(fw.live) + {Buffer()})
      ensures old(base) == 0 && base != 0 ==> forall b :: b in old(fw.live) ==> Apart(b, Buffer())
      ensures status == Success ==> Current(fw) && MapWritten(old(fw.ram.cells), fw.ram.cells, base, fw.rows)
      ensures status != Success ==> fw.ram.cells == old(fw.ram.cells)
      ensures fw.quiet && old(base) != 0 ==> fw.rows == old(fw.rows) && fw.key == old(fw.key)
      ensures old(base) != 0 ==> (status == Success <==> |Image(fw.rows)| <= capacity)
    {
      hide Reportable, Owned, Image, Splice, Apart;
      opening := [];
      if base == 0 {
        var probe, now;
        status, probe, now := fw.GetMemoryMap(0, 0);
        opening := [MapRead(false, now, probe)];
        assert status == BufferTooSmall;
        stride := fw.stride;
        SmallEnough(fw);
        capacity := probe + 8 * stride;
        var where_;
        status, where_ := fw.AllocatePool(capacity);
        if status != Success {
          return;
        }
        base := where_;
      }
      BlockInRam(fw, Buffer());
      var used, now;
      status, used, now := fw.GetMemoryMap(base, capacity);
      size, key, stride := used, now, fw.stride;
      opening := opening + [MapRead(status == Success, now, used)];
    }
  }

  /** `m` is `m0` with the map's image at `base`. */
  ghost predicate MapWritten(m0: seq<byte>, m: seq<byte>, base: nat, rows: seq<Row>) {
    base + |Image(rows)| <= |m0| && m == Splice(m0, base, Image(rows))
  }

  lemma SmallEnough(fw: Platform)
    requires fw.Valid()
    ensures |Image(fw.rows)| + 8 * fw.stride < 0x1_0000_0000_0000_0000
  {
  }

  lemma BlockInRam(fw: Platform, b: Block)
    requires fw.Valid() && b in fw.live
    ensures b.base + b.size <= |fw.ram.cells|
  {
  }

  // ---- publishing the map and leaving ------------------------------------------------

  /** Writes the three map fields of BootInfo. */
  method PublishMap(ram: Ram, bi: u64, info: MapInfo)
    requires bi + BOOT_INFO_BYTES <= |ram.cells| && bi + BOOT_INFO_BYTES < 0x1_0000_0000_0000_0000
    modifies ram
    ensures |ram.cells| == |old(ram.cells)| && MapInfoAt(ram.cells, bi) == info
    ensures AgreeOutside(old(ram.cells), ram.cells, bi + 40, bi + 64)
  {
    hide Splice, Get64;
    Get64OfSplice(ram.cells, bi + 40, info.ptr);
    ram.Write(bi + 40, Bytes64(info.ptr));
    ghost var m1 := ram.cells;
    Get64OfSplice(ram.cells, bi + 48, info.size);
    ram.Write(bi + 48, Bytes64(info.size));
    ghost var m2 := ram.cells;
    Get64Agrees(m1, m2, bi + 40);
    Get64OfSplice(ram.cells, bi + 56, info.stride);
    ram.Write(bi + 56, Bytes64(info.stride));
    Get64Agrees(m2, ram.cells, bi + 40);
    Get64Agrees(m2, ram.cells, bi + 48);
  }

  /** The address is neither in the map buffer nor among BootInfo's map fields. */
  predicate Elsewhere(a: nat, buffer: Block, bi: nat) {
    !(buffer.base <= a < buffer.base + buffer.size) && !(bi + 40 <= a < bi + 64)
  }

  ghost predicate OnlyHandOverWritten(m0: seq<byte>, m: seq<byte>, buffer: Block, bi: nat) {
    |m| == |m0| && forall a :: 0 <= a < |m| && Elsewhere(a, buffer, bi) ==> m[a] == m0[a]
  }

  /** After a refresh and a publication BootInfo describes the firmware's current map. */
  lemma Published(m0: seq<byte>, m1: seq<byte>, m2: seq<byte>, rows: seq<Row>, info: MapInfo,
                  buffer: Block, bi: nat, memory: nat)
    requires Reportable(rows, info.stride, memory) && info.size == |Image(rows)| <= buffer.size
    requires info.ptr == buffer.base && MapWritten(m0, m1, buffer.base, rows)
    requires AgreeOutside(m1, m2, bi + 40, bi + 64) && Apart(Block(bi, PAGE_SIZE), buffer)
    requires bi + BOOT_INFO_BYTES <= |m2| && MapInfoAt(m2, bi) == info
    ensures HandsOver(m2, bi, info, DescriptorsOf(rows))
    ensures OnlyHandOverWritten(m0, m2, buffer, bi)
  {
    hide Image, Splice, Get64;
    ImageReadsBack(m1, rows, info);
    hide Descriptors;
    DescriptorsAgree(m1, m2, info);
  }

  lemma OnlyHandOverTwice(m0: seq<byte>, m1: seq<byte>, m2: seq<byte>, buffer: Block, bi: nat)
    requires OnlyHandOverWritten(m0, m1, buffer, bi) && OnlyHandOverWritten(m1, m2, buffer, bi)
    ensures OnlyHandOverWritten(m0, m2, buffer, bi)
  {
  }

  /** What happened in one attempt: whether the refresh succeeded, the key and size it
      reported, and the key of the map current at the exit call. */
  datatype Try = Try(refreshed: bool, published: nat, size: nat, current: nat)

  /** The refresh succeeded and the map did not move before the exit call. */
  predicate Settled(t: Try) {
    t.refreshed && t.published == t.current
  }

  /** The calls the firmware sees in one attempt: a map read and, if it succeeded, an
      exit request that names the key just read. */
  function Calls(t: Try): seq<Call> {
    [MapRead(t.refreshed, t.published, t.size)] + (if t.refreshed then [ExitAsked(t.published, t.current)] else [])
  }

  function Trace(tries: seq<Try>): seq<Call> {
    if tries == [] then []
    else
      var n := |tries| - 1;
      Trace(tries[..n]) + Calls(tries[n])
  }

  /** One attempt: refresh, publish, exit, with nothing that allocates in between. */
  method TryExit(fw: Platform, mm: MapBuffer, bi: u64)
    returns (refreshed: Status, status: Status, ghost attempt: Try)
    requires fw.Valid() && !fw.exited && mm.base != 0 && mm.Held(fw)
    requires Block(bi, PAGE_SIZE) in fw.live && Block(bi, PAGE_SIZE) != mm.Buffer()
    modifies mm, fw`rows, fw`key, fw`live, fw`exited, fw`log, fw`refusals, fw.ram
    ensures fw.Valid() && mm.Held(fw) && fw.live == old(fw.live) && mm.Buffer() == old(mm.Buffer()) && mm.base != 0
    ensures OnlyHandOverWritten(old(fw.ram.cells), fw.ram.cells, mm.Buffer(), bi)
    ensures fw.exited <==> status == Success
    ensures refreshed != Success ==> status != Success
    ensures status == Success ==>
      HandsOver(fw.ram.cells, bi, MapInfo(mm.base, mm.size, mm.stride), DescriptorsOf(fw.rows))
    ensures status == Success ==> mm.Current(fw)
    ensures fw.log == old(fw.log) + Calls(attempt) && fw.refusals == old(fw.refusals)
    ensures attempt.refreshed == (refreshed == Success) && attempt.published == mm.key && attempt.current == fw.key
    ensures refreshed == Success <==> attempt.size <= mm.capacity
    ensures fw.quiet ==> attempt.published == attempt.current && attempt.size == |Image(old(fw.rows))|
    ensures status == Success <==> Settled(attempt)
    ensures refreshed == Success ==> mm.key <= fw.key
    ensures refreshed != Success ==> |Image(fw.rows)| > mm.capacity
    ensures fw.quiet && |Image(old(fw.rows))| <= mm.capacity ==> refreshed == Success && status == Success
  {
    hide Reportable, Owned, Image, MapWritten, HandsOver;
    ghost var m0 := fw.ram.cells;
    ghost var calls;
    refreshed, calls := mm.Refresh(fw);
    ghost var size := |Image(fw.rows)|;
    if refreshed != Success {
      attempt := Try(false, mm.key, size, fw.key);
      return refreshed, InvalidParameter, attempt;
    }
    ghost var m1, rows := fw.ram.cells, fw.rows;
    BlockInRam(fw, Block(bi, PAGE_SIZE));
    LiveApart(fw, Block(bi, PAGE_SIZE), mm.Buffer());
    PublishMap(fw.ram, bi, MapInfo(mm.base, mm.size, mm.stride));
    Published(m0, m1, fw.ram.cells, rows, MapInfo(mm.base, mm.size, mm.stride), mm.Buffer(), bi, |fw.ram.cells|);
    status := fw.ExitBootServices(mm.key);
    attempt := Try(true, mm.key, size, fw.key);
  }

  lemma LiveApart(fw: Platform, a: Block, b: Block)
    requires fw.Valid() && a in fw.live && b in fw.live && a != b
    ensures Apart(a, b)
  {
  }

  const MAX_ATTEMPTS := 3

  /** The retry loop around ExitBootServices. The machine is left if and only if some
      attempt settles; that attempt is then the last. */
  method LeaveBootServices(fw: Platform, mm: MapBuffer, bi: u64)
    returns (refreshed: Status, status: Status, attempts: nat, ghost tries: seq<Try>)
    requires fw.Valid() && !fw.exited && mm.base != 0 && mm.Held(fw)
    requires Block(bi, PAGE_SIZE) in fw.live && Block(bi, PAGE_SIZE) != mm.Buffer()
    modifies mm, fw`rows, fw`key, fw`live, fw`exited, fw`log, fw`refusals, fw.ram
    ensures fw.Valid() && mm.Held(fw) && fw.live == old(fw.live) && mm.Buffer() == old(mm.Buffer())
    ensures OnlyHandOverWritten(old(fw.ram.cells), fw.ram.cells, mm.Buffer(), bi)
    ensures fw.log == old(fw.log) + Trace(tries)
    ensures 1 <= attempts == |tries| <= 3 && fw.refusals == old(fw.refusals) && mm.base != 0
    ensures tries[attempts - 1].published == mm.key && tries[attempts - 1].current == fw.key
    ensures forall k :: 0 <= k < attempts ==> (tries[k].refreshed <==> tries[k].size <= mm.capacity)
    ensures fw.quiet ==> tries[0].published == tries[0].current
    ensures fw.exited <==> refreshed == Success && status == Success
    ensures fw.exited <==> exists k :: 0 <= k < attempts && Settled(tries[k])
    ensures forall k :: 0 <= k < attempts - 1 ==> tries[k].refreshed && tries[k].published < tries[k].current
    ensures refreshed == Success <==> tries[attempts - 1].refreshed
    ensures refreshed != Success ==> |Image(fw.rows)| > mm.capacity
    ensures refreshed == Success && status != Success ==> attempts == 3
    ensures refreshed == Success ==> mm.key <= fw.key
    ensures fw.exited ==>
      HandsOver(fw.ram.cells, bi, MapInfo(mm.base, mm.size, mm.stride), DescriptorsOf(fw.rows))
    ensures fw.exited ==> mm.Current(fw)
    ensures fw.quiet && |Image(old(fw.rows))| <= mm.capacity ==> fw.exited && attempts == 1
  {
    hide Reportable, Owned, Image, HandsOver, Trace, Calls, OnlyHandOverWritten;
    NothingWrittenYet(fw.ram.cells, mm.Buffer(), bi);
    ghost var m0 := fw.ram.cells;
    refreshed, status := Success, InvalidParameter;
    attempts, tries := 0, [];
    while attempts < MAX_ATTEMPTS
      invariant attempts == |tries| <= MAX_ATTEMPTS && !fw.exited && status != Success && refreshed == Success
      invariant fw.Valid() && mm.Held(fw) && mm.base != 0
      invariant fw.live == old(fw.live) && mm.Buffer() == old(mm.Buffer())
      invariant OnlyHandOverWritten(m0, fw.ram.cells, mm.Buffer(), bi)
      invariant attempts == 0 ==> fw.rows == old(fw.rows)
      invariant fw.log == old(fw.log) + Trace(tries)
      invariant fw.refusals == old(fw.refusals)
      invariant attempts > 0 ==>
        tries[attempts - 1].published == mm.key <= fw.key && tries[attempts - 1].current == fw.key
      invariant forall k :: 0 <= k < attempts ==> tries[k].size <= mm.capacity
      invariant fw.quiet && attempts > 0 ==> tries[0].published == tries[0].current
      invariant forall k :: 0 <= k < attempts ==> tries[k].refreshed && tries[k].published < tries[k].current
      invariant fw.quiet && |Image(old(fw.rows))| <= mm.capacity ==> attempts == 0
    {
      ghost var m1 := fw.ram.cells;
      attempts := attempts + 1;
      ghost var attempt;
      refreshed, status, attempt := TryExit(fw, mm, bi);
      OneMoreTry(tries, attempt);
      tries := tries + [attempt];
      OnlyHandOverTwice(m0, m1, fw.ram.cells, mm.Buffer(), bi);
      if refreshed != Success || status == Success {
        return;
      }
    }
  }

  lemma NothingWrittenYet(m: seq<byte>, buffer: Block, bi: nat)
    ensures OnlyHandOverWritten(m, m, buffer, bi) && Trace([]) == []
  {
  }

  lemma OneMoreTry(tries: seq<Try>, t: Try)
    ensures Trace(tries + [t]) == Trace(tries) + Calls(t)
    ensures |tries + [t]| == |tries| + 1 && (tries + [t])[|tries|] == t
  {
    assert (tries + [t])[..|tries|] == tries;
  }

  // ---- the whole boot ------------------------------------------------------------------

  /** What the firmware says about the framebuffer, already normalised. */
  datatype Video = Video(base: u64, size: u64, width: u32, height: u32, stride: u32, format: u32)

  /** The part of BootInfo before the map fields, byte for byte. */
  function HeadBytes(video: Video): (b: seq<byte>)
    ensures |b| == 40
  {
    Bytes64(MAGIC) + Bytes64(video.base) + Bytes64(video.size)
    + Bytes32(video.width) + Bytes32(video.height) + Bytes32(video.stride) + Bytes32(video.format)
  }

  ghost predicate HeadAt(m: seq<byte>, bi: nat, video: Video, rsdp: u64) {
    && bi + BOOT_INFO_BYTES <= |m|
    && m[bi..bi + 40] == HeadBytes(video) && Get64(m, bi + 64) == rsdp
  }

  /** The kernel reads back, at its own offsets, what the loader stored. */
  lemma HeadReadsBack(m: seq<byte>, bi: nat, video: Video, rsdp: u64)
    requires HeadAt(m, bi, video, rsdp)
    ensures Get64(m, bi) == 0x3130_534F_4652_594E && Get64(m, bi + 8) == video.base && Get64(m, bi + 16) == video.size
    ensures Get32(m, bi + 24) == video.width && Get32(m, bi + 28) == video.height
    ensures Get32(m, bi + 32) == video.stride && Get32(m, bi + 36) == video.format
    ensures Get64(m, bi + 64) == rsdp
  {
    var b := HeadBytes(video);
    var magic, base, size := Bytes64(MAGIC), Bytes64(video.base), Bytes64(video.size);
    var w, h, s, f := Bytes32(video.width), Bytes32(video.height), Bytes32(video.stride), Bytes32(video.format);
    hide Bytes32, Bytes64, Get32, Get64;
    assert b[0..8] == magic && b[8..16] == base && b[16..24] == size;
    assert b[24..28] == w && b[28..32] == h && b[32..36] == s && b[36..40] == f;
    hide HeadBytes;
    Get64At(m, bi + 0, MAGIC) by { SliceOfSlice(m, bi, b, 0, 8); }
    Get64At(m, bi + 8, video.base) by { SliceOfSlice(m, bi, b, 8, 16); }
    Get64At(m, bi + 16, video.size) by { SliceOfSlice(m, bi, b, 16, 24); }
    Get32At(m, bi + 24, video.width) by { SliceOfSlice(m, bi, b, 24, 28); }
    Get32At(m, bi + 28, video.height) by { SliceOfSlice(m, bi, b, 28, 32); }
    Get32At(m, bi + 32, video.stride) by { SliceOfSlice(m, bi, b, 32, 36); }
    Get32At(m, bi + 36, video.format) by { SliceOfSlice(m, bi, b, 36, 40); }
  }

  method WriteHead(ram: Ram, bi: u64, video: Video, rsdp: u64)
    requires bi + BOOT_INFO_BYTES <= |ram.cells| && bi + BOOT_INFO_BYTES < 0x1_0000_0000_0000_0000
    modifies ram
    ensures HeadAt(ram.cells, bi, video, rsdp)
    ensures AgreeOutside(old(ram.cells), ram.cells, bi, bi + BOOT_INFO_BYTES)
  {
    hide HeadBytes, Get64, Splice;
    ram.Write(bi, HeadBytes(video));
    ghost var m := ram.cells;
    Get64OfSplice(m, bi + 64, rsdp);
    ram.Write(bi + 64, Bytes64(rsdp));
    assert ram.cells[bi..bi + 40] == m[bi..bi + 40];
  }

  /** The map fields and the map buffer can be rewritten without disturbing the rest. */
  lemma HeadSurvives(m: seq<byte>, n: seq<byte>, bi: nat, video: Video, rsdp: u64, buffer: Block)
    requires HeadAt(m, bi, video, rsdp) && Apart(Block(bi, PAGE_SIZE), buffer)
    requires OnlyHandOverWritten(m, n, buffer, bi)
    ensures HeadAt(n, bi, video, rsdp)
  {
    hide HeadBytes, Get64;
    assert n[bi..bi + 40] == m[bi..bi + 40];
    Get64Agrees(m, n, bi + 64);
  }

  /** Loaded segments survive any change of memory outside their blocks. */
  lemma SegmentsSurvive(content: seq<byte>, m: seq<byte>, n: seq<byte>, written: set<Block>)
    requires HasTable(content) && AllLoaded(m, content, |Segments(content)|) && |m| == |n|
    requires forall a, b :: a in SegmentBlocks(Segments(content)) && b in written ==> Apart(a, b)
    requires forall a :: 0 <= a < |m| && !Within(written, a) ==> n[a] == m[a]
    ensures AllLoaded(n, content, |Segments(content)|)
  {
    var segs := Segments(content);
    hide Segments, HasTable, HeaderAt, Loaded, Fits, BlockOf;
    forall j | 0 <= j < |segs| && segs[j].kind == PT_LOAD ensures Loaded(n, content, segs[j]) {
      InSegmentBlocks(segs, BlockOf(segs[j]));
      LoadedWhereSame(content, m, n, written, segs[j]);
    }
  }

  lemma LoadedWhereSame(content: seq<byte>, m: seq<byte>, n: seq<byte>, written: set<Block>, seg: Segment)
    requires Loaded(m, content, seg) && Fits(seg) && |m| == |n|
    requires forall b :: b in written ==> Apart(BlockOf(seg), b)
    requires forall a :: 0 <= a < |m| && !Within(written, a) ==> n[a] == m[a]
    ensures Loaded(n, content, seg)
  {
    hide PagesFor;
    forall k | seg.paddr <= k < seg.paddr + Stored(seg) ensures n[k] == m[k] {
      assert !Within(written, k);
    }
    if seg.filesz > 0 {
      assert n[seg.paddr..seg.paddr + seg.filesz] == m[seg.paddr..seg.paddr + seg.filesz];
    }
  }

  datatype Stage = FirstMap | KernelLoad | BootInfoPage | MapBeforeExit | ThreeAttempts

  datatype Outcome = Fatal(stage: Stage, status: Status) | Jump(entry: u64, bi: u64)

  lemma FromImage(content: seq<byte>, live0: set<Block>, m0: seq<byte>, live: set<Block>, m: seq<byte>,
                  entry: u64, table: Block)
    requires ImageLoaded(content, live0, m0, live, m, entry, table)
    ensures ImageHeld(content, live0, live, m)
  {
  }

  lemma RamInAddressSpace(fw: Platform)
    requires fw.Valid()
    ensures |fw.ram.cells| < 0x1_0000_0000_0000_0000
  {
  }

  lemma LiveAllApart(fw: Platform)
    requires fw.Valid()
    ensures forall a, b :: a in fw.live && b in fw.live && a != b ==> Apart(a, b)
  {
  }

  lemma FinalMap(fw: Platform, mm: MapBuffer)
    requires fw.Valid() && mm.Current(fw)
    ensures Reportable(fw.rows, mm.stride, |fw.ram.cells|) && Owned(fw.rows, fw.live, |fw.ram.cells|)
    ensures mm.size == |Image(fw.rows)| <= mm.capacity
  {
  }

  /** The kernel image is complete, in blocks of its own. */
  ghost predicate KernelInPlace(live: set<Block>, m: seq<byte>, content: seq<byte>, buffer: Block, bi: nat)
    requires HasTable(content)
  {
    && SomeLoadable(content, |Segments(content)|) && AllLoaded(m, content, |Segments(content)|)
    && SegmentBlocks(Segments(content)) <= live
    && Block(bi, PAGE_SIZE) !in SegmentBlocks(Segments(content)) && buffer !in SegmentBlocks(Segments(content))
  }

  /** What the kernel inherits when control reaches its entry point: the firmware has
      let go; BootInfo describes the map that was current at that moment; BootInfo and
      the map buffer are the loader's own and apart, and so is the kernel image if every
      segment fits its pages. */
  ghost predicate HandedOver(rows: seq<Row>, live: set<Block>, m: seq<byte>, content: seq<byte>,
                             buffer: Block, info: MapInfo, entry: u64, bi: u64, video: Video, rsdp: u64)
  {
    && HasTable(content) && entry == HeaderAt(content, 0).entry
    && (Fitting(content) ==> KernelInPlace(live, m, content, buffer, bi))
    && Block(bi, PAGE_SIZE) in live && buffer in live && Block(bi, PAGE_SIZE) != buffer
    && |m| < 0x1_0000_0000_0000_0000
    && Reportable(rows, info.stride, |m|) && Owned(rows, live, |m|)
    && info.ptr == buffer.base && info.size == |Image(rows)| <= buffer.size
    && HandsOver(m, bi, info, DescriptorsOf(rows)) && HeadAt(m, bi, video, rsdp)
  }

  lemma TwoBlocks(m: seq<byte>, n: seq<byte>, buffer: Block, bi: nat)
    requires OnlyHandOverWritten(m, n, buffer, bi)
    ensures forall a :: 0 <= a < |m| && !Within({buffer, Block(bi, PAGE_SIZE)}, a) ==> n[a] == m[a]
  {
    forall a | 0 <= a < |m| && !Within({buffer, Block(bi, PAGE_SIZE)}, a) ensures n[a] == m[a] {
      assert buffer in {buffer, Block(bi, PAGE_SIZE)} && Block(bi, PAGE_SIZE) in {buffer, Block(bi, PAGE_SIZE)};
    }
  }

  lemma OneBlock(m: seq<byte>, n: seq<byte>, bi: nat)
    requires AgreeOutside(m, n, bi, bi + BOOT_INFO_BYTES)
    ensures forall a :: 0 <= a < |m| && !Within({Block(bi, PAGE_SIZE)}, a) ==> n[a] == m[a]
  {
    forall a | 0 <= a < |m| && !Within({Block(bi, PAGE_SIZE)}, a) ensures n[a] == m[a] {
      assert Block(bi, PAGE_SIZE) in {Block(bi, PAGE_SIZE)};
    }
  }

  // ---- why the loader stops, and when it does not ------------------------------------

  /** The map buffer's capacity: the size probed for, and eight descriptors more. */
  function Room(opening: seq<Call>, stride: nat): nat {
    if opening != [] && opening[0].MapRead? then opening[0].size + 8 * stride else 0
  }

  /** How each outcome comes about. `refused` counts refused allocations, `failed` says
      that a file call failed, `opening` holds the map reads before the kernel is loaded,
      `tries` the attempts to leave. */
  ghost predicate Explained(outcome: Outcome, content: seq<byte>, failed: bool, refused: nat, room: nat,
                            opening: seq<Call>, tries: seq<Try>)
  {
    match outcome
    case Jump(_, _) =>
      && refused == 0 && !failed && (Fitting(content) ==> Loadable(content))
      && |opening| == 2 && opening[1].MapRead? && opening[1].size <= room
      && tries != [] && Settled(tries[|tries| - 1]) && AllFit(tries, room)
      && (forall k :: 0 <= k < |tries| - 1 ==> tries[k].published < tries[k].current)
    case Fatal(stage, status) =>
      && status != Success
      && match stage
         case FirstMap =>
           tries == [] && (refused == 1 || (|opening| == 2 && opening[1].MapRead? && room < opening[1].size))
         case KernelLoad =>
           tries == [] && (Fitting(content) ==> failed || refused > 0 || !Loadable(content))
         case BootInfoPage =>
           tries == [] && refused == 1
         case MapBeforeExit =>
           refused == 0 && tries != [] && room < tries[|tries| - 1].size
         case ThreeAttempts =>
           refused == 0 && |tries| == 3 && AllFit(tries, room)
           && (forall k :: 0 <= k < 3 ==> tries[k].published < tries[k].current)
  }

  predicate AllFit(tries: seq<Try>, room: nat) {
    forall k :: 0 <= k < |tries| ==> tries[k].size <= room
  }

  /** No map reported is larger than the room made on the first call. */
  ghost predicate RoomSuffices(calls: seq<Call>, stride: nat) {
    forall c :: c in calls && c.MapRead? ==> c.size <= Room(calls, stride)
  }

  /** A loadable file that fits, no failed call, no refusal, and room for every map. */
  ghost predicate Unhindered(file: File, refused: nat, calls: seq<Call>, stride: nat)
    reads file
  {
    && refused == 0 && !file.failed && Fitting(file.content) && Loadable(file.content)
    && RoomSuffices(calls, stride)
  }

  lemma FirstCalls(opening: seq<Call>, tries: seq<Try>, stride: nat)
    requires |opening| == 2 && opening[1].MapRead? && RoomSuffices(opening + Trace(tries), stride)
    ensures opening[1].size <= Room(opening, stride)
    ensures AllFit(tries, Room(opening, stride))
  {
    var calls := opening + Trace(tries);
    assert calls[0] == opening[0] && calls[1] == opening[1];
    forall k | 0 <= k < |tries| ensures tries[k].size <= Room(opening, stride) {
      InTrace(tries, k);
      assert MapRead(tries[k].refreshed, tries[k].published, tries[k].size) in calls;
    }
  }

  lemma {:induction false} InTrace(tries: seq<Try>, k: nat)
    requires k < |tries|
    ensures MapRead(tries[k].refreshed, tries[k].published, tries[k].size) in Trace(tries)
  {
    var n := |tries| - 1;
    if k < n {
      InTrace(tries[..n], k);
    } else {
      assert Calls(tries[n])[0] == MapRead(tries[k].refreshed, tries[k].published, tries[k].size);
    }
  }

  /** With a loadable file that fits, no failed call, no refusal, room for every map and
      nothing that moves the first attempt's map, only the jump is left, on attempt one. */
  lemma OrdinaryBootJumps(outcome: Outcome, content: seq<byte>, stride: nat, opening: seq<Call>, tries: seq<Try>)
    requires Explained(outcome, content, false, 0, Room(opening, stride), opening, tries)
    requires Fitting(content) && Loadable(content)
    requires |opening| == 2 && opening[1].MapRead? && RoomSuffices(opening + Trace(tries), stride)
    requires tries != [] ==> tries[0].published == tries[0].current
    ensures outcome.Jump? && |tries| == 1
  {
    FirstCalls(opening, tries, stride);
    hide RoomSuffices, Room, Fitting, Loadable;
  }

  /** The boot sequence from the first map to the jump. On every run that reaches the
      kernel it hands over what it should, after at most three exit attempts, and no
      boot service has run since the one that succeeded. Every other run stops for the
      reason its stage names; an ordinary boot, quiet and with nothing missing, jumps on
      the first attempt. */
  method EfiMain(fw: Platform, file: File, video: Video, rsdp: u64)
    returns (outcome: Outcome, mm: MapBuffer, attempts: nat, ghost opening: seq<Call>, ghost tries: seq<Try>)
    requires fw.Valid() && !fw.exited && !file.failed
    modifies fw`rows, fw`key, fw`live, fw`exited, fw`log, fw`refusals, fw.ram, file
    ensures outcome.Jump? <==> fw.exited
    ensures attempts == |tries| <= 3
    ensures fw.log == old(fw.log) + (opening + Trace(tries)) && old(fw.refusals) <= fw.refusals
    ensures Explained(outcome, file.content, file.failed, fw.refusals - old(fw.refusals), Room(opening, fw.stride),
                      opening, tries)
    ensures fw.quiet && Unhindered(file, fw.refusals - old(fw.refusals), opening + Trace(tries), fw.stride) ==>
      outcome.Jump? && attempts == 1
    ensures outcome.Jump? ==>
      HandedOver(fw.rows, fw.live, fw.ram.cells, file.content, mm.Buffer(), MapInfo(mm.base, mm.size, mm.stride),
                 outcome.entry, outcome.bi, video, rsdp)
    ensures fresh(mm)
  {
    hide Fitting, Loadable, HandedOver, RoomSuffices, Trace;
    ghost var refusals, log := fw.refusals, fw.log;
    outcome, mm, attempts, opening, tries := Sequence(fw, file, video, rsdp);
    if fw.quiet && Unhindered(file, fw.refusals - refusals, opening + Trace(tries), fw.stride) {
      OrdinaryBootJumps(outcome, file.content, fw.stride, opening, tries);
    }
  }

  lemma ExplainFirstMap(status: Status, content: seq<byte>, failed: bool, refused: nat, room: nat, opening: seq<Call>)
    requires status != Success
    requires refused == 1 || (|opening| == 2 && opening[1].MapRead? && room < opening[1].size)
    ensures Explained(Fatal(FirstMap, status), content, failed, refused, room, opening, [])
  {
  }

  lemma ExplainLoad(status: Status, content: seq<byte>, failed: bool, refused: nat, room: nat, opening: seq<Call>)
    requires status != Success && (Fitting(content) ==> failed || refused > 0 || !Loadable(content))
    ensures Explained(Fatal(KernelLoad, status), content, failed, refused, room, opening, [])
  {
  }

  lemma ExplainPage(status: Status, content: seq<byte>, failed: bool, refused: nat, room: nat, opening: seq<Call>)
    requires status != Success && refused == 1
    ensures Explained(Fatal(BootInfoPage, status), content, failed, refused, room, opening, [])
  {
  }

  lemma ExplainExit(content: seq<byte>, room: nat, opening: seq<Call>, tries: seq<Try>,
                    refreshed: Status, status: Status, entry: u64, bi: u64)
    requires Fitting(content) ==> Loadable(content)
    requires |opening| == 2 && opening[1].MapRead? && opening[1].size <= room
    requires tries != [] && forall k :: 0 <= k < |tries| ==> (tries[k].refreshed <==> tries[k].size <= room)
    requires forall k :: 0 <= k < |tries| - 1 ==> tries[k].refreshed && tries[k].published < tries[k].current
    requires refreshed == Success <==> tries[|tries| - 1].refreshed
    requires tries[|tries| - 1].refreshed ==> tries[|tries| - 1].published <= tries[|tries| - 1].current
    requires refreshed == Success ==> (status == Success <==> Settled(tries[|tries| - 1]))
    requires refreshed == Success && status != Success ==> |tries| == 3
    ensures refreshed != Success ==> Explained(Fatal(MapBeforeExit, refreshed), content, false, 0, room, opening, tries)
    ensures refreshed == Success && status != Success ==>
      Explained(Fatal(ThreeAttempts, status), content, false, 0, room, opening, tries)
    ensures refreshed == Success && status == Success ==>
      Explained(Jump(entry, bi), content, false, 0, room, opening, tries)
  {
    hide Fitting, Loadable;
  }

  /** The image is complete in blocks added to `live0`. */
  ghost predicate ImageHeld(content: seq<byte>, live0: set<Block>, live: set<Block>, m: seq<byte>) {
    && HasTable(content) && SomeLoadable(content, |Segments(content)|) && AllLoaded(m, content, |Segments(content)|)
    && live == live0 + SegmentBlocks(Segments(content)) && SegmentBlocks(Segments(content)) !! live0
  }

  /** The second half: the BootInfo page, and out. */
  method HandOver(fw: Platform, mm: MapBuffer, entry: u64, video: Video, rsdp: u64,
                  ghost content: seq<byte>, ghost live0: set<Block>, ghost opening: seq<Call>)
    returns (outcome: Outcome, attempts: nat, ghost tries: seq<Try>)
    requires fw.Valid() && !fw.exited && mm.base != 0 && mm.Held(fw) && mm.Buffer() in live0
    requires HasTable(content) && entry == HeaderAt(content, 0).entry
    requires Fitting(content) ==> Loadable(content) && ImageHeld(content, live0, fw.live, fw.ram.cells)
    requires |opening| == 2 && opening[1].MapRead? && opening[1].size <= mm.capacity
    modifies mm, fw`rows, fw`key, fw`live, fw`exited, fw`log, fw`refusals, fw.ram
    ensures outcome.Jump? <==> fw.exited
    ensures attempts == |tries| <= 3 && fw.log == old(fw.log) + Trace(tries)
    ensures old(fw.refusals) <= fw.refusals
    ensures Explained(outcome, content, false, fw.refusals - old(fw.refusals), old(mm.capacity), opening, tries)
    ensures fw.quiet && tries != [] ==> tries[0].published == tries[0].current
    ensures outcome.Jump? ==>
      HandedOver(fw.rows, fw.live, fw.ram.cells, content, mm.Buffer(), MapInfo(mm.base, mm.size, mm.stride),
                 entry, outcome.bi, video, rsdp)
    ensures outcome.Jump? ==> outcome.entry == entry
  {
    hide Reportable, Owned, Image, HandsOver, AllLoaded, Segments, HasTable, HeaderAt, HeadAt, Fitting, Loadable;
    hide Explained, Trace, ImageHeld, OnlyHandOverWritten, KernelInPlace, SomeLoadable;
    attempts, tries := 0, [];
    NothingWrittenYet([], Block(0, 0), 0);
    ghost var live1, m1 := fw.live, fw.ram.cells;
    var status, bi;
    status, bi := fw.AllocatePages(0, true, 1);
    if status != Success {
      ExplainPage(status, content, false, 1, mm.capacity, opening);
      return Fatal(BootInfoPage, status), attempts, tries;
    }
    BlockInRam(fw, Block(bi, PAGE_SIZE));
    RamInAddressSpace(fw);
    WriteHead(fw.ram, bi, video, rsdp);
    ghost var m2 := fw.ram.cells;
    var refreshed;
    refreshed, status, attempts, tries := LeaveBootServices(fw, mm, bi);
    ExplainExit(content, mm.capacity, opening, tries, refreshed, status, entry, bi);
    if refreshed != Success {
      return Fatal(MapBeforeExit, refreshed), attempts, tries;
    }
    if status != Success {
      return Fatal(ThreeAttempts, status), attempts, tries;
    }
    ghost var m3 := fw.ram.cells;
    LiveAllApart(fw);
    HeadSurvives(m2, m3, bi, video, rsdp, mm.Buffer());
    FinalMap(fw, mm);
    RamInAddressSpace(fw);
    if Fitting(content) {
      KernelSurvives(content, live0, live1, fw.live, m1, m2, m3, mm.Buffer(), bi);
    }
    return Jump(entry, bi), attempts, tries;
  }

  /** The stages in order. */
  method Sequence(fw: Platform, file: File, video: Video, rsdp: u64)
    returns (outcome: Outcome, mm: MapBuffer, attempts: nat, ghost opening: seq<Call>, ghost tries: seq<Try>)
    requires fw.Valid() && !fw.exited && !file.failed
    modifies fw`rows, fw`key, fw`live, fw`exited, fw`log, fw`refusals, fw.ram, file
    ensures outcome.Jump? <==> fw.exited
    ensures attempts == |tries| <= 3
    ensures fw.log == old(fw.log) + (opening + Trace(tries)) && old(fw.refusals) <= fw.refusals
    ensures Explained(outcome, file.content, file.failed, fw.refusals - old(fw.refusals), Room(opening, fw.stride),
                      opening, tries)
    ensures fw.refusals == old(fw.refusals) ==> |opening| == 2 && opening[1].MapRead?
    ensures fw.quiet && tries != [] ==> tries[0].published == tries[0].current
    ensures outcome.Jump? ==>
      HandedOver(fw.rows, fw.live, fw.ram.cells, file.content, mm.Buffer(), MapInfo(mm.base, mm.size, mm.stride),
                 outcome.entry, outcome.bi, video, rsdp)
    ensures fresh(mm)
  {
    hide Reportable, Owned, Image, ImageLoaded, HandedOver, HasTable, HeaderAt, MapWritten, OnlyImageWritten;
    hide Fitting, Loadable, Explained, Trace, ImageHeld, HeaderIsValid;
    ghost var refusals, log := fw.refusals, fw.log;
    NothingWrittenYet([], Block(0, 0), 0);
    mm := new MapBuffer();
    attempts, tries := 0, [];
    var status;
    status, opening := mm.Refresh(fw);
    if status != Success {
      ExplainFirstMap(status, file.content, file.failed, fw.refusals - refusals, Room(opening, fw.stride), opening);
      return Fatal(FirstMap, status), mm, attempts, opening, tries;
    }
    ghost var live0, m0, content := fw.live, fw.ram.cells, file.content;
    var entry;
    ghost var table;
    status, entry, table := ElfLoadKernel(fw, file);
    if status != Success {
      ExplainLoad(status, file.content, file.failed, fw.refusals - refusals, Room(opening, fw.stride), opening);
      return Fatal(KernelLoad, status), mm, attempts, opening, tries;
    }
    if Fitting(content) {
      FromImage(content, live0, m0, fw.live, fw.ram.cells, entry, table);
    }
    outcome, attempts, tries := HandOver(fw, mm, entry, video, rsdp, content, live0, opening);
    assert fw.log == log + (opening + Trace(tries));
    return outcome, mm, attempts, opening, tries;
  }

  /** The image outlives the BootInfo page and the exit loop. */
  lemma KernelSurvives(content: seq<byte>, live0: set<Block>, live1: set<Block>, live: set<Block>,
                       m1: seq<byte>, m2: seq<byte>, m3: seq<byte>, buffer: Block, bi: nat)
    requires ImageHeld(content, live0, live1, m1)
    requires buffer in live0 && Block(bi, PAGE_SIZE) !in live1 && live == live1 + {Block(bi, PAGE_SIZE)}
    requires forall a, b :: a in live && b in live && a != b ==> Apart(a, b)
    requires AgreeOutside(m1, m2, bi, bi + BOOT_INFO_BYTES) && OnlyHandOverWritten(m2, m3, buffer, bi)
    ensures KernelInPlace(live, m3, content, buffer, bi)
  {
    hide HasTable, Segments, SomeLoadable, AllLoaded, SegmentBlocks, Apart;
    OneBlock(m1, m2, bi);
    SegmentsSurvive(content, m1, m2, {Block(bi, PAGE_SIZE)});
    TwoBlocks(m2, m3, buffer, bi);
    SegmentsSurvive(content, m2, m3, {buffer, Block(bi, PAGE_SIZE)});
  }
}
