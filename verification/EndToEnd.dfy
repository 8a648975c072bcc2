/** From firmware to the first page handed out: the boot sequence, the allocator's
    start-up and every disciplined run after it, composed over one memory. */
module EndToEnd {
  import opened Words
  import opened Storage
  import opened MemoryMap
  import opened MapImage
  import opened Firmware
  import opened ElfFile
  import opened BootLoader
  import opened PageBitmap
  import opened PmmRuns
  import opened Pmm
  import opened PmmStart
  import opened PmmStatics
  import opened PmmClient

  /** Every block of the loader lies outside conventional memory. */
  lemma LiveOutsideConventional(rows: seq<Row>, live: set<Block>, memory: nat, b: Block)
    requires Owned(rows, live, memory) && b in live
    ensures OutsideConventional(DescriptorsOf(rows), b.base, b.size)
  {
    assert OnlyLoaderData(rows, b);
  }

  lemma ReportableWellFormed(rows: seq<Row>, stride: nat, memory: nat)
    requires Reportable(rows, stride, memory)
    ensures WellFormed(DescriptorsOf(rows))
    ensures forall i :: 0 <= i < |rows| && DescriptorsOf(rows)[i].kind == CONVENTIONAL ==>
                          EndOf(DescriptorsOf(rows)[i]) <= memory
  {
    hide Image;
  }

  lemma InsideOutside(ds: seq<Descriptor>, lo: nat, n: nat, lo': nat, n': nat)
    requires OutsideConventional(ds, lo, n) && lo <= lo' && lo' + n' <= lo + n
    ensures OutsideConventional(ds, lo', n')
  {
  }

  /** What the loader hands over is exactly what the allocator trusts. */
  lemma HandOverIsBootable(rows: seq<Row>, live: set<Block>, m: seq<byte>, content: seq<byte>,
                           buffer: Block, info: MapInfo, entry: u64, bi: u64, video: Video, rsdp: u64)
    requires HandedOver(rows, live, m, content, buffer, info, entry, bi, video, rsdp)
    ensures Bootable(m, bi, info, DescriptorsOf(rows)) && Get64(m, bi) == MAGIC
  {
    HeadReadsBack(m, bi, video, rsdp);
    LiveOutsideConventional(rows, live, |m|, buffer);
    LiveOutsideConventional(rows, live, |m|, Block(bi, PAGE_SIZE));
    ReportableWellFormed(rows, info.stride, |m|);
    hide HandsOver, KernelInPlace, HeadAt, Reportable, Owned, OutsideConventional;
    InsideOutside(DescriptorsOf(rows), bi, PAGE_SIZE, bi, BOOT_INFO_BYTES);
    InsideOutside(DescriptorsOf(rows), buffer.base, buffer.size, info.ptr, info.size);
  }

  /** A conventional page never touches bytes that lie outside conventional memory. */
  lemma ConventionalMisses(ds: seq<Descriptor>, page: nat, lo: nat, n: nat)
    requires WellFormed(ds) && page in ConventionalPages(ds) && OutsideConventional(ds, lo, n)
    ensures !Touches(lo, n, page)
  {
    ConventionalBytes(ds, page);
    var i :| 0 <= i < |ds| && ds[i].kind == CONVENTIONAL && Covers(ds[i], page)
             && ds[i].start <= page * PAGE_SIZE && (page + 1) * PAGE_SIZE <= EndOf(ds[i]);
    hide EndOf;
    RoundedApart(page, lo, n, ds[i].start, EndOf(ds[i]));
  }

  lemma RoundedApart(page: nat, lo: nat, n: nat, start: nat, end: nat)
    requires start <= page * PAGE_SIZE && (page + 1) * PAGE_SIZE <= end && start % PAGE_SIZE == 0
    requires end <= lo || lo + n <= start
    ensures !Touches(lo, n, page)
  {
  }

  /** An address returned in such a run touches no block of the loader. */
  lemma ResultMissesBlock(rows: seq<Row>, live: set<Block>, stride: nat, memory: nat, kernelStart: nat, kernelSize: nat,
                          a: Allocator, s: System, ops: seq<Op>, b: Block, r: nat)
    requires Reportable(rows, stride, memory) && Owned(rows, live, memory) && b in live
    requires AsStarted(DescriptorsOf(rows), kernelStart, kernelSize, a, s) && Good(s)
    requires DisciplinedRun(s, ops) && r in Results(s, ops) && r != 0
    ensures r % PAGE_SIZE == 0 && LOW_MEMORY_LIMIT <= r && !Touches(b.base, b.size, r / PAGE_SIZE)
    ensures !Touches(s.bitmap, BitmapBytes(s), r / PAGE_SIZE) && !Touches(kernelStart, kernelSize, r / PAGE_SIZE)
  {
    hide Reportable, Good, AsStarted, DisciplinedRun, Results, Owned, DescriptorsOf, Touches;
    var ds := DescriptorsOf(rows);
    LiveOutsideConventional(rows, live, memory, b);
    ReportableWellFormed(rows, stride, memory);
    OnlyFreeMemoryHandedOut(ds, kernelStart, kernelSize, a, s, ops, r);
    InConventional(ds, r / PAGE_SIZE);
    ConventionalMisses(ds, r / PAGE_SIZE, b.base, b.size);
  }

  /** The block's bytes are the same in both memories, the variables at `at` excepted. */
  ghost predicate KeptBut(m: seq<byte>, n: seq<byte>, b: Block, at: nat) {
    && |n| == |m| && b.base + b.size <= |m|
    && forall i :: b.base <= i < b.base + b.size && !(at <= i < at + STATIC_BYTES) ==> n[i] == m[i]
  }

  /** Outside the allocator's variables, the bytes of a block of the loader stay what
      they were at the hand-over. */
  lemma BlockKept(rows: seq<Row>, live: set<Block>, stride: nat, m: seq<byte>, kernelStart: nat, kernelSize: nat,
                  a: Allocator, s: System, ops: seq<Op>, at: nat, b: Block)
    requires Reportable(rows, stride, |m|) && Owned(rows, live, |m|) && b in live
    requires AsStarted(DescriptorsOf(rows), kernelStart, kernelSize, a, s) && Good(s)
    requires |s.ram| == |m| && AgreeOn(m, s.ram, b.base, b.base + b.size)
    requires Sized(s) && Housed(s, at) && DisciplinedRun(s, ops)
    ensures |Run(s, ops).ram| == |m| && at + STATIC_BYTES <= |m| && InWidth(Run(s, ops))
    ensures KeptBut(m, Physical(Run(s, ops), at), b, at)
  {
    hide Reportable, Good, AsStarted, DisciplinedRun, Run, Owned, DescriptorsOf, SameArena, Managed, InWidth, Physical;
    hide OutsideConventional, WellFormed, Sized;
    LiveOutsideConventional(rows, live, |m|, b);
    ReportableWellFormed(rows, stride, |m|);
    BlockBacked(rows, live, m, b);
    Unmanaged(DescriptorsOf(rows), kernelStart, kernelSize, a, s, b.base, b.size);
    RunKeepsStatics(s, ops, at);
    PhysicalElsewhere(s, at);
  }

  lemma BlockBacked(rows: seq<Row>, live: set<Block>, m: seq<byte>, b: Block)
    requires Owned(rows, live, |m|) && b in live
    ensures b.base + b.size <= |m|
  {
  }

  datatype Arrival =
    | BootStopped(stage: Stage)
    | Refused
    | AllocatorHalted(why: Fault)
    | Running

  /** Where the boot arrived: the hand-over `m`, the allocator `a` built from it, and
      the current state, with every block of the loader as it was handed over. */
  ghost predicate Arrived(fw: Platform, content: seq<byte>, mm: MapBuffer, video: Video, rsdp: u64, outcome: Outcome,
                          kernelStart: nat, kernelSize: nat, m: seq<byte>, a: Allocator, s: System)
    reads fw, mm
  {
    && outcome.Jump? && fw.exited
    && HandedOver(fw.rows, fw.live, m, content, mm.Buffer(), MapInfo(mm.base, mm.size, mm.stride),
                  outcome.entry, outcome.bi, video, rsdp)
    && AsStarted(DescriptorsOf(fw.rows), kernelStart, kernelSize, a, s)
    && |s.ram| == |m| && forall b :: b in fw.live ==> AgreeOn(m, s.ram, b.base, b.base + b.size)
  }

  /** The loader's blocks pass through start-up and self-test untouched. */
  lemma BlocksIntact(rows: seq<Row>, live: set<Block>, stride: nat, m: seq<byte>, kernelStart: nat, kernelSize: nat,
                     a: Allocator, s: System, t: System)
    requires Reportable(rows, stride, |m|) && Owned(rows, live, |m|)
    requires AsStarted(DescriptorsOf(rows), kernelStart, kernelSize, a, s)
    requires AgreeOutside(m, s.ram, s.bitmap, s.bitmap + BitmapBytes(s)) && SameArena(s, t)
    ensures forall b :: b in live ==> AgreeOn(m, t.ram, b.base, b.base + b.size)
  {
    var ds := DescriptorsOf(rows);
    ReportableWellFormed(rows, stride, |m|);
    hide Reportable, AsStarted, SameArena, DescriptorsOf, Managed, AgreeOutside, WellFormed, Owned;
    forall b | b in live ensures AgreeOn(m, t.ram, b.base, b.base + b.size) {
      LiveOutsideConventional(rows, live, |m|, b);
      BlockBacked(rows, live, m, b);
      Unmanaged(ds, kernelStart, kernelSize, a, s, b.base, b.size);
      OtherMemoryUntouched(ds, kernelStart, kernelSize, a, s, t, b.base, b.size);
      UnmanagedAgree(m, s, b.base, b.size);
    }
  }

  /** Memory that differs in the bitmap only agrees on unmanaged bytes. */
  lemma UnmanagedAgree(m: seq<byte>, s: System, lo: nat, n: nat)
    requires AgreeOutside(m, s.ram, s.bitmap, s.bitmap + BitmapBytes(s))
    requires forall i :: lo <= i < lo + n ==> !Managed(s, i)
    ensures AgreeOn(m, s.ram, lo, lo + n)
  {
    hide Pool;
    forall i | lo <= i < lo + n && i < |m| ensures m[i] == s.ram[i] {
      assert !Managed(s, i);
    }
  }

  /** Where a jump leads: the kernel refuses a BootInfo at address 0, halts if no region can
      hold the bitmap or fewer than three pages are free, and runs otherwise. */
  ghost function ArrivalAfterJump(ds: seq<Descriptor>, bi: nat, a: Allocator): Arrival {
    if bi == 0 then Refused
    else if NoRegionFor(ds, 8 * TrackedWords(ds)) then AllocatorHalted(NoRoomForBitmap)
    else if |Free(a.words)| < 3 then AllocatorHalted(SelfTestOutOfMemory)
    else Running
  }

  /** Loader, kernel entry checks, start-up and self-test in sequence. The kernel goes
      on only with a good allocator over the memory it inherited; every other arrival has
      its cause, and an ordinary boot gets as far as the jump. */
  method Boot(fw: Platform, file: File, video: Video, rsdp: u64, kernelStart: u64, kernelEnd: u64)
    returns (arrival: Arrival, p: PageAllocator, mm: MapBuffer, outcome: Outcome, ghost m: seq<byte>, ghost a: Allocator,
             ghost opening: seq<Call>, ghost tries: seq<Try>)
    requires fw.Valid() && !fw.exited && !file.failed
    requires kernelStart <= kernelEnd && kernelEnd + PAGE_SIZE <= 0x1_0000_0000_0000_0000
    modifies fw`rows, fw`key, fw`live, fw`exited, fw`log, fw`refusals, fw.ram, file
    ensures fresh(p) && fresh(mm) && p.ram == fw.ram
    ensures arrival.Running? ==> p.Mapped()
    ensures arrival.Running? ==>
      Arrived(fw, file.content, mm, video, rsdp, outcome, kernelStart, kernelEnd - kernelStart, m, a, SystemOf(p, {}))
    ensures fw.log == old(fw.log) + (opening + Trace(tries)) && old(fw.refusals) <= fw.refusals
    ensures Explained(outcome, file.content, file.failed, fw.refusals - old(fw.refusals), Room(opening, fw.stride),
                      opening, tries)
    ensures fw.quiet && Unhindered(file, fw.refusals - old(fw.refusals), opening + Trace(tries), fw.stride) ==>
      outcome.Jump?
    ensures outcome.Fatal? ==> arrival == BootStopped(outcome.stage)
    ensures outcome.Jump? ==> arrival == ArrivalAfterJump(DescriptorsOf(fw.rows), outcome.bi, a)
    ensures outcome.Jump? && outcome.bi != 0 && !NoRegionFor(DescriptorsOf(fw.rows), 8 * TrackedWords(DescriptorsOf(fw.rows))) ==>
      Initialised(DescriptorsOf(fw.rows), kernelStart, kernelEnd - kernelStart, p.bitmap, a)
  {
    hide Good, HandedOver, Bootable, Initialised, Reportable, Owned, Image, SameArena, Explained, Trace, Unhindered;
    hide NoRegionFor, FirstRegionFor, TracksExactly, Free, TrackedWords, DescriptorsOf;
    p := new PageAllocator(fw.ram);
    var attempts;
    outcome, mm, attempts, opening, tries := EfiMain(fw, file, video, rsdp);
    m, a := fw.ram.cells, Allocator([], 0, 0, 0);
    if outcome.Fatal? {
      return BootStopped(outcome.stage), p, mm, outcome, m, a, opening, tries;
    }
    ghost var ds := DescriptorsOf(fw.rows);
    ghost var info := MapInfo(mm.base, mm.size, mm.stride);
    var bi := outcome.bi;
    HandOverIsBootable(fw.rows, fw.live, m, file.content, mm.Buffer(), info, outcome.entry, bi, video, rsdp);
    BootableFacts(m, bi, info, ds);
    var magic := fw.ram.Load64(bi);
    if bi == 0 || magic != MAGIC {
      return Refused, p, mm, outcome, m, a, opening, tries;
    }
    PlacedExactly(ds, 8 * TrackedWords(ds));
    var fault := p.Init(bi, kernelStart, kernelEnd, info, ds);
    if fault.Some? {
      return AllocatorHalted(fault.value), p, mm, outcome, m, a, opening, tries;
    }
    a := p.View();
    ghost var s := SystemOf(p, {});
    StartIsGood(ds, kernelStart, kernelEnd - kernelStart, p.bitmap, a, p.ram.cells);
    assert s == Fresh(a, p.bitmap, p.ram.cells);
    var pages;
    fault, pages := SelfTest(p, {});
    if fault.Some? {
      return AllocatorHalted(fault.value), p, mm, outcome, m, a, opening, tries;
    }
    FinishBoot(fw.rows, fw.live, m, file.content, mm.Buffer(), info, outcome.entry, bi, video, rsdp,
               kernelStart, kernelEnd - kernelStart, a, s, SystemOf(p, {}));
    return Running, p, mm, outcome, m, a, opening, tries;
  }

  lemma FinishBoot(rows: seq<Row>, live: set<Block>, m: seq<byte>, content: seq<byte>,
                   buffer: Block, info: MapInfo, entry: u64, bi: u64, video: Video, rsdp: u64,
                   kernelStart: nat, kernelSize: nat, a: Allocator, s: System, t: System)
    requires HandedOver(rows, live, m, content, buffer, info, entry, bi, video, rsdp)
    requires Initialised(DescriptorsOf(rows), kernelStart, kernelSize, s.bitmap, a) && s.alloc == a
    requires Good(s) && s.held == {} && AgreeOutside(m, s.ram, s.bitmap, s.bitmap + BitmapBytes(s))
    requires Good(t) && t.held == {} && t.alloc.words == a.words && SameArena(s, t)
    ensures AsStarted(DescriptorsOf(rows), kernelStart, kernelSize, a, t)
    ensures |t.ram| == |m| && forall b :: b in live ==> AgreeOn(m, t.ram, b.base, b.base + b.size)
  {
    hide Good, Initialised, Reportable, Owned, HandsOver, KernelInPlace, HeadAt, DescriptorsOf, Managed;
    BlocksIntact(rows, live, info.stride, m, kernelStart, kernelSize, a, s, t);
  }

  lemma BootableFacts(m: seq<byte>, bi: nat, info: MapInfo, ds: seq<Descriptor>)
    requires Bootable(m, bi, info, ds)
    ensures bi + BOOT_INFO_BYTES <= |m| && WellFormed(ds)
    ensures forall i :: 0 <= i < |ds| && ds[i].kind == CONVENTIONAL ==> EndOf(ds[i]) <= |m|
  {
  }

  /** The variables at `at` lie in a block of the loader other than BootInfo and the map. */
  predicate HousedIn(live: set<Block>, buffer: Block, bi: nat, home: Block, at: nat) {
    && home in live && home != buffer && home != Block(bi, PAGE_SIZE)
    && home.base <= at && at + STATIC_BYTES <= home.base + home.size
  }

  lemma HomeFacts(rows: seq<Row>, live: set<Block>, m: seq<byte>, content: seq<byte>, buffer: Block, info: MapInfo,
                  entry: u64, bi: u64, video: Video, rsdp: u64, kernelStart: nat, kernelSize: nat,
                  a: Allocator, s: System, home: Block, at: nat)
    requires HandedOver(rows, live, m, content, buffer, info, entry, bi, video, rsdp)
    requires HousedIn(live, buffer, bi, home, at)
    requires AsStarted(DescriptorsOf(rows), kernelStart, kernelSize, a, s) && |s.ram| == |m|
    ensures Sized(s) && Housed(s, at)
    ensures Apart(home, buffer) && Apart(home, Block(bi, PAGE_SIZE))
  {
    hide Segments, HasTable, KernelInPlace, HandsOver, HeadAt, AsStarted, Housed, Sized, HeaderAt, Reportable, Fitting;
    hide DescriptorsOf, OnlyLoaderData, Apart;
    LiveOutsideConventional(rows, live, |m|, home);
    ReportableWellFormed(rows, info.stride, |m|);
    InsideOutside(DescriptorsOf(rows), home.base, home.size, at, STATIC_BYTES);
    StartHouses(DescriptorsOf(rows), kernelStart, kernelSize, a, s, at);
  }

  /** In a fitting kernel file, any segment's block can house the variables. */
  lemma SegmentHouses(rows: seq<Row>, live: set<Block>, m: seq<byte>, content: seq<byte>, buffer: Block, info: MapInfo,
                      entry: u64, bi: u64, video: Video, rsdp: u64, home: Block, at: nat)
    requires HandedOver(rows, live, m, content, buffer, info, entry, bi, video, rsdp) && Fitting(content)
    requires home in SegmentBlocks(Segments(content))
    requires home.base <= at && at + STATIC_BYTES <= home.base + home.size
    ensures HousedIn(live, buffer, bi, home, at)
  {
    hide Segments, HasTable, HeaderAt, AllLoaded, SomeLoadable, SegmentBlocks, Fitting, HandsOver, HeadAt, Reportable, Owned;
  }

  /** End to end: in every run of firmware and loader that reaches a running kernel,
      and every disciplined run of the allocator after it, no address returned touches
      any block the loader owns - BootInfo, the map buffer and, for a kernel file whose
      segments fit, the whole kernel image - nor the bitmap nor the kernel's extent. With
      the allocator's variables somewhere in those blocks, they are the only bytes of
      them that allocations, releases and client writes change; BootInfo and the map stay
      as they were handed over. */
  lemma NothingOwnedIsHandedOut(fw: Platform, content: seq<byte>, mm: MapBuffer, video: Video, rsdp: u64,
                                outcome: Outcome, kernelStart: nat, kernelSize: nat, m: seq<byte>,
                                a: Allocator, s: System, ops: seq<Op>, home: Block, at: nat)
    requires Arrived(fw, content, mm, video, rsdp, outcome, kernelStart, kernelSize, m, a, s)
    requires HousedIn(fw.live, mm.Buffer(), outcome.bi, home, at) && Good(s) && DisciplinedRun(s, ops)
    ensures Block(outcome.bi, PAGE_SIZE) in fw.live && mm.Buffer() in fw.live && HasTable(content)
    ensures Fitting(content) ==> KernelInPlace(fw.live, m, content, mm.Buffer(), outcome.bi)
    ensures |Run(s, ops).ram| == |m| && at + STATIC_BYTES <= |m| && InWidth(Run(s, ops))
    ensures forall b :: b in fw.live ==> KeptBut(m, Physical(Run(s, ops), at), b, at)
    ensures AgreeOn(m, Physical(Run(s, ops), at), outcome.bi, outcome.bi + PAGE_SIZE)
    ensures AgreeOn(m, Physical(Run(s, ops), at), mm.base, mm.base + mm.capacity)
    ensures forall b, r :: b in fw.live && r in Results(s, ops) && r != 0 ==>
              && r % 4096 == 0 && 0x10_0000 <= r
              && !Touches(b.base, b.size, r / PAGE_SIZE)
              && !Touches(s.bitmap, BitmapBytes(s), r / PAGE_SIZE)
              && !Touches(kernelStart, kernelSize, r / PAGE_SIZE)
  {
    hide AsStarted, Good, Results, Run, DisciplinedRun, Touches, Reportable, Owned, KernelInPlace, HandsOver, HeadAt;
    hide InWidth, Sized, Housed, Physical, Segments, HasTable, HeaderAt, SegmentBlocks, DescriptorsOf, Fitting;
    HomeFacts(fw.rows, fw.live, m, content, mm.Buffer(), MapInfo(mm.base, mm.size, mm.stride), outcome.entry,
              outcome.bi, video, rsdp, kernelStart, kernelSize, a, s, home, at);
    BlockKept(fw.rows, fw.live, mm.stride, m, kernelStart, kernelSize, a, s, ops, at, mm.Buffer());
    BlockKept(fw.rows, fw.live, mm.stride, m, kernelStart, kernelSize, a, s, ops, at, Block(outcome.bi, PAGE_SIZE));
    forall b | b in fw.live ensures KeptBut(m, Physical(Run(s, ops), at), b, at) {
      BlockKept(fw.rows, fw.live, mm.stride, m, kernelStart, kernelSize, a, s, ops, at, b);
    }
    forall b, r | b in fw.live && r in Results(s, ops) && r != 0
      ensures r % 4096 == 0 && 0x10_0000 <= r && !Touches(b.base, b.size, r / PAGE_SIZE)
      ensures !Touches(s.bitmap, BitmapBytes(s), r / PAGE_SIZE) && !Touches(kernelStart, kernelSize, r / PAGE_SIZE)
    {
      ResultMissesBlock(fw.rows, fw.live, mm.stride, |m|, kernelStart, kernelSize, a, s, ops, b, r);
    }
  }
}
