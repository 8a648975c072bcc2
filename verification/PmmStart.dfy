/** What start-up guarantees: which pages are free, that the result depends only on
    the map's descriptors, and that every run from there is safe. */
module PmmStart {
  import opened Words
  import opened Storage
  import opened MemoryMap
  import opened MapImage
  import opened PageBitmap
  import opened Pmm
  import opened PmmRuns
  import opened PmmTheorems

  /** Exactly the conventional pages at or above 1 MiB that neither the kernel image
      nor the bitmap touches are free. */
  lemma FreeExactly(ds: seq<Descriptor>, kernelStart: nat, kernelSize: nat, bitmap: nat, a: Allocator, page: nat)
    requires Initialised(ds, kernelStart, kernelSize, bitmap, a)
    ensures page in Free(a.words) <==>
      && (exists i :: 0 <= i < |ds| && ds[i].kind == CONVENTIONAL && Covers(ds[i], page))
      && LOW_MEMORY_LIMIT <= page * PAGE_SIZE
      && !Touches(kernelStart, kernelSize, page)
      && !Touches(bitmap, 8 * |a.words|, page)
  {
    hide Free;
    InConventional(ds, page);
    assert page in Overlapping(0, LOW_MEMORY_LIMIT) <==> page * PAGE_SIZE < LOW_MEMORY_LIMIT;
  }

  /** The same in addresses: the page lies at or above 1 MiB, inside a region of type 7,
      and shares no byte with the kernel image or the bitmap. */
  lemma FreeByAddress(ds: seq<Descriptor>, kernelStart: nat, kernelSize: nat, bitmap: nat, a: Allocator, page: nat)
    requires WellFormed(ds) && Initialised(ds, kernelStart, kernelSize, bitmap, a)
    ensures page in Free(a.words) <==>
      && 0x10_0000 <= page * 4096
      && (exists i :: 0 <= i < |ds| && ds[i].kind == 7 && ds[i].start <= page * 4096
                      && (page + 1) * 4096 <= ds[i].start + ds[i].pages * 4096)
      && (kernelStart + kernelSize <= page * 4096 || (page + 1) * 4096 <= kernelStart)
      && (bitmap + 8 * |a.words| <= page * 4096 || (page + 1) * 4096 <= bitmap)
    ensures TracksExactly(ds, a.pageCount) && |a.words| == (a.pageCount + 63) / 64
    ensures FirstRegionFor(ds, 8 * |a.words|, bitmap)
  {
    FreeExactly(ds, kernelStart, kernelSize, bitmap, a, page);
    TouchesExactly(kernelStart, kernelSize, page);
    TouchesExactly(bitmap, 8 * |a.words|, page);
    TrackedExactly(ds);
    PlacedExactly(ds, 8 * |a.words|);
    assert forall i :: 0 <= i < |ds| && ds[i].kind == CONVENTIONAL ==> ds[i].start % 4096 == 0;
    hide Free, Valid, ConventionalPages, Overlapping, Placement, Touches, TracksExactly, FirstRegionFor;
    if i :| 0 <= i < |ds| && ds[i].kind == CONVENTIONAL && Covers(ds[i], page) {
      CoversExactly(ds[i], page);
    }
    if i :| 0 <= i < |ds| && ds[i].kind == 7 && ds[i].start <= page * 4096
            && (page + 1) * 4096 <= ds[i].start + ds[i].pages * 4096 {
      CoversExactly(ds[i], page);
    }
  }

  /** Start-up is a function of the descriptors and the kernel's extent. */
  lemma InitDetermined(ds: seq<Descriptor>, kernelStart: nat, kernelSize: nat,
                       bitmap: nat, a: Allocator, bitmap': nat, a': Allocator)
    requires Initialised(ds, kernelStart, kernelSize, bitmap, a)
    requires Initialised(ds, kernelStart, kernelSize, bitmap', a')
    ensures bitmap == bitmap' && a == a'
  {
    hide Free, Overlapping, ConventionalPages;
    SameFreeSameWords(a.words, a'.words);
  }

  /** Stride independence: two memories that hold the same descriptors, at different
      places, with different descriptor sizes and different bytes in between, lead
      to the same allocator. */
  lemma StrideIndependent(m: seq<byte>, info: MapInfo, rows: seq<Row>,
                          m': seq<byte>, info': MapInfo, rows': seq<Row>,
                          kernelStart: nat, kernelSize: nat,
                          bitmap: nat, a: Allocator, bitmap': nat, a': Allocator)
    requires Written(m, info, rows) && Written(m', info', rows')
    requires DescriptorsOf(rows) == DescriptorsOf(rows')
    requires Initialised(Descriptors(m, info), kernelStart, kernelSize, bitmap, a)
    requires Initialised(Descriptors(m', info'), kernelStart, kernelSize, bitmap', a')
    ensures bitmap == bitmap' && a == a'
  {
    ImageReadsBack(m, rows, info);
    ImageReadsBack(m', rows', info');
    InitDetermined(DescriptorsOf(rows), kernelStart, kernelSize, bitmap, a, bitmap', a');
  }

  /** The rows are written at `info`, one every `stride` bytes. */
  ghost predicate Written(m: seq<byte>, info: MapInfo, rows: seq<Row>)
    ensures Written(m, info, rows) ==> MapInMemory(m, info)
  {
    && Uniform(rows, info.stride) && info.size == |Image(rows)| && info.ptr + info.size <= |m|
    && m[info.ptr..info.ptr + info.size] == Image(rows)
  }

  /** Every page of a conventional region lies inside that region's bytes. */
  lemma ConventionalBytes(ds: seq<Descriptor>, page: nat)
    requires WellFormed(ds) && page in ConventionalPages(ds)
    ensures exists i :: 0 <= i < |ds| && ds[i].kind == CONVENTIONAL && Covers(ds[i], page)
                        && ds[i].start <= page * PAGE_SIZE && (page + 1) * PAGE_SIZE <= EndOf(ds[i])
  {
    InConventional(ds, page);
    var i :| 0 <= i < |ds| && ds[i].kind == CONVENTIONAL && Covers(ds[i], page);
    RegionTracked(ds, i);
  }

  /** The first state of a run: nothing is held. */
  function Fresh(a: Allocator, bitmap: nat, m: seq<byte>): System {
    System(a, bitmap, m, {})
  }

  /** A successful start-up is a good state to run from. */
  lemma StartIsGood(ds: seq<Descriptor>, kernelStart: nat, kernelSize: nat, bitmap: nat, a: Allocator, m: seq<byte>)
    requires WellFormed(ds) && Initialised(ds, kernelStart, kernelSize, bitmap, a)
    requires forall i :: 0 <= i < |ds| && ds[i].kind == CONVENTIONAL ==> EndOf(ds[i]) <= |m|
    requires bitmap + 8 * |a.words| <= |m| && WordsAt(m, bitmap, |a.words|) == a.words
    ensures Good(Fresh(a, bitmap, m))
  {
    hide Free, WordsAt, ConventionalPages;
    forall p | p in Free(a.words)
      ensures LOW_MEMORY_LIMIT / PAGE_SIZE <= p && (p + 1) * PAGE_SIZE <= |m| && !Touches(bitmap, 8 * |a.words|, p)
    {
      ConventionalBytes(ds, p);
      assert p !in Overlapping(0, LOW_MEMORY_LIMIT);
      assert p !in Overlapping(bitmap, 8 * |a.words|);
    }
  }

  /** A state with nothing held whose bitmap is the one start-up built. */
  ghost predicate AsStarted(ds: seq<Descriptor>, kernelStart: nat, kernelSize: nat, a: Allocator, s: System) {
    && Initialised(ds, kernelStart, kernelSize, s.bitmap, a)
    && Good(s) && s.held == {} && s.alloc.words == a.words && s.alloc.pageCount == a.pageCount
  }

  /** Nothing but free-at-start memory is ever handed out: in every disciplined run
      from such a state, an address returned is 0 or a page of a conventional region,
      at or above 1 MiB, that neither the kernel image nor the bitmap touches. */
  lemma OnlyFreeMemoryHandedOut(ds: seq<Descriptor>, kernelStart: nat, kernelSize: nat, a: Allocator,
                                s: System, ops: seq<Op>, r: nat)
    requires AsStarted(ds, kernelStart, kernelSize, a, s)
    requires DisciplinedRun(s, ops) && r in Results(s, ops) && r != 0
    ensures r % PAGE_SIZE == 0 && LOW_MEMORY_LIMIT <= r
    ensures exists i :: 0 <= i < |ds| && ds[i].kind == CONVENTIONAL && Covers(ds[i], r / PAGE_SIZE)
    ensures !Touches(kernelStart, kernelSize, r / PAGE_SIZE)
    ensures !Touches(s.bitmap, BitmapBytes(s), r / PAGE_SIZE)
  {
    ResultsComeFromPool(s, ops, r);
    hide Good, Results, DisciplinedRun, Free, Initialised;
    FreeExactly(ds, kernelStart, kernelSize, s.bitmap, a, r / PAGE_SIZE);
  }

  /** Bytes in no conventional region belong to neither the bitmap nor the pool. */
  lemma Unmanaged(ds: seq<Descriptor>, kernelStart: nat, kernelSize: nat, a: Allocator, s: System, lo: nat, n: nat)
    requires WellFormed(ds) && AsStarted(ds, kernelStart, kernelSize, a, s) && OutsideConventional(ds, lo, n)
    ensures forall i :: lo <= i < lo + n ==> !Managed(s, i)
  {
    BitmapInsideRegion(ds, kernelStart, kernelSize, s.bitmap, a);
    hide Good, Initialised;
    forall i | lo <= i < lo + n ensures !Managed(s, i) {
      NotConventional(ds, lo, n, i);
      FreeExactlyConventional(ds, kernelStart, kernelSize, s.bitmap, a, i / PAGE_SIZE);
    }
  }

  /** Bytes in no conventional region are never written by any disciplined run. */
  lemma OtherMemoryUntouched(ds: seq<Descriptor>, kernelStart: nat, kernelSize: nat, a: Allocator,
                             s: System, t: System, lo: nat, n: nat)
    requires WellFormed(ds) && AsStarted(ds, kernelStart, kernelSize, a, s) && SameArena(s, t)
    requires OutsideConventional(ds, lo, n) && lo + n <= |s.ram|
    ensures AgreeOn(s.ram, t.ram, lo, lo + n)
  {
    Unmanaged(ds, kernelStart, kernelSize, a, s, lo, n);
    hide AsStarted, Managed;
  }

  lemma FreeExactlyConventional(ds: seq<Descriptor>, kernelStart: nat, kernelSize: nat, bitmap: nat, a: Allocator, page: nat)
    requires Initialised(ds, kernelStart, kernelSize, bitmap, a)
    ensures page in Free(a.words) ==> page in ConventionalPages(ds)
  {
    hide Free, Overlapping;
  }

  lemma NotConventional(ds: seq<Descriptor>, lo: nat, n: nat, i: nat)
    requires WellFormed(ds) && OutsideConventional(ds, lo, n) && lo <= i < lo + n
    ensures i / PAGE_SIZE !in ConventionalPages(ds)
  {
    if i / PAGE_SIZE in ConventionalPages(ds) {
      ConventionalBytes(ds, i / PAGE_SIZE);
      assert false;
    }
  }

  /** The bitmap lies inside one conventional region. */
  lemma BitmapInsideRegion(ds: seq<Descriptor>, kernelStart: nat, kernelSize: nat, bitmap: nat, a: Allocator)
    requires Initialised(ds, kernelStart, kernelSize, bitmap, a)
    ensures exists i :: 0 <= i < |ds| && ds[i].kind == CONVENTIONAL
                        && ds[i].start == bitmap && bitmap + 8 * |a.words| <= EndOf(ds[i])
  {
    PlacementIsFirstFit(ds, 8 * |a.words|);
  }

  /** Page-rounding loses none of the bitmap: its pages are all tracked. */
  lemma BitmapPagesTracked(ds: seq<Descriptor>, kernelStart: nat, kernelSize: nat, bitmap: nat, a: Allocator, page: nat)
    requires WellFormed(ds) && Initialised(ds, kernelStart, kernelSize, bitmap, a)
    requires Touches(bitmap, 8 * |a.words|, page)
    ensures page < a.pageCount
  {
    BitmapInsideRegion(ds, kernelStart, kernelSize, bitmap, a);
    var i :| 0 <= i < |ds| && ds[i].kind == CONVENTIONAL
             && ds[i].start == bitmap && bitmap + 8 * |a.words| <= EndOf(ds[i]);
    RegionTracked(ds, i);
  }

  /** When no conventional region overlaps the kernel image, neither does the bitmap. */
  lemma BitmapMissesKernel(ds: seq<Descriptor>, kernelStart: nat, kernelSize: nat, bitmap: nat, a: Allocator)
    requires Initialised(ds, kernelStart, kernelSize, bitmap, a)
    requires OutsideConventional(ds, kernelStart, kernelSize)
    ensures bitmap + 8 * |a.words| <= kernelStart || kernelStart + kernelSize <= bitmap
  {
    BitmapInsideRegion(ds, kernelStart, kernelSize, bitmap, a);
  }

  /** A map with conventional memory from 1 MiB to 2 MiB and nothing else. */
  const ONE_MEGABYTE: seq<Descriptor> := [Descriptor(CONVENTIONAL, 0x10_0000, 256)]

  /** Otherwise it may lie on the kernel: placement looks at the map only, and the kernel
      is reserved after it. */
  lemma BitmapCanCoverKernel(kernelSize: nat, bitmap: nat, a: Allocator)
    requires kernelSize > 0 && Initialised(ONE_MEGABYTE, 0x10_0000, kernelSize, bitmap, a)
    ensures WellFormed(ONE_MEGABYTE) && bitmap == 0x10_0000 && |a.words| == 8
    ensures !(bitmap + 8 * |a.words| <= 0x10_0000 || 0x10_0000 + kernelSize <= bitmap)
  {
    var ds := ONE_MEGABYTE;
    hide Free, Valid, ConventionalPages, Overlapping;
    assert ds[..0] == [] && Top(ds) == 0x20_0000;
  }
}
