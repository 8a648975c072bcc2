/** The physical memory manager: a page bitmap kept in the memory it manages. */
module Pmm {
  import opened Words
  import opened Storage
  import opened MemoryMap
  import opened PageBitmap

  /** 2^46 words cover the 2^52 pages of a 64-bit address space. */
  const MAX_WORDS := 0x4000_0000_0000

  /** What the allocator trusts at start-up: BootInfo and the map it points at are
      readable and well formed, lie in no conventional region, and conventional
      memory is backed by RAM. */
  ghost predicate Bootable(m: seq<byte>, bi: nat, info: MapInfo, ds: seq<Descriptor>) {
    && HandsOver(m, bi, info, ds) && WellFormed(ds)
    && OutsideConventional(ds, bi, BOOT_INFO_BYTES)
    && OutsideConventional(ds, info.ptr, info.size)
    && forall i :: 0 <= i < |ds| && ds[i].kind == CONVENTIONAL ==> EndOf(ds[i]) <= |m|
  }

  /** The state a successful start-up must reach. */
  ghost predicate Initialised(ds: seq<Descriptor>, kernelStart: nat, kernelSize: nat, bitmap: nat, a: Allocator) {
    var words := TrackedWords(ds);
    && a.pageCount == TrackedPages(ds) && |a.words| == words && a.nextWord == 0
    && bitmap != 0 && bitmap == Placement(ds, 8 * words)
    && Valid(a)
    && Free(a.words) == ConventionalPages(ds) - Overlapping(0, LOW_MEMORY_LIMIT)
                        - Overlapping(kernelStart, kernelSize) - Overlapping(bitmap, 8 * words)
  }

  class PageAllocator {
    const ram: Ram
    var bitmap: u64
    var bitmapWords: u64
    var pageCount: u64
    var freePages: u64
    var nextWord: u64

    /** The bitmap lies inside memory. */
    ghost predicate Mapped()
      reads this, ram
    {
      bitmapWords <= MAX_WORDS && bitmap + 8 * bitmapWords <= |ram.cells|
    }

    /** The words memory holds at the bitmap's address. */
    ghost function Bits(): (words: seq<bv64>)
      requires Mapped()
      reads this, ram
      ensures |words| == bitmapWords
    {
      WordsAt(ram.cells, bitmap, bitmapWords)
    }

    ghost function View(): Allocator
      requires Mapped()
      reads this, ram
    {
      Allocator(Bits(), pageCount, freePages, nextWord)
    }

    /** Between two states the allocator wrote nothing but its own bitmap. */
    twostate predicate OnlyBitmapWritten()
      reads this, ram
    {
      && bitmap == old(bitmap) && bitmapWords == old(bitmapWords)
      && AgreeOutside(old(ram.cells), ram.cells, bitmap, bitmap + 8 * bitmapWords)
    }

    constructor (memory: Ram)
      ensures ram == memory
    {
      ram := memory;
      bitmap, bitmapWords, pageCount, freePages, nextWord := 0, 0, 0, 0, 0;
    }

    // ---- bit operations ---------------------------------------------------------

    method LoadWord(w: u64) returns (word: bv64)
      requires Mapped() && w < bitmapWords
      ensures word == Bits()[w]
    {
      var v := ram.Load64(bitmap + 8 * w);
      word := ToWord(v);
    }

    method StoreWord(w: u64, word: bv64)
      requires Mapped() && w < bitmapWords
      modifies ram
      ensures Mapped() && OnlyBitmapWritten()
      ensures Bits() == old(Bits())[w := word]
      ensures ram.cells == PutWord(old(ram.cells), bitmap, w, word)
    {
      WordsAfterPut(ram.cells, bitmap, bitmapWords, w, word);
      ram.Write(bitmap + 8 * w, Bytes64(FromWord(word)));
      hide Splice, WordsAt, WordAt, FromWord, ToWord;
    }

    method PageIsUsed(page: u64) returns (used: bool)
      requires Mapped() && page < 64 * bitmapWords
      ensures used <==> Used(Bits(), page)
      ensures used <==> page !in Free(Bits())
    {
      var word := LoadWord(page / 64);
      hide Test;
      used := Test(word, page % 64);
    }

    method MarkPageUsed(page: u64)
      requires Mapped() && page < 64 * bitmapWords && freePages == |Free(Bits())|
      modifies this`freePages, ram
      ensures Mapped() && OnlyBitmapWritten() && freePages == |Free(Bits())|
      ensures Bits() == MarkUsed(old(Bits()), page)
      ensures Free(Bits()) == old(Free(Bits())) - {page}
      ensures ram.cells == if page in old(Free(Bits()))
                           then PutWord(old(ram.cells), bitmap, page / 64, Bits()[page / 64])
                           else old(ram.cells)
    {
      hide WithBit, Test, WordsAt, PutWord;
      FreeAfterMarkUsed(Bits(), page);
      var used := PageIsUsed(page);
      if !used {
        var word := LoadWord(page / 64);
        StoreWord(page / 64, WithBit(word, page % 64));
        freePages := freePages - 1;
      } else {
        SameFreeSameWords(Bits(), MarkUsed(Bits(), page));
      }
    }

    method MarkPageFree(page: u64)
      requires Mapped() && page < 64 * bitmapWords && freePages == |Free(Bits())|
      modifies this`freePages, ram
      ensures Mapped() && OnlyBitmapWritten() && freePages == |Free(Bits())|
      ensures Bits() == MarkFree(old(Bits()), page)
      ensures Free(Bits()) == old(Free(Bits())) + {page}
      ensures ram.cells == if page in old(Free(Bits()))
                           then old(ram.cells)
                           else PutWord(old(ram.cells), bitmap, page / 64, Bits()[page / 64])
    {
      hide WithoutBit, Test, WordsAt, PutWord;
      FreeAfterMarkFree(Bits(), page);
      FreeCountBound(Bits());
      FreeCountBound(MarkFree(Bits(), page));
      var used := PageIsUsed(page);
      if used {
        var word := LoadWord(page / 64);
        StoreWord(page / 64, WithoutBit(word, page % 64));
        freePages := freePages + 1;
      } else {
        SameFreeSameWords(Bits(), MarkFree(Bits(), page));
      }
    }
 
    method ReserveRun(first: u64, last: u64)
      requires Mapped() && freePages == |Free(Bits())| && last <= 64 * bitmapWords
      modifies this`freePages, ram
      ensures Mapped() && OnlyBitmapWritten() && freePages == |Free(Bits())|
      ensures forall q: nat :: q in Free(Bits()) <==> q in old(Free(Bits())) && !(first <= q < last)
    {
      hide WordsAt, Free, PutWord;
      var p := first;
      while p < last
        invariant first <= p && (p <= last || p == first)
        invariant Mapped() && OnlyBitmapWritten() && freePages == |Free(Bits())|
        invariant forall q: nat :: q in Free(Bits()) <==> q in old(Free(Bits())) && !(first <= q < p)
      {
        MarkPageUsed(p);
        p := p + 1;
      }
    }

    /** Reserves every page the byte range touches, clamped to the tracked pages. */
    method ReserveRange(base: u64, size: u64)
      requires Mapped() && Consistent(View()) && TailUsed(View())
      requires base + size + PAGE_SIZE <= 0x1_0000_0000_0000_0000
      modifies this`freePages, ram
      ensures Mapped() && OnlyBitmapWritten() && Consistent(View()) && TailUsed(View())
      ensures Free(Bits()) == old(Free(Bits())) - Overlapping(base, size)
    {
      hide WordsAt, Free, Overlapping;
      var first: u64 := base / PAGE_SIZE;
      var last: u64 := (base + size + PAGE_SIZE - 1) / PAGE_SIZE;
      if last > pageCount {
        last := pageCount;
      }
      ghost var before := Free(Bits());
      ReserveRun(first, last);
      RangeRemoved(before, Free(Bits()), base, size, last, pageCount);
    }

    /** Takes the lowest free page of a word with a hole and leaves the cursor there. */
    method TakeFrom(w: u64) returns (phys: u64)
      requires Mapped() && freePages == |Free(Bits())|
      requires w < bitmapWords && Bits()[w] != ALL_ONES
      modifies this`freePages, this`nextWord, ram
      ensures Mapped() && OnlyBitmapWritten()
      ensures var page := LowestFreeIn(old(Bits()), w);
        && phys == page * PAGE_SIZE && Bits() == MarkUsed(old(Bits()), page)
      ensures freePages == old(freePages) - 1 && nextWord == w
      ensures ram.cells == PutWord(old(ram.cells), bitmap, w, Bits()[w])
    {
      hide WordsAt, Free, LowestClear, LowestFreeIn, MarkUsed, PutWord;
      LowestFreeInIs(Bits(), w);
      var word := LoadWord(w);
      var page: u64 := w * 64 + LowestClear(word);
      MarkPageUsed(page);
      ghost var after := Bits();
      nextWord := w;
      assert Bits() == after;
      phys := page * PAGE_SIZE;
    }

    /** Scans for a word with a hole, starting at the cursor and going round once. */
    method AllocPage() returns (phys: u64, ghost inspected: nat)
      requires Mapped() && Consistent(View())
      modifies this`freePages, this`nextWord, ram
      ensures Mapped() && OnlyBitmapWritten()
      ensures Allocation(View(), phys, inspected) == NextFit(old(View()))
      ensures old(Free(Bits())) != {} ==> nextWord < bitmapWords
      ensures ram.cells == if old(Free(Bits())) == {} then old(ram.cells)
                           else PutWord(old(ram.cells), bitmap, nextWord, Bits()[nextWord])
    {
      hide WordsAt, Free, LowestFreeIn, MarkUsed, PutWord;
      ghost var before := View();
      SkippedStops(before.words, before.nextWord, 0);
      var n: u64 := 0;
      while n < bitmapWords
        invariant n <= bitmapWords
        invariant Mapped() && View() == before && ram.cells == old(ram.cells)
        invariant Skipped(before.words, before.nextWord, 0) == Skipped(before.words, before.nextWord, n)
      {
        var w: u64 := nextWord + n;
        if w >= bitmapWords {
          w := w - bitmapWords;
        }
        assert w == Probe(|before.words|, before.nextWord, n);
        var word := LoadWord(w);
        if word != ALL_ONES {
          assert LowestFreeIn(before.words, w) in Free(before.words);
          phys := TakeFrom(w);
          inspected := n + 1;
          return;
        }
        n := n + 1;
      }
      AllSkippedNoneFree(before);
      phys, inspected := 0, n;
    }

    /** Gives a page back; the three checks that fail halt the machine. */
    method FreePage(phys: u64) returns (fault: Option<Fault>)
      requires Mapped() && Consistent(View())
      modifies this`freePages, this`nextWord, ram
      ensures Mapped() && OnlyBitmapWritten()
      ensures Give(old(View()), phys) ==
              if fault.Some? then Halt(fault.value) else Continue(View())
      ensures fault.Some? ==> ram.cells == old(ram.cells)
      ensures fault == if phys % 4096 != 0 then Some(UnalignedFree)
                       else if phys / 4096 >= pageCount then Some(FreeOutsideTracked)
                       else if phys / 4096 in old(Free(Bits())) then Some(DoubleFree)
                       else None
      ensures fault.None? ==>
        nextWord == if phys / 4096 / 64 < old(nextWord) then phys / 4096 / 64 else old(nextWord)
      ensures fault.None? ==> phys / PAGE_SIZE / 64 < bitmapWords
      ensures fault.None? ==>
        ram.cells == PutWord(old(ram.cells), bitmap, phys / PAGE_SIZE / 64, Bits()[phys / PAGE_SIZE / 64])
    {
      hide WordsAt, Free, Used, MarkFree, PutWord;
      var page: u64 := phys / PAGE_SIZE;
      if phys % PAGE_SIZE != 0 {
        return Some(UnalignedFree);
      }
      if page >= pageCount {
        return Some(FreeOutsideTracked);
      }
      var used := PageIsUsed(page);
      if !used {
        return Some(DoubleFree);
      }
      MarkPageFree(page);
      if page / 64 < nextWord {
        nextWord := page / 64;
      }
      return None;
    }

    // ---- start-up -----------------------------------------------------------------

    /** Reads descriptor `i` of the map BootInfo points at. */
    method DescAt(bi: u64, i: u64, ghost info: MapInfo, ghost ds: seq<Descriptor>) returns (d: Descriptor)
      requires HandsOver(ram.cells, bi, info, ds) && i < |ds|
      ensures d == ds[i]
    {
      EntryInside(info, i);
      var ptr := ram.Load64(bi + 40);
      var stride := ram.Load64(bi + 56);
      var at := ptr + i * stride;
      assert at == EntryAddress(info, i);
      var kind := ram.Load32(at);
      var start := ram.Load64(at + 8);
      var pages := ram.Load64(at + 24);
      assert ds[i] == DescriptorAt(ram.cells, info, i);
      d := Descriptor(kind, start, pages);
    }

    /** Pass 1: the end of the highest region that may become free. */
    method FindTop(bi: u64, entries: u64, ghost info: MapInfo, ghost ds: seq<Descriptor>) returns (top: u64)
      requires HandsOver(ram.cells, bi, info, ds) && WellFormed(ds) && entries == |ds|
      ensures top == Top(ds)
    {
      hide HandsOver, Get64;
      top := 0;
      var i: u64 := 0;
      while i < entries
        invariant i <= entries && top == Top(ds[..i])
      {
        var d := DescAt(bi, i, info, ds);
        assert ds[..i + 1][..i] == ds[..i];
        if MayBecomeFree(d.kind) {
          var end: u64 := d.start + d.pages * PAGE_SIZE;
          if end > top {
            top := end;
          }
        }
        i := i + 1;
      }
      assert ds[..i] == ds;
    }

    /** Pass 2: where the bitmap goes. The search ends at its first hit. */
    method FindPlace(bi: u64, entries: u64, bytes: u64, ghost info: MapInfo, ghost ds: seq<Descriptor>)
      returns (at: u64)
      requires HandsOver(ram.cells, bi, info, ds) && WellFormed(ds) && entries == |ds|
      ensures at == Placement(ds, bytes)
    {
      hide HandsOver, Get64;
      at := 0;
      var i: u64 := 0;
      while i < entries && at == 0
        invariant i <= entries
        invariant Placement(ds, bytes) == if at != 0 then at else Placement(ds[i..], bytes)
      {
        var d := DescAt(bi, i, info, ds);
        assert ds[i..][0] == d && ds[i..][1..] == ds[i + 1..];
        if d.kind == CONVENTIONAL && d.start >= LOW_MEMORY_LIMIT && d.pages * PAGE_SIZE >= bytes {
          at := d.start;
        }
        i := i + 1;
      }
    }

    /** Everything starts used, holes and tail bits included. */
    method FillUsed()
      requires Mapped()
      modifies this`freePages, ram
      ensures Mapped() && OnlyBitmapWritten()
      ensures freePages == 0 && Free(Bits()) == {}
    {
      hide WordsAt, Free, PutWord;
      var w: u64 := 0;
      while w < bitmapWords
        invariant w <= bitmapWords && Mapped() && OnlyBitmapWritten()
        invariant forall k :: 0 <= k < w ==> Bits()[k] == ALL_ONES
      {
        StoreWord(w, ALL_ONES);
        w := w + 1;
      }
      FullBitmapHasNoFreePage(Bits());
      freePages := 0;
    }

    method FreeRegion(first: u64, pages: u64)
      requires Mapped() && freePages == |Free(Bits())|
      requires first + pages <= 64 * bitmapWords
      modifies this`freePages, ram
      ensures Mapped() && OnlyBitmapWritten() && freePages == |Free(Bits())|
      ensures forall q: nat :: q in Free(Bits()) <==> q in old(Free(Bits())) || first <= q < first + pages
    {
      hide WordsAt, Free, PutWord;
      var p := first;
      while p < first + pages
        invariant first <= p <= first + pages
        invariant Mapped() && OnlyBitmapWritten() && freePages == |Free(Bits())|
        invariant forall q: nat :: q in Free(Bits()) <==> q in old(Free(Bits())) || first <= q < p
      {
        MarkPageFree(p);
        p := p + 1;
      }
    }

    /** The bitmap's bytes lie in conventional memory, away from BootInfo and the map. */
    ghost predicate Placed(ds: seq<Descriptor>)
      reads this, ram
    {
      && bitmap != 0 && bitmap == Placement(ds, 8 * bitmapWords)
      && bitmapWords == TrackedWords(ds) && pageCount == TrackedPages(ds)
    }

    lemma StillReadable(m: seq<byte>, bi: nat, info: MapInfo, ds: seq<Descriptor>)
      requires Placed(ds) && Bootable(m, bi, info, ds)
      requires AgreeOutside(m, ram.cells, bitmap, bitmap + 8 * bitmapWords)
      ensures Bootable(ram.cells, bi, info, ds)
    {
      PlacementIsFirstFit(ds, 8 * bitmapWords);
      HandOverAgrees(m, ram.cells, bi, info, ds);
    }

    /** Pass 3: clears the bits of conventional regions. */
    method FreeConventional(bi: u64, entries: u64, ghost info: MapInfo, ghost ds: seq<Descriptor>)
      requires Mapped() && Placed(ds) && Bootable(ram.cells, bi, info, ds) && entries == |ds|
      requires freePages == 0 && Free(Bits()) == {}
      modifies this`freePages, ram
      ensures Mapped() && OnlyBitmapWritten() && freePages == |Free(Bits())|
      ensures Free(Bits()) == ConventionalPages(ds)
    {
      hide WordsAt, Free, HandsOver, PagesOf, Get64;
      ghost var m := ram.cells;
      var i: u64 := 0;
      while i < entries
        invariant i <= entries
        invariant Mapped() && OnlyBitmapWritten() && freePages == |Free(Bits())|
        invariant Placed(ds) && Bootable(ram.cells, bi, info, ds)
        invariant Free(Bits()) == ConventionalPages(ds[..i])
      {
        var d := DescAt(bi, i, info, ds);
        ghost var before := Free(Bits());
        if d.kind == CONVENTIONAL {
          RegionTracked(ds, i);
          FreeRegion(d.start / PAGE_SIZE, d.pages);
          StillReadable(m, bi, info, ds);
        }
        OneMoreRegion(ds, i, before, Free(Bits()));
        i := i + 1;
      }
      assert ds[..i] == ds;
    }

    method CountEntries(bi: u64, ghost info: MapInfo, ghost ds: seq<Descriptor>) returns (entries: u64)
      requires HandsOver(ram.cells, bi, info, ds)
      ensures entries == |ds|
    {
      var size := ram.Load64(bi + 48);
      var stride := ram.Load64(bi + 56);
      entries := size / stride;
    }

    /** Sizes the bitmap from pass 1 and places it by pass 2. */
    method SizeAndPlace(bi: u64, entries: u64, ghost info: MapInfo, ghost ds: seq<Descriptor>)
      requires Bootable(ram.cells, bi, info, ds) && entries == |ds|
      modifies this
      ensures pageCount == TrackedPages(ds) && bitmapWords == TrackedWords(ds)
      ensures bitmap == Placement(ds, 8 * bitmapWords)
      ensures bitmap != 0 ==> Mapped()
    {
      hide WordsAt, HandsOver, Get64;
      TrackedBound(ds);
      var top := FindTop(bi, entries, info, ds);
      pageCount := top / PAGE_SIZE;
      bitmapWords := (pageCount + 63) / 64;
      bitmap := FindPlace(bi, entries, bitmapWords * 8, info, ds);
      PlacementIsFirstFit(ds, 8 * bitmapWords);
    }

    /** Carves the exceptions back out: low memory, the kernel image, the bitmap itself. */
    method ReserveExceptions(kernelStart: u64, kernelSize: u64)
      requires Mapped() && Consistent(View()) && TailUsed(View())
      requires kernelStart + kernelSize + PAGE_SIZE <= 0x1_0000_0000_0000_0000
      requires bitmap + 8 * bitmapWords + PAGE_SIZE <= 0x1_0000_0000_0000_0000
      modifies this`freePages, ram
      ensures Mapped() && OnlyBitmapWritten() && Consistent(View()) && TailUsed(View())
      ensures Free(Bits()) == old(Free(Bits())) - Overlapping(0, LOW_MEMORY_LIMIT)
                              - Overlapping(kernelStart, kernelSize) - Overlapping(bitmap, 8 * bitmapWords)
    {
      hide WordsAt, Free, Overlapping;
      ReserveRange(0, LOW_MEMORY_LIMIT);
      ReserveRange(kernelStart, kernelSize);
      ReserveRange(bitmap, 8 * bitmapWords);
    }

    /** Builds the bitmap from the map; halts only when no region can hold it. */
    method Init(bi: u64, kernelStart: u64, kernelEnd: u64, ghost info: MapInfo, ghost ds: seq<Descriptor>)
      returns (fault: Option<Fault>)
      requires Bootable(ram.cells, bi, info, ds)
      requires kernelStart <= kernelEnd && kernelEnd + PAGE_SIZE <= 0x1_0000_0000_0000_0000
      modifies this, ram
      ensures fault == if Placement(ds, 8 * TrackedWords(ds)) == 0 then Some(NoRoomForBitmap) else None
      ensures fault.None? ==> Mapped() && bitmapWords == TrackedWords(ds)
      ensures fault.None? ==> Initialised(ds, kernelStart, kernelEnd - kernelStart, bitmap, View())
      ensures fault.None? ==> AgreeOutside(old(ram.cells), ram.cells, bitmap, bitmap + 8 * bitmapWords)
      ensures fault.Some? ==> ram.cells == old(ram.cells)
      ensures TracksExactly(ds, pageCount) && bitmapWords == (pageCount + 63) / 64
      ensures fault.Some? <==> NoRegionFor(ds, 8 * bitmapWords)
      ensures fault.None? ==> FirstRegionFor(ds, 8 * bitmapWords, bitmap)
    {
      hide WordsAt, Free, HandsOver, ConventionalPages, Overlapping, TracksExactly, NoRegionFor, FirstRegionFor;
      TrackedExactly(ds);
      PlacedExactly(ds, 8 * TrackedWords(ds));
      var entries := CountEntries(bi, info, ds);
      SizeAndPlace(bi, entries, info, ds);
      if bitmap == 0 {
        return Some(NoRoomForBitmap);
      }
      ghost var m := ram.cells;
      FillUsed();
      StillReadable(m, bi, info, ds);
      FreeConventional(bi, entries, info, ds);
      nextWord := 0;
      ConventionalTracked(ds);
      PlacementFits(ds, 8 * bitmapWords);
      ReserveExceptions(kernelStart, kernelEnd - kernelStart);
      return None;
    }
  }
}
