/** The allocator's state as a value: bitmap words, counters and scan cursor.
    Bit `n` of the bitmap is page `n`; a set bit means the page is in use. */
module PageBitmap {
  import opened Words

  datatype Allocator = Allocator(words: seq<bv64>, pageCount: nat, freePages: nat, nextWord: nat)

  /** Why the allocator halts the machine. */
  datatype Fault =
    | NoRoomForBitmap
    | UnalignedFree
    | FreeOutsideTracked
    | DoubleFree
    | SelfTestOutOfMemory
    | SelfTestUnaligned
    | SelfTestLowPage
    | SelfTestSamePage
    | SelfTestPattern
    | SelfTestCount

  datatype Option<+T> = None | Some(value: T)

  // ---- the bitmap as a set of free pages -------------------------------------

  predicate Used(words: seq<bv64>, page: nat)
    requires page < 64 * |words|
  {
    Test(words[page / 64], page % 64)
  }

  /** Page numbers whose bit is clear. */
  function Free(words: seq<bv64>): set<nat> {
    set p: nat | p < 64 * |words| && !Used(words, p)
  }

  function MarkUsed(words: seq<bv64>, page: nat): seq<bv64>
    requires page < 64 * |words|
  {
    words[page / 64 := WithBit(words[page / 64], page % 64)]
  }

  function MarkFree(words: seq<bv64>, page: nat): seq<bv64>
    requires page < 64 * |words|
  {
    words[page / 64 := WithoutBit(words[page / 64], page % 64)]
  }

  lemma UsedAfterMarkUsed(words: seq<bv64>, page: nat, q: nat)
    requires page < 64 * |words| && q < 64 * |words|
    ensures Used(MarkUsed(words, page), q) <==> q == page || Used(words, q)
  {
    hide Test, WithBit;
    TestOfWithBit(words[page / 64], page % 64, q % 64);
  }

  lemma UsedAfterMarkFree(words: seq<bv64>, page: nat, q: nat)
    requires page < 64 * |words| && q < 64 * |words|
    ensures Used(MarkFree(words, page), q) <==> q != page && Used(words, q)
  {
    hide Test, WithoutBit;
    TestOfWithoutBit(words[page / 64], page % 64, q % 64);
  }

  /** Or-ing one mask into one word removes exactly that page from the free set. */
  lemma FreeAfterMarkUsed(words: seq<bv64>, page: nat)
    requires page < 64 * |words|
    ensures |MarkUsed(words, page)| == |words|
    ensures Free(MarkUsed(words, page)) == Free(words) - {page}
  {
    forall q: nat | q < 64 * |words|
      ensures Used(MarkUsed(words, page), q) <==> q == page || Used(words, q)
    {
      UsedAfterMarkUsed(words, page, q);
    }
    hide Used, MarkUsed;
  }

  /** And-ing one complemented mask adds exactly that page. */
  lemma FreeAfterMarkFree(words: seq<bv64>, page: nat)
    requires page < 64 * |words|
    ensures |MarkFree(words, page)| == |words|
    ensures Free(MarkFree(words, page)) == Free(words) + {page}
  {
    forall q: nat | q < 64 * |words|
      ensures Used(MarkFree(words, page), q) <==> q != page && Used(words, q)
    {
      UsedAfterMarkFree(words, page, q);
    }
    hide Used, MarkFree;
  }

  /** A word equals ~0 exactly when none of its 64 pages is free. */
  lemma FullWordHasNoFreePage(words: seq<bv64>, w: nat)
    requires w < |words|
    ensures words[w] == ALL_ONES <==> forall p: nat :: p in Free(words) ==> p / 64 != w
  {
    FullWordTests(words[w]);
    hide Test;
    forall i: nat | i < 64 && !Test(words[w], i)
      ensures (64 * w + i) in Free(words) && (64 * w + i) / 64 == w
    {
      assert (64 * w + i) / 64 == w && (64 * w + i) % 64 == i;
    }
    forall p: nat | p in Free(words) && p / 64 == w
      ensures !Test(words[w], p % 64)
    {
    }
  }

  lemma FullBitmapHasNoFreePage(words: seq<bv64>)
    requires forall k :: 0 <= k < |words| ==> words[k] == ALL_ONES
    ensures Free(words) == {}
  {
    forall p: nat | p in Free(words) ensures false {
      FullWordHasNoFreePage(words, p / 64);
    }
  }

  /** The bitmap is determined by its free set. */
  lemma SameFreeSameWords(u: seq<bv64>, v: seq<bv64>)
    requires |u| == |v| && Free(u) == Free(v)
    ensures u == v
  {
    hide Test;
    forall w: nat | w < |u| ensures u[w] == v[w] {
      forall i: nat | i < 64 ensures Test(u[w], i) <==> Test(v[w], i) {
        assert (64 * w + i) / 64 == w && (64 * w + i) % 64 == i;
        assert (64 * w + i) in Free(u) <==> (64 * w + i) in Free(v);
      }
      SameTestsSameWord(u[w], v[w]);
    }
  }

  /** There are at most as many free pages as bits. */
  lemma FreeCountBound(words: seq<bv64>)
    ensures |Free(words)| <= 64 * |words|
  {
    RangeSize(64 * |words|);
    CardinalityMonotone(Free(words), Below(64 * |words|));
  }

  function Below(n: nat): set<nat> {
    if n == 0 then {} else Below(n - 1) + {n - 1}
  }

  lemma {:induction false} RangeSize(n: nat)
    ensures |Below(n)| == n
    ensures forall p: nat :: p in Below(n) <==> p < n
  {
    if n > 0 {
      RangeSize(n - 1);
    }
  }

  lemma {:induction false} CardinalityMonotone<T>(a: set<T>, b: set<T>)
    requires a <= b
    ensures |a| <= |b|
  {
    if a != {} {
      var x :| x in a;
      CardinalityMonotone(a - {x}, b - {x});
    }
  }

  ghost function Min(s: set<nat>): (m: nat)
    requires s != {}
    ensures m in s && forall x :: x in s ==> m <= x
  {
    var x :| x in s;
    if s == {x} then x
    else
      var m := Min(s - {x});
      assert forall y :: y in s ==> y == x || y in s - {x};
      if x < m then x else m
  }

  // ---- invariants -------------------------------------------------------------

  /** Shape and count: enough words for the pages, a cursor inside them, and a
      counter equal to the number of clear bits. */
  ghost predicate Consistent(a: Allocator) {
    && |a.words| == (a.pageCount + 63) / 64
    && (a.nextWord < |a.words| || (a.nextWord == 0 && a.words == []))
    && a.freePages == |Free(a.words)|
  }

  /** The bits past the last page stay set. */
  ghost predicate TailUsed(a: Allocator) {
    forall p: nat :: p in Free(a.words) ==> p < a.pageCount
  }

  /** Every word below the cursor is full. */
  ghost predicate CursorTight(a: Allocator) {
    forall p: nat :: p in Free(a.words) ==> a.nextWord <= p / 64
  }

  ghost predicate Valid(a: Allocator) {
    Consistent(a) && TailUsed(a) && CursorTight(a)
  }

  // ---- allocation: the cursor-guided circular scan -----------------------------

  /** The n-th word the scan looks at. */
  function Probe(size: nat, start: nat, n: nat): nat
    requires start < size && n < size
  {
    if start + n < size then start + n else start + n - size
  }

  /** How many full words the scan skips, beginning with the n-th. */
  function Skipped(words: seq<bv64>, start: nat, n: nat): nat
    requires start < |words| || words == []
    requires n <= |words|
    decreases |words| - n
  {
    if n == |words| || words[Probe(|words|, start, n)] != ALL_ONES then n
    else Skipped(words, start, n + 1)
  }

  /** State after an allocation, the address returned, and how many words were read. */
  datatype Allocation = Allocation(after: Allocator, phys: nat, inspected: nat)

  /** Lowest free page of word `w`, found by counting trailing zeros of its complement. */
  function LowestFreeIn(words: seq<bv64>, w: nat): (page: nat)
    requires w < |words| && words[w] != ALL_ONES
    ensures page / 64 == w && page < 64 * |words|
    ensures page in Free(words)
  {
    ClearBitIsFree(words, w, LowestClear(words[w]));
    w * 64 + LowestClear(words[w])
  }

  lemma LowestFreeInIs(words: seq<bv64>, w: nat)
    requires w < |words| && words[w] != ALL_ONES
    ensures LowestFreeIn(words, w) == w * 64 + LowestClear(words[w])
  {
  }

  ghost function NextFit(a: Allocator): Allocation
    requires Consistent(a)
  {
    var n := Skipped(a.words, a.nextWord, 0);
    SkippedStops(a.words, a.nextWord, 0);
    if n == |a.words| then
      Allocation(a, 0, n)
    else
      var w := Probe(|a.words|, a.nextWord, n);
      var page := LowestFreeIn(a.words, w);
      Allocation(Allocator(MarkUsed(a.words, page), a.pageCount, a.freePages - 1, w),
                 page * PAGE_SIZE, n + 1)
  }

  lemma {:induction false} SkippedStops(words: seq<bv64>, start: nat, n: nat)
    requires start < |words| || words == []
    requires n <= |words|
    ensures n <= Skipped(words, start, n) <= |words|
    ensures forall k: nat :: n <= k < Skipped(words, start, n) ==> words[Probe(|words|, start, k)] == ALL_ONES
    ensures Skipped(words, start, n) < |words| ==>
              words[Probe(|words|, start, Skipped(words, start, n))] != ALL_ONES
    decreases |words| - n
  {
    if n < |words| && words[Probe(|words|, start, n)] == ALL_ONES {
      SkippedStops(words, start, n + 1);
    }
  }

  lemma ClearBitIsFree(words: seq<bv64>, w: nat, i: nat)
    requires w < |words| && i < 64 && !Test(words[w], i)
    ensures (w * 64 + i) < 64 * |words| && (w * 64 + i) in Free(words)
    ensures (w * 64 + i) / 64 == w && (w * 64 + i) % 64 == i
    ensures |Free(words)| > 0
  {
    hide Test;
    assert (w * 64 + i) / 64 == w && (w * 64 + i) % 64 == i;
    assert (w * 64 + i) in Free(words);
  }

  /** The specification: remove the least element of the free set and leave the
      cursor on its word; 0 when the set is empty. */
  ghost function FirstFit(a: Allocator): (r: (Allocator, nat))
    requires Consistent(a)
  {
    if Free(a.words) == {} then (a, 0)
    else
      var page := Min(Free(a.words));
      (Allocator(MarkUsed(a.words, page), a.pageCount, a.freePages - 1, page / 64), page * PAGE_SIZE)
  }

  lemma AllSkippedNoneFree(a: Allocator)
    requires Consistent(a)
    requires Skipped(a.words, a.nextWord, 0) == |a.words|
    ensures Free(a.words) == {}
  {
    SkippedStops(a.words, a.nextWord, 0);
    hide Test, Skipped;
    forall p: nat | p in Free(a.words) ensures false {
      assert Probe(|a.words|, a.nextWord, Distance(a, p)) == p / 64;
      FullWordHasNoFreePage(a.words, p / 64);
    }
  }

  lemma SkippedFewerAreNearer(a: Allocator, q: nat)
    requires Consistent(a) && q in Free(a.words)
    ensures Skipped(a.words, a.nextWord, 0) <= Distance(a, q)
  {
    SkippedStops(a.words, a.nextWord, 0);
    hide Test, Skipped;
    if Distance(a, q) < Skipped(a.words, a.nextWord, 0) {
      assert Probe(|a.words|, a.nextWord, Distance(a, q)) == q / 64;
      FullWordHasNoFreePage(a.words, q / 64);
    }
  }

  lemma LowestOfWord(words: seq<bv64>, w: nat)
    requires w < |words| && words[w] != ALL_ONES
    ensures forall q: nat :: q in Free(words) && q / 64 == w ==> LowestFreeIn(words, w) <= q
  {
    hide Test, LowestClear;
    forall q: nat | q in Free(words) && q / 64 == w ensures LowestFreeIn(words, w) <= q {
      assert !Test(words[w], q % 64);
    }
  }

  /** What one scan does, without any assumption on where the free pages are:
      it stops at the first word in circular order that has a hole and takes the
      lowest page of that word, or returns 0 after reading every word. */
  lemma NextFitTakesAFreePage(a: Allocator)
    requires Consistent(a)
    ensures Free(a.words) == {} ==> NextFit(a) == Allocation(a, 0, |a.words|)
    ensures Free(a.words) != {} ==> exists page: nat :: page in Free(a.words) && Taken(a, page)
  {
    SkippedStops(a.words, a.nextWord, 0);
    hide Test, LowestFreeIn, Skipped, Free, MarkUsed;
    var n := Skipped(a.words, a.nextWord, 0);
    if n == |a.words| {
      AllSkippedNoneFree(a);
    } else {
      var w := Probe(|a.words|, a.nextWord, n);
      LowestOfWord(a.words, w);
      var page := LowestFreeIn(a.words, w);
      forall q: nat | q in Free(a.words) && q / 64 != w
        ensures Distance(a, page) < Distance(a, q)
      {
        SkippedFewerAreNearer(a, q);
      }
      assert Taken(a, page);
    }
  }

  /** How far the word of `page` lies from the cursor, going round the bitmap. */
  function Distance(a: Allocator, page: nat): nat
    requires a.nextWord <= |a.words|
  {
    if page / 64 >= a.nextWord then page / 64 - a.nextWord
    else page / 64 + |a.words| - a.nextWord
  }

  ghost predicate Taken(a: Allocator, page: nat)
    requires Consistent(a) && page in Free(a.words)
  {
    && NextFit(a).phys == page * PAGE_SIZE
    && NextFit(a).after == Allocator(MarkUsed(a.words, page), a.pageCount, a.freePages - 1, page / 64)
    && NextFit(a).inspected == Distance(a, page) + 1
    && (forall q: nat :: q in Free(a.words) && q / 64 == page / 64 ==> page <= q)
    && (forall q: nat :: q in Free(a.words) && q / 64 != page / 64 ==> Distance(a, page) < Distance(a, q))
  }

  /** First-fit in disguise: while every word below the cursor is full, the
      circular scan returns the lowest free page, never wraps, and reads exactly
      the words from the old cursor to the new one. */
  lemma NextFitIsFirstFit(a: Allocator)
    requires Consistent(a) && CursorTight(a)
    ensures (NextFit(a).after, NextFit(a).phys) == FirstFit(a)
    ensures NextFit(a).inspected ==
            if Free(a.words) == {} then |a.words| else NextFit(a).after.nextWord - a.nextWord + 1
  {
    NextFitTakesAFreePage(a);
    hide NextFit;
    if Free(a.words) != {} {
      var page: nat :| page in Free(a.words) && Taken(a, page);
      assert page == Min(Free(a.words));
    }
  }

  /** The guard is exact: from any consistent state the scan returns the lowest
      free page if and only if the free pages do not straddle the cursor. */
  lemma LowestExactlyUnlessStraddling(a: Allocator)
    requires Consistent(a)
    ensures NextFit(a).phys == FirstFit(a).1 <==>
              || (forall p: nat :: p in Free(a.words) ==> a.nextWord <= p / 64)
              || (forall p: nat :: p in Free(a.words) ==> p / 64 < a.nextWord)
  {
    NextFitTakesAFreePage(a);
    hide NextFit;
    if Free(a.words) != {} {
      var page: nat :| page in Free(a.words) && Taken(a, page);
      var least := Min(Free(a.words));
      assert NextFit(a).phys == FirstFit(a).1 <==> page == least;
      if page / 64 < a.nextWord {
        assert forall q: nat :: q in Free(a.words) ==> q / 64 < a.nextWord;
      }
    }
  }

  // ---- release -------------------------------------------------------------------

  datatype Release = Halt(why: Fault) | Continue(after: Allocator)

  /** What giving back an address does: three checks, then clear the bit and pull
      the cursor back to its word. */
  ghost function Give(a: Allocator, phys: nat): Release
    requires Consistent(a)
  {
    var page := phys / PAGE_SIZE;
    if phys % PAGE_SIZE != 0 then Halt(UnalignedFree)
    else if page >= a.pageCount then Halt(FreeOutsideTracked)
    else if page in Free(a.words) then Halt(DoubleFree)
    else Continue(Allocator(MarkFree(a.words, page), a.pageCount, a.freePages + 1,
                            if page / 64 < a.nextWord then page / 64 else a.nextWord))
  }

  // ---- the invariants survive every operation ---------------------------------------

  /** The new words differ from the old in word `w` at most. */
  predicate OneWordStored(words: seq<bv64>, after: seq<bv64>, w: nat) {
    w < |words| == |after| && after == words[w := after[w]]
  }

  /** One allocation from a valid state: the least free page leaves the free set,
      or nothing changes and the result is 0. */
  lemma AllocationKeepsValid(a: Allocator)
    requires Valid(a)
    ensures Valid(NextFit(a).after) && NextFit(a).after.pageCount == a.pageCount
    ensures |NextFit(a).after.words| == |a.words|
    ensures Free(a.words) == {} ==> NextFit(a).after == a && NextFit(a).phys == 0
    ensures Free(a.words) != {} ==>
              && NextFit(a).phys == Min(Free(a.words)) * PAGE_SIZE
              && NextFit(a).phys / PAGE_SIZE == Min(Free(a.words))
              && OneWordStored(a.words, NextFit(a).after.words, NextFit(a).after.nextWord)
              && Free(NextFit(a).after.words) == Free(a.words) - {Min(Free(a.words))}
  {
    NextFitIsFirstFit(a);
    hide NextFit;
    if Free(a.words) != {} {
      hide WithBit, Free;
      FreeAfterMarkUsed(a.words, Min(Free(a.words)));
    }
  }

  /** One release from a valid state of a tracked page that is in use. */
  lemma ReleaseKeepsValid(a: Allocator, phys: nat)
    requires Valid(a)
    requires phys % PAGE_SIZE == 0 && phys / PAGE_SIZE < a.pageCount && phys / PAGE_SIZE !in Free(a.words)
    ensures Give(a, phys).Continue?
    ensures Valid(Give(a, phys).after) && Give(a, phys).after.pageCount == a.pageCount
    ensures |Give(a, phys).after.words| == |a.words|
    ensures Free(Give(a, phys).after.words) == Free(a.words) + {phys / PAGE_SIZE}
    ensures OneWordStored(a.words, Give(a, phys).after.words, phys / PAGE_SIZE / 64)
  {
    hide WithoutBit, Free;
    FreeAfterMarkFree(a.words, phys / PAGE_SIZE);
  }
}
