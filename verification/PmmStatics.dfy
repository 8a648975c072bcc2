/** The allocator's own variables in memory. They are zero-initialised objects of the
    kernel image, so they share physical memory with the bitmap and with clients: here
    they get an address, and every step of a run is seen as stores to that memory. */
module PmmStatics {
  import opened Words
  import opened Storage
  import opened MemoryMap
  import opened PageBitmap
  import opened PmmRuns
  import opened PmmStart

  const STATIC_BYTES := 40
  const FREE_PAGES := 24
  const NEXT_WORD := 32

  /** The five variables fit their 64 bits. */
  ghost predicate InWidth(s: System) {
    && s.bitmap < 0x1_0000_0000_0000_0000 && |s.alloc.words| < 0x1_0000_0000_0000_0000
    && s.alloc.pageCount < 0x1_0000_0000_0000_0000 && s.alloc.freePages < 0x1_0000_0000_0000_0000
    && s.alloc.nextWord < 0x1_0000_0000_0000_0000
  }

  /** The part that start-up fixes: bitmap, bitmap_words and page_count. */
  ghost function FixedBytes(s: System): (b: seq<byte>)
    requires InWidth(s)
    ensures |b| == FREE_PAGES
  {
    Bytes64(s.bitmap) + Bytes64(|s.alloc.words|) + Bytes64(s.alloc.pageCount)
  }

  /** All five, followed by free_pages and next_word. */
  ghost function StaticBytes(s: System): (b: seq<byte>)
    requires InWidth(s)
    ensures |b| == STATIC_BYTES
  {
    FixedBytes(s) + Bytes64(s.alloc.freePages) + Bytes64(s.alloc.nextWord)
  }

  /** The variables lie at `at`, off the bitmap and off every page of the pool. */
  ghost predicate Housed(s: System, at: nat) {
    && at + STATIC_BYTES <= |s.ram|
    && forall i :: at <= i < at + STATIC_BYTES ==> !Managed(s, i)
  }

  /** Memory as it physically is, the variables included. */
  ghost function Physical(s: System, at: nat): (m: seq<byte>)
    requires InWidth(s) && at + STATIC_BYTES <= |s.ram|
    ensures |m| == |s.ram|
  {
    Splice(s.ram, at, StaticBytes(s))
  }

  /** Bounds that no step changes, and that keep the variables in width. */
  ghost predicate Sized(s: System) {
    |s.ram| < 0x1_0000_0000_0000_0000 && |s.alloc.words| <= 0x4000_0000_0000
  }

  lemma SizedInWidth(s: System)
    requires Good(s) && Sized(s)
    ensures InWidth(s)
  {
    FreeCountBound(s.alloc.words);
    hide Free, WordsAt, PoolUsable, TailUsed, CursorTight;
  }

  lemma SameArenaHoused(s: System, t: System, at: nat)
    requires SameArena(s, t)
    ensures Housed(s, at) ==> Housed(t, at)
    ensures Sized(s) ==> Sized(t)
  {
    hide Pool;
    assert forall i: nat :: Managed(s, i) == Managed(t, i);
  }

  lemma PhysicalElsewhere(s: System, at: nat)
    requires InWidth(s) && at + STATIC_BYTES <= |s.ram|
    ensures forall i :: 0 <= i < |s.ram| && !(at <= i < at + STATIC_BYTES) ==> Physical(s, at)[i] == s.ram[i]
  {
    hide Splice, StaticBytes;
  }

  // ---- reading the variables back -------------------------------------------------------

  /** Physical memory holds the allocator's state, each variable at its offset. */
  lemma StaticsReadBack(s: System, at: nat)
    requires InWidth(s) && at + STATIC_BYTES <= |s.ram|
    ensures Get64(Physical(s, at), at) == s.bitmap
    ensures Get64(Physical(s, at), at + 8) == |s.alloc.words|
    ensures Get64(Physical(s, at), at + 16) == s.alloc.pageCount
    ensures Get64(Physical(s, at), at + 24) == s.alloc.freePages
    ensures Get64(Physical(s, at), at + 32) == s.alloc.nextWord
  {
    hide Bytes64, Get64, Splice;
    var m, b := Physical(s, at), StaticBytes(s);
    assert b[0..8] == Bytes64(s.bitmap) && b[8..16] == Bytes64(|s.alloc.words|);
    assert b[16..24] == Bytes64(s.alloc.pageCount);
    assert b[24..32] == Bytes64(s.alloc.freePages) && b[32..40] == Bytes64(s.alloc.nextWord);
    hide StaticBytes;
    WordInside(m, at, b, 0, s.bitmap);
    WordInside(m, at, b, 8, |s.alloc.words|);
    WordInside(m, at, b, 16, s.alloc.pageCount);
    WordInside(m, at, b, 24, s.alloc.freePages);
    WordInside(m, at, b, 32, s.alloc.nextWord);
  }

  lemma WordInside(m: seq<byte>, at: nat, b: seq<byte>, k: nat, v: u64)
    requires at + |b| <= |m| && m[at..at + |b|] == b
    requires k + 8 <= |b| && b[k..k + 8] == Bytes64(v)
    ensures Get64(m, at + k) == v
  {
    SliceOfSlice(m, at, b, k, k + 8);
    Get64At(m, at + k, v);
  }

  // ---- steps as stores ----------------------------------------------------------------------

  /** Writes that do not meet can be made in either order. */
  lemma SplicesCommute(m: seq<byte>, a: nat, x: seq<byte>, b: nat, y: seq<byte>)
    requires a + |x| <= |m| && b + |y| <= |m| && (a + |x| <= b || b + |y| <= a)
    ensures Splice(Splice(m, a, x), b, y) == Splice(Splice(m, b, y), a, x)
  {
    var l, r := Splice(Splice(m, a, x), b, y), Splice(Splice(m, b, y), a, x);
    forall i | 0 <= i < |m| ensures l[i] == r[i] {
      if a <= i < a + |x| {
        assert Splice(m, a, x)[a + (i - a)] == x[i - a] == r[a + (i - a)];
      } else if b <= i < b + |y| {
        assert l[b + (i - b)] == y[i - b] == Splice(m, b, y)[b + (i - b)];
      }
    }
  }

  /** Storing two new fields at the end of a structure already in memory. */
  lemma TailStored(m: seq<byte>, at: nat, head: seq<byte>, x: seq<byte>, y: seq<byte>, x': seq<byte>, y': seq<byte>)
    requires at + |head| + |x| + |y| <= |m| && |x'| == |x| && |y'| == |y|
    ensures Splice(Splice(Splice(m, at, head + x + y), at + |head|, x'), at + |head| + |x|, y')
            == Splice(m, at, head + x' + y')
  {
    var b := head + x + y;
    var l, r := Splice(Splice(Splice(m, at, b), at + |head|, x'), at + |head| + |x|, y'), Splice(m, at, head + x' + y');
    forall i | 0 <= i < |m| ensures l[i] == r[i] {
      if at <= i < at + |b| {
        assert r[at + (i - at)] == (head + x' + y')[i - at];
        assert Splice(m, at, b)[at + (i - at)] == b[i - at];
        if at + |head| + |x| <= i {
          assert l[at + |head| + |x| + (i - at - |head| - |x|)] == y'[i - at - |head| - |x|];
        } else if at + |head| <= i {
          assert Splice(Splice(m, at, b), at + |head|, x')[at + |head| + (i - at - |head|)] == x'[i - at - |head|];
        }
      }
    }
  }

  /** The three stores of an allocation or release: a bitmap word, free_pages, next_word. */
  ghost function ThreeStores(m: seq<byte>, at: nat, bitmap: nat, w: nat, word: bv64, freePages: u64, nextWord: u64): seq<byte>
    requires at + STATIC_BYTES <= |m| && bitmap + 8 * w + 8 <= |m|
  {
    var stored := PutWord(m, bitmap, w, word);
    Splice(Splice(stored, at + FREE_PAGES, Bytes64(freePages)), at + NEXT_WORD, Bytes64(nextWord))
  }

  /** The same, with a word elsewhere stored first. */
  lemma StoresCommute(m: seq<byte>, at: nat, head: seq<byte>, x: seq<byte>, y: seq<byte>,
                      a: nat, word: seq<byte>, x': seq<byte>, y': seq<byte>)
    requires at + |head| + |x| + |y| <= |m| && |x'| == |x| && |y'| == |y| && a + |word| <= |m|
    requires a + |word| <= at || at + |head| + |x| + |y| <= a
    ensures Splice(Splice(Splice(Splice(m, at, head + x + y), a, word), at + |head|, x'), at + |head| + |x|, y')
            == Splice(Splice(m, a, word), at, head + x' + y')
  {
    hide Splice;
    SplicesCommute(m, at, head + x + y, a, word);
    TailStored(Splice(m, a, word), at, head, x, y, x', y');
  }

  /** A bitmap word and the two counters, stored into physical memory, give the physical
      memory of the next state. */
  lemma StoresAreStep(s: System, after: Allocator, w: nat, held: set<nat>, at: nat)
    requires Good(s) && Resplit(s, after, w, held) && Housed(s, at)
    requires InWidth(s) && InWidth(Stored(s, after, w, held))
    ensures w < |after.words| && s.bitmap + 8 * w + 8 <= |s.ram| && |Stored(s, after, w, held).ram| == |s.ram|
    ensures ThreeStores(Physical(s, at), at, s.bitmap, w, after.words[w], after.freePages, after.nextWord)
            == Physical(Stored(s, after, w, held), at)
  {
    hide Good, Valid, Free, Housed, InWidth, Physical, ThreeStores, PutWord, WordsAt, Pool, Resplit, OneWordStored;
    WordInBitmap(s, after, w, held, at);
    StoresFold(s, Stored(s, after, w, held), w, after.words[w], at);
  }

  lemma StoresFold(s: System, t: System, w: nat, word: bv64, at: nat)
    requires InWidth(s) && InWidth(t) && at + STATIC_BYTES <= |s.ram| == |t.ram|
    requires t.bitmap == s.bitmap && |t.alloc.words| == |s.alloc.words| && t.alloc.pageCount == s.alloc.pageCount
    requires s.bitmap + 8 * w + 8 <= |s.ram| && t.ram == PutWord(s.ram, s.bitmap, w, word)
    requires s.bitmap + 8 * w + 8 <= at || at + STATIC_BYTES <= s.bitmap + 8 * w
    ensures ThreeStores(Physical(s, at), at, s.bitmap, w, word, t.alloc.freePages, t.alloc.nextWord) == Physical(t, at)
  {
    hide Splice, FixedBytes, FromWord, Bytes64, Physical;
    SameFixed(s, t);
    var head, x, y := FixedBytes(s), Bytes64(s.alloc.freePages), Bytes64(s.alloc.nextWord);
    var x', y' := Bytes64(t.alloc.freePages), Bytes64(t.alloc.nextWord);
    var a, v := s.bitmap + 8 * w, Bytes64(FromWord(word));
    PhysicalParts(s, at);
    PhysicalParts(t, at);
    assert t.ram == Splice(s.ram, a, v);
    assert ThreeStores(Physical(s, at), at, s.bitmap, w, word, t.alloc.freePages, t.alloc.nextWord)
           == Splice(Splice(Splice(Physical(s, at), a, v), at + |head|, x'), at + |head| + |x|, y');
    assert |head| + |x| + |y| == STATIC_BYTES && |v| == 8;
    hide *;
    StoresCommute(s.ram, at, head, x, y, a, v, x', y');
  }

  lemma PhysicalParts(s: System, at: nat)
    requires InWidth(s) && at + STATIC_BYTES <= |s.ram|
    ensures Physical(s, at)
            == Splice(s.ram, at, FixedBytes(s) + Bytes64(s.alloc.freePages) + Bytes64(s.alloc.nextWord))
  {
    hide Splice, FixedBytes, Bytes64;
  }

  lemma SameFixed(s: System, t: System)
    requires InWidth(s) && InWidth(t) && t.bitmap == s.bitmap && |t.alloc.words| == |s.alloc.words|
    requires t.alloc.pageCount == s.alloc.pageCount
    ensures FixedBytes(t) == FixedBytes(s)
  {
  }

  lemma WordInBitmap(s: System, after: Allocator, w: nat, held: set<nat>, at: nat)
    requires Good(s) && Resplit(s, after, w, held) && Housed(s, at)
    ensures w < |after.words| == |s.alloc.words| && s.bitmap + 8 * |s.alloc.words| <= |s.ram|
    ensures after.pageCount == s.alloc.pageCount
    ensures s.bitmap + 8 * w + 8 <= at || at + STATIC_BYTES <= s.bitmap + 8 * w
    ensures at + STATIC_BYTES <= |s.ram| == |Stored(s, after, w, held).ram|
  {
    hide Valid, Free, WordsAt, Pool, PoolUsable;
    MissesStatics(s, at, s.bitmap + 8 * w, 8);
  }

  /** A range of managed bytes and the variables do not meet. */
  lemma MissesStatics(s: System, at: nat, lo: nat, n: nat)
    requires Housed(s, at) && forall i :: lo <= i < lo + n ==> Managed(s, i)
    ensures n > 0 ==> lo + n <= at || at + STATIC_BYTES <= lo
  {
    hide Managed;
    var i := if lo < at then at else lo;
    assert lo <= i < lo + n ==> Managed(s, i);
    assert at <= i < at + STATIC_BYTES ==> !Managed(s, i);
  }

  /** An allocation that finds a page is three stores to physical memory. */
  lemma TakeStores(s: System, at: nat)
    requires Good(s) && Sized(s) && Housed(s, at) && Free(s.alloc.words) != {}
    ensures InWidth(s) && InWidth(AfterTake(s)) && |AfterTake(s).ram| == |s.ram|
    ensures var after := AfterTake(s).alloc;
      && after.nextWord < |after.words| && s.bitmap + 8 * after.nextWord + 8 <= |s.ram|
      && Physical(AfterTake(s), at)
         == ThreeStores(Physical(s, at), at, s.bitmap, after.nextWord, after.words[after.nextWord],
                        after.freePages, after.nextWord)
  {
    TakeStep(s);
    AllocationKeepsValid(s.alloc);
    var n := NextFit(s.alloc);
    hide NextFit, PutWord, Good, Free, Min, Valid, Managed, OneWordStored, Physical, ThreeStores, InWidth, Sized;
    SameArenaHoused(s, AfterTake(s), at);
    SizedInWidth(s);
    SizedInWidth(AfterTake(s));
    hide SameArena;
    MoveOver(Free(s.alloc.words), s.held, Min(Free(s.alloc.words)));
    StoresAreStep(s, n.after, n.after.nextWord, s.held + {n.phys / PAGE_SIZE}, at);
  }

  /** So is a disciplined release. */
  lemma GiveBackStores(s: System, phys: nat, at: nat)
    requires Good(s) && Sized(s) && Housed(s, at) && Disciplined(s, GiveBack(phys))
    ensures Give(s.alloc, phys).Continue?
    ensures var t, w := AfterGiveBack(s, phys), phys / PAGE_SIZE / 64;
      && InWidth(s) && InWidth(t) && |t.ram| == |s.ram|
      && w < |t.alloc.words| && s.bitmap + 8 * w + 8 <= |s.ram|
      && Physical(t, at)
         == ThreeStores(Physical(s, at), at, s.bitmap, w, t.alloc.words[w], t.alloc.freePages, t.alloc.nextWord)
  {
    GiveBackStep(s, phys);
    HeldCanBeGivenBack(s, phys);
    ReleaseKeepsValid(s.alloc, phys);
    var after, page := Give(s.alloc, phys).after, phys / PAGE_SIZE;
    hide Give, PutWord, Good, Free, Valid, Managed, OneWordStored, Physical, ThreeStores, InWidth, Sized;
    SameArenaHoused(s, AfterGiveBack(s, phys), at);
    SizedInWidth(s);
    SizedInWidth(AfterGiveBack(s, phys));
    hide SameArena;
    FreeAndHeldApart(s);
    MoveOver(s.held, Free(s.alloc.words), page);
    StoresAreStep(s, after, page / 64, s.held - {page}, at);
  }

  lemma FreeAndHeldApart(s: System)
    requires Good(s)
    ensures Free(s.alloc.words) !! s.held
  {
  }

  /** A client's write inside a held page is that write to physical memory: it misses
      the variables. */
  lemma PokeStores(s: System, address: nat, data: seq<byte>, at: nat)
    requires Good(s) && Sized(s) && Housed(s, at) && WithinHeld(s, address, |data|)
    ensures InWidth(s) && InWidth(AfterPoke(s, address, data)) && address + |data| <= |s.ram|
    ensures |AfterPoke(s, address, data).ram| == |s.ram|
    ensures Splice(Physical(s, at), address, data) == Physical(AfterPoke(s, address, data), at)
  {
    HeldIsBacked(s, address, |data|);
    SizedInWidth(s);
    assert forall i :: address <= i < address + |data| ==> Managed(s, i);
    MissesStatics(s, at, address, |data|);
    hide Good, Splice, Managed, Housed, Sized;
    if data == [] {
      NothingWritten(s.ram, address, data);
      NothingWritten(Physical(s, at), address, data);
    } else {
      SplicesCommute(s.ram, at, StaticBytes(s), address, data);
    }
  }

  lemma NothingWritten(m: seq<byte>, a: nat, data: seq<byte>)
    requires data == [] && a <= |m|
    ensures Splice(m, a, data) == m
  {
  }

  // ---- whole runs -----------------------------------------------------------------------------

  /** Over every disciplined run the variables stay clear of bitmap and pool, hold the
      allocator's state, and are the only unmanaged bytes of physical memory that change. */
  lemma RunKeepsStatics(s: System, ops: seq<Op>, at: nat)
    requires Good(s) && Sized(s) && Housed(s, at) && DisciplinedRun(s, ops)
    ensures var t := Run(s, ops);
      && Good(t) && Sized(t) && Housed(t, at) && InWidth(s) && InWidth(t) && |t.ram| == |s.ram|
      && forall i :: 0 <= i < |s.ram| && !Managed(s, i) && !(at <= i < at + STATIC_BYTES) ==>
           Physical(t, at)[i] == Physical(s, at)[i]
  {
    var t := Run(s, ops);
    RunKeepsGood(s, ops);
    hide Good, Run, DisciplinedRun, Managed;
    SameArenaHoused(s, t, at);
    SizedInWidth(s);
    SizedInWidth(t);
    hide InWidth, Splice, StaticBytes;
  }

  // ---- runs on physical memory alone -----------------------------------------------------

  /** The address of the bitmap, and the allocator, as the variables at `at` say. */
  ghost predicate Readable(m: seq<byte>, at: nat) {
    at + STATIC_BYTES <= |m| && Get64(m, at) + 8 * Get64(m, at + 8) <= |m|
  }

  ghost function ReadAllocator(m: seq<byte>, at: nat): Allocator
    requires Readable(m, at)
  {
    Allocator(WordsAt(m, Get64(m, at), Get64(m, at + 8)), Get64(m, at + 16), Get64(m, at + FREE_PAGES),
              Get64(m, at + NEXT_WORD))
  }

  /** Stores word `w` of the new allocator state and its two counters, if they fit. */
  ghost function StoreBack(m: seq<byte>, at: nat, after: Allocator, w: nat): seq<byte>
    requires Readable(m, at)
  {
    if w < |after.words| == Get64(m, at + 8) && after.freePages < 0x1_0000_0000_0000_0000
       && after.nextWord < 0x1_0000_0000_0000_0000
    then ThreeStores(m, at, Get64(m, at), w, after.words[w], after.freePages, after.nextWord)
    else m
  }

  /** One operation on physical memory: the variables and words are read from it, and
      what changes is stored to it. Memory that makes no sense is left alone. */
  ghost function PhysicalStep(m: seq<byte>, at: nat, op: Op): seq<byte> {
    if !Readable(m, at) || !Consistent(ReadAllocator(m, at)) then m
    else
      var a := ReadAllocator(m, at);
      match op
      case Take =>
        var n := NextFit(a);
        if n.phys == 0 then m else StoreBack(m, at, n.after, n.after.nextWord)
      case GiveBack(phys) =>
        if Give(a, phys).Halt? then m else StoreBack(m, at, Give(a, phys).after, phys / PAGE_SIZE / 64)
      case Poke(address, data) =>
        if address + |data| <= |m| then Splice(m, address, data) else m
  }

  /** The address an allocation on physical memory returns. */
  ghost function PhysicalResult(m: seq<byte>, at: nat): nat {
    if Readable(m, at) && Consistent(ReadAllocator(m, at)) then NextFit(ReadAllocator(m, at)).phys else 0
  }

  ghost function PhysicalRun(m: seq<byte>, at: nat, ops: seq<Op>): seq<byte>
    decreases |ops|
  {
    if ops == [] then m else PhysicalRun(PhysicalStep(m, at, ops[0]), at, ops[1..])
  }

  ghost function PhysicalResults(m: seq<byte>, at: nat, ops: seq<Op>): seq<nat>
    decreases |ops|
  {
    if ops == [] then []
    else (if ops[0].Take? then [PhysicalResult(m, at)] else []) + PhysicalResults(PhysicalStep(m, at, ops[0]), at, ops[1..])
  }

  lemma GoodWords(s: System)
    requires Good(s)
    ensures s.bitmap + 8 * |s.alloc.words| <= |s.ram| && WordsAt(s.ram, s.bitmap, |s.alloc.words|) == s.alloc.words
    ensures Consistent(s.alloc)
  {
  }

  /** What the variables and the words say is the allocator's state. */
  lemma PhysicalReads(s: System, at: nat)
    requires Good(s) && Sized(s) && Housed(s, at)
    ensures InWidth(s) && Readable(Physical(s, at), at)
    ensures Get64(Physical(s, at), at) == s.bitmap && Get64(Physical(s, at), at + 8) == |s.alloc.words|
    ensures ReadAllocator(Physical(s, at), at) == s.alloc && Consistent(s.alloc)
  {
    hide Good, WordsAt, Physical, Get64, InWidth, Consistent, Sized, Pool;
    SizedInWidth(s);
    GoodWords(s);
    StaticsReadBack(s, at);
    PhysicalElsewhere(s, at);
    MissesStatics(s, at, s.bitmap, 8 * |s.alloc.words|);
    WordsAgree(s.ram, Physical(s, at), s.bitmap, |s.alloc.words|);
  }

  lemma StoreBackIs(s: System, t: System, w: nat, at: nat)
    requires InWidth(s) && InWidth(t) && at + STATIC_BYTES <= |s.ram| == |t.ram|
    requires Readable(Physical(s, at), at)
    requires Get64(Physical(s, at), at) == s.bitmap && Get64(Physical(s, at), at + 8) == |t.alloc.words|
    requires w < |t.alloc.words| && s.bitmap + 8 * w + 8 <= |s.ram|
    requires Physical(t, at)
             == ThreeStores(Physical(s, at), at, s.bitmap, w, t.alloc.words[w], t.alloc.freePages, t.alloc.nextWord)
    ensures StoreBack(Physical(s, at), at, t.alloc, w) == Physical(t, at)
  {
    hide Physical, ThreeStores, Get64;
  }

  lemma PhysicalTake(s: System, at: nat)
    requires Good(s) && Sized(s) && Housed(s, at)
    ensures InWidth(s) && InWidth(AfterTake(s)) && |AfterTake(s).ram| == |s.ram|
    ensures PhysicalStep(Physical(s, at), at, Take) == Physical(AfterTake(s), at)
  {
    PhysicalReads(s, at);
    TakenWord(s);
    if Free(s.alloc.words) == {} {
      assert AfterTake(s) == s;
      hide *;
      NothingTaken(s, at);
    } else {
      TakeStores(s, at);
      hide *;
      StoreBackIs(s, AfterTake(s), AfterTake(s).alloc.nextWord, at);
      SomethingTaken(s, AfterTake(s), at);
    }
  }

  lemma TakenWord(s: System)
    requires Good(s)
    ensures Consistent(s.alloc) && s.bitmap + BitmapBytes(s) <= |s.ram|
    ensures NextFit(s.alloc).phys == 0 <==> Free(s.alloc.words) == {}
    ensures |AfterTake(s).alloc.words| == |s.alloc.words| && AfterTake(s).alloc == NextFit(s.alloc).after
  {
    AllocationKeepsValid(s.alloc);
    hide NextFit, Min, WordsAt, PutWord, PoolUsable, TailUsed, CursorTight;
    if Free(s.alloc.words) != {} {
      TakeDraws(s);
    }
  }

  lemma NothingTaken(s: System, at: nat)
    requires InWidth(s) && at + STATIC_BYTES <= |s.ram| && Readable(Physical(s, at), at)
    requires ReadAllocator(Physical(s, at), at) == s.alloc && Consistent(s.alloc) && NextFit(s.alloc).phys == 0
    ensures PhysicalStep(Physical(s, at), at, Take) == Physical(s, at)
  {
    hide Physical, Readable, ReadAllocator, Consistent, NextFit, InWidth;
  }

  lemma SomethingTaken(s: System, t: System, at: nat)
    requires InWidth(s) && at + STATIC_BYTES <= |s.ram| && Readable(Physical(s, at), at)
    requires ReadAllocator(Physical(s, at), at) == s.alloc && Consistent(s.alloc) && NextFit(s.alloc).phys != 0
    requires t.alloc == NextFit(s.alloc).after
    ensures PhysicalStep(Physical(s, at), at, Take) == StoreBack(Physical(s, at), at, t.alloc, t.alloc.nextWord)
  {
    hide Physical, Readable, ReadAllocator, Consistent, NextFit, InWidth, StoreBack;
  }

  lemma PhysicalGiveBack(s: System, phys: nat, at: nat)
    requires Good(s) && Sized(s) && Housed(s, at) && Disciplined(s, GiveBack(phys))
    ensures Give(s.alloc, phys).Continue?
    ensures InWidth(s) && InWidth(AfterGiveBack(s, phys)) && |AfterGiveBack(s, phys).ram| == |s.ram|
    ensures PhysicalStep(Physical(s, at), at, GiveBack(phys)) == Physical(AfterGiveBack(s, phys), at)
  {
    PhysicalReads(s, at);
    GiveBackStores(s, phys, at);
    GivenWord(s, phys);
    hide *;
    StoreBackIs(s, AfterGiveBack(s, phys), phys / PAGE_SIZE / 64, at);
    SomethingGiven(s, AfterGiveBack(s, phys), phys, at);
  }

  lemma GivenWord(s: System, phys: nat)
    requires Good(s) && Disciplined(s, GiveBack(phys))
    ensures Give(s.alloc, phys).Continue? && AfterGiveBack(s, phys).alloc == Give(s.alloc, phys).after
    ensures |AfterGiveBack(s, phys).alloc.words| == |s.alloc.words|
  {
    HeldCanBeGivenBack(s, phys);
    ReleaseKeepsValid(s.alloc, phys);
    hide Give, Free, WordsAt, PutWord, PoolUsable, TailUsed, CursorTight;
  }

  lemma SomethingGiven(s: System, t: System, phys: nat, at: nat)
    requires InWidth(s) && at + STATIC_BYTES <= |s.ram| && Readable(Physical(s, at), at)
    requires ReadAllocator(Physical(s, at), at) == s.alloc && Consistent(s.alloc)
    requires Give(s.alloc, phys).Continue? && t.alloc == Give(s.alloc, phys).after
    ensures PhysicalStep(Physical(s, at), at, GiveBack(phys))
            == StoreBack(Physical(s, at), at, t.alloc, phys / PAGE_SIZE / 64)
  {
    hide Physical, Readable, ReadAllocator, Consistent, Give, InWidth, StoreBack;
  }

  /** One step on physical memory is one step of the system. */
  lemma PhysicalStepIs(s: System, op: Op, at: nat)
    requires Good(s) && Sized(s) && Housed(s, at) && Disciplined(s, op)
    ensures InWidth(s) && InWidth(Step(s, op)) && |Step(s, op).ram| == |s.ram|
    ensures PhysicalStep(Physical(s, at), at, op) == Physical(Step(s, op), at)
  {
    match op
    case Take =>
      hide Good, Sized, Housed, InWidth, Physical, PhysicalStep;
      PhysicalTake(s, at);
    case GiveBack(phys) =>
      hide Good, Sized, Housed, InWidth, Physical, PhysicalStep;
      PhysicalGiveBack(s, phys, at);
    case Poke(address, data) =>
      PhysicalReads(s, at);
      hide Good, Sized, Housed, InWidth, Physical, Readable, ReadAllocator, Consistent;
      PokeStores(s, address, data, at);
  }

  /** Every disciplined run, played on physical memory alone with the variables read back
      from it at each step, gives the memory and the results of the system's run. */
  lemma {:induction false} PhysicalRunIs(s: System, ops: seq<Op>, at: nat)
    requires Good(s) && Sized(s) && Housed(s, at) && DisciplinedRun(s, ops)
    ensures InWidth(s) && InWidth(Run(s, ops)) && |Run(s, ops).ram| == |s.ram|
    ensures PhysicalRun(Physical(s, at), at, ops) == Physical(Run(s, ops), at)
    ensures PhysicalResults(Physical(s, at), at, ops) == Results(s, ops)
    decreases |ops|
  {
    PhysicalReads(s, at);
    hide Good, Sized, Housed, InWidth, Physical, Step, PhysicalStep, Readable, ReadAllocator, Consistent, NextFit, Get64;
    if ops != [] {
      StepKeepsGood(s, ops[0]);
      SameArenaHoused(s, Step(s, ops[0]), at);
      hide SameArena;
      PhysicalStepIs(s, ops[0], at);
      PhysicalRunIs(Step(s, ops[0]), ops[1..], at);
    }
  }

  /** Right after start-up the variables clear bitmap and pool wherever the image puts
      them, as long as that is not conventional memory. */
  lemma StartHouses(ds: seq<Descriptor>, kernelStart: nat, kernelSize: nat, a: Allocator, s: System, at: nat)
    requires WellFormed(ds) && AsStarted(ds, kernelStart, kernelSize, a, s)
    requires OutsideConventional(ds, at, STATIC_BYTES) && at + STATIC_BYTES <= |s.ram| < 0x1_0000_0000_0000_0000
    ensures Sized(s) && Housed(s, at)
  {
    TrackedBound(ds);
    Unmanaged(ds, kernelStart, kernelSize, a, s, at, STATIC_BYTES);
    hide Good, OutsideConventional, Free, Placement, TrackedWords, Valid, Managed;
  }
}
