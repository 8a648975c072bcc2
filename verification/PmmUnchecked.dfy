/** Releases the interface forbids and the code does not check: what becomes of the pool
    when clients give back pages they do not hold. */
module PmmUnchecked {
  import opened Words
  import opened Storage
  import opened MemoryMap
  import opened PageBitmap
  import opened PmmRuns
  import opened PmmTheorems
  import opened Pmm
  import opened PmmStart

  /** A release is only checked against "already free". It keeps the pool of free and
      held pages exactly when the page was held; any other release that passes the checks
      adds a reserved page, and that page is handed out next if no free page is lower. */
  lemma ReleaseKeepsPoolExactlyWhenHeld(a: Allocator, held: set<nat>, phys: nat)
    requires Valid(a) && Free(a.words) !! held && Give(a, phys).Continue?
    ensures Valid(Give(a, phys).after)
    ensures Free(Give(a, phys).after.words) + (held - {phys / PAGE_SIZE}) == Free(a.words) + held
            <==> phys / PAGE_SIZE in held
    ensures (forall p :: p in Free(a.words) ==> phys / PAGE_SIZE < p) ==>
              NextFit(Give(a, phys).after).phys == phys
  {
    var page := phys / PAGE_SIZE;
    assert phys % PAGE_SIZE == 0 && page < a.pageCount && page !in Free(a.words);
    ReleaseKeepsValid(a, phys);
    AllocationKeepsValid(Give(a, phys).after);
    hide *;
    if page in held {
      PutBackInPool(Free(a.words), held, page);
    } else {
      assert page in Free(Give(a, phys).after.words);
    }
    if forall p :: p in Free(a.words) ==> page < p {
      assert Min(Free(a.words) + {page}) == page;
      assert page * PAGE_SIZE == phys;
    }
  }

  lemma PutBackInPool<T>(free: set<T>, held: set<T>, x: T)
    requires x in held
    ensures (free + {x}) + (held - {x}) == free + held
  {
  }

  // ---- such releases exist in every started state ---------------------------------------

  lemma StartedTracksLowMemory(ds: seq<Descriptor>, kernelStart: nat, kernelSize: nat, bitmap: nat, a: Allocator)
    requires WellFormed(ds) && Initialised(ds, kernelStart, kernelSize, bitmap, a)
    ensures LOW_MEMORY_LIMIT <= bitmap && bitmap % PAGE_SIZE == 0
    ensures LOW_MEMORY_LIMIT / PAGE_SIZE <= a.pageCount && a.words != []
  {
    PlacementIsFirstFit(ds, 8 * |a.words|);
    var i :| 0 <= i < |ds| && CanHold(ds[i], 8 * |a.words|) && ds[i].start == bitmap;
    RegionTracked(ds, i);
    hide Free, Placement, ConventionalPages, Valid, Overlapping;
  }

  /** Right after start-up page 0 can be released. The next allocation then returns 0,
      the value that means out of memory, with memory free. */
  lemma PageZeroCanBeReleased(ds: seq<Descriptor>, kernelStart: nat, kernelSize: nat, a: Allocator, s: System)
    requires WellFormed(ds) && AsStarted(ds, kernelStart, kernelSize, a, s)
    ensures Give(s.alloc, 0).Continue? && Valid(Give(s.alloc, 0).after)
    ensures 0 in Free(Give(s.alloc, 0).after.words) && NextFit(Give(s.alloc, 0).after).phys == 0
  {
    StartedTracksLowMemory(ds, kernelStart, kernelSize, s.bitmap, a);
    assert 0 !in Free(s.alloc.words) by {
      FreeExactly(ds, kernelStart, kernelSize, s.bitmap, a, 0);
    }
    hide Free, Good, Initialised, NextFit;
    assert Valid(s.alloc) by { ValidOf(s); }
    ReleaseKeepsValid(s.alloc, 0);
    hide Valid;
    ReleaseKeepsPoolExactlyWhenHeld(s.alloc, {}, 0);
  }

  /** So can the page the bitmap starts in. */
  lemma BitmapPageCanBeReleased(ds: seq<Descriptor>, kernelStart: nat, kernelSize: nat, a: Allocator, s: System)
    requires WellFormed(ds) && AsStarted(ds, kernelStart, kernelSize, a, s)
    ensures Give(s.alloc, s.bitmap).Continue? && Valid(Give(s.alloc, s.bitmap).after)
    ensures s.bitmap / PAGE_SIZE in Free(Give(s.alloc, s.bitmap).after.words)
    ensures Touches(s.bitmap, BitmapBytes(s), s.bitmap / PAGE_SIZE)
  {
    StartedTracksLowMemory(ds, kernelStart, kernelSize, s.bitmap, a);
    var page := s.bitmap / PAGE_SIZE;
    assert Touches(s.bitmap, 8 * |a.words|, page);
    BitmapPagesTracked(ds, kernelStart, kernelSize, s.bitmap, a, page);
    assert page !in Free(s.alloc.words) by {
      FreeExactly(ds, kernelStart, kernelSize, s.bitmap, a, page);
    }
    hide Free, Good, Initialised, NextFit, Touches;
    assert Valid(s.alloc) by { ValidOf(s); }
    ReleaseKeepsValid(s.alloc, s.bitmap);
    hide Valid;
  }

  lemma ValidOf(s: System)
    requires Good(s)
    ensures Valid(s.alloc)
  {
  }

  // ---- runs with unchecked releases and writes ---------------------------------------------

  /** The allocator's invariants, and its words in memory. */
  ghost predicate InOrder(s: System) {
    && Valid(s.alloc) && Free(s.alloc.words) !! s.held
    && s.bitmap + BitmapBytes(s) <= |s.ram|
    && WordsAt(s.ram, s.bitmap, |s.alloc.words|) == s.alloc.words
  }

  /** The operation does not halt: anyone may write anywhere in memory. */
  ghost predicate Passes(s: System, op: Op)
    requires InOrder(s)
  {
    match op
    case Take => true
    case GiveBack(phys) => Give(s.alloc, phys).Continue?
    case Poke(address, data) => address + |data| <= |s.ram|
  }

  ghost function After(s: System, op: Op): System
    requires InOrder(s) && Passes(s, op)
  {
    match op
    case Take => AfterTake(s)
    case GiveBack(phys) => AfterGiveBack(s, phys)
    case Poke(address, data) => Rewritten(s, address, data)
  }

  /** After a write the allocator's words are what memory now holds. */
  ghost function Rewritten(s: System, address: nat, data: seq<byte>): System
    requires s.bitmap + BitmapBytes(s) <= |s.ram| && address + |data| <= |s.ram|
  {
    var m := Splice(s.ram, address, data);
    s.(ram := m, alloc := s.alloc.(words := WordsAt(m, s.bitmap, |s.alloc.words|)))
  }

  /** The bytes [address, address + n) are none of the bitmap. */
  predicate MissesBitmap(s: System, address: nat, n: nat) {
    n == 0 || address + n <= s.bitmap || s.bitmap + BitmapBytes(s) <= address
  }

  /** The pages an operation gives back. */
  function Named(op: Op): set<nat> {
    if op.GiveBack? then {op.phys / PAGE_SIZE} else {}
  }

  function Released(ops: seq<Op>): set<nat> {
    if ops == [] then {} else Named(ops[0]) + Released(ops[1..])
  }

  /** What one word stored and a new held set make of a state in order. */
  lemma StoredInOrder(s: System, after: Allocator, w: nat, held: set<nat>)
    requires InOrder(s) && Valid(after) && OneWordStored(s.alloc.words, after.words, w)
    requires Free(after.words) !! held
    ensures s.bitmap + 8 * w + 8 <= |s.ram|
    ensures InOrder(System(after, s.bitmap, PutWord(s.ram, s.bitmap, w, after.words[w]), held))
  {
    WordsAfterPut(s.ram, s.bitmap, |s.alloc.words|, w, after.words[w]);
    hide PutWord, WordsAt, Free, Valid;
  }

  lemma TakeKeepsOrder(s: System)
    requires InOrder(s)
    ensures var t := AfterTake(s);
      && InOrder(t) && t.bitmap == s.bitmap && |t.alloc.words| == |s.alloc.words| && |t.ram| == |s.ram|
      && Pool(t) == Pool(s)
    ensures Free(s.alloc.words) != {} ==>
      && AfterTake(s).held == s.held + {Min(Free(s.alloc.words))}
      && Free(AfterTake(s).alloc.words) == Free(s.alloc.words) - {Min(Free(s.alloc.words))}
  {
    AllocationKeepsValid(s.alloc);
    hide NextFit, Free, Consistent, TailUsed, CursorTight, Min, WordsAt, PutWord;
    var free, n := Free(s.alloc.words), NextFit(s.alloc);
    if free != {} {
      MoveOver(free, s.held, Min(free));
      StoredInOrder(s, n.after, n.after.nextWord, s.held + {Min(free)});
      StoredSize(s, n.after.nextWord, n.after.words[n.after.nextWord]);
      hide OneWordStored, InOrder;
    }
  }

  lemma StoredSize(s: System, w: nat, word: bv64)
    requires s.bitmap + 8 * w + 8 <= |s.ram|
    ensures |PutWord(s.ram, s.bitmap, w, word)| == |s.ram|
  {
  }

  lemma GiveBackKeepsOrder(s: System, phys: nat)
    requires InOrder(s) && Give(s.alloc, phys).Continue?
    ensures var t := AfterGiveBack(s, phys);
      && InOrder(t) && t.bitmap == s.bitmap && |t.alloc.words| == |s.alloc.words| && |t.ram| == |s.ram|
      && Pool(t) == Pool(s) + {phys / PAGE_SIZE}
      && Free(t.alloc.words) == Free(s.alloc.words) + {phys / PAGE_SIZE}
  {
    var page, after := phys / PAGE_SIZE, Give(s.alloc, phys).after;
    assert phys % PAGE_SIZE == 0 && page < s.alloc.pageCount && page !in Free(s.alloc.words);
    ReleaseKeepsValid(s.alloc, phys);
    hide Give, Free, WordsAt, PutWord, Consistent, TailUsed, CursorTight;
    StoredInOrder(s, after, page / 64, s.held - {page});
    StoredSize(s, page / 64, after.words[page / 64]);
    hide OneWordStored, InOrder;
  }

  lemma PokeKeepsOrder(s: System, address: nat, data: seq<byte>)
    requires InOrder(s) && address + |data| <= |s.ram| && MissesBitmap(s, address, |data|)
    ensures var t := Rewritten(s, address, data);
      && InOrder(t) && t.alloc == s.alloc && t.held == s.held && t.bitmap == s.bitmap && |t.ram| == |s.ram|
  {
    hide Valid, Free, WordsAt, Splice;
    WordsAgree(s.ram, Splice(s.ram, address, data), s.bitmap, |s.alloc.words|);
  }

  /** The operation does not halt and writes no byte of the bitmap itself. */
  ghost predicate Careful(s: System, op: Op)
    requires InOrder(s)
  {
    Passes(s, op) && (op.Poke? ==> MissesBitmap(s, op.address, |op.data|))
  }

  lemma CarefulKeepsOrder(s: System, op: Op)
    requires InOrder(s) && Careful(s, op)
    ensures InOrder(After(s, op)) && Pool(After(s, op)) == Pool(s) + Named(op)
  {
    hide InOrder, AfterTake, AfterGiveBack, Rewritten, MissesBitmap, Free, Give;
    match op
    case Take => TakeKeepsOrder(s);
    case GiveBack(phys) => GiveBackKeepsOrder(s, phys);
    case Poke(address, data) => PokeKeepsOrder(s, address, data);
  }

  ghost predicate CarefulRun(s: System, ops: seq<Op>)
    requires InOrder(s)
    decreases |ops|
  {
    ops != [] ==>
      && Careful(s, ops[0])
      && (CarefulKeepsOrder(s, ops[0]); CarefulRun(After(s, ops[0]), ops[1..]))
  }

  ghost function RunOf(s: System, ops: seq<Op>): System
    requires InOrder(s) && CarefulRun(s, ops)
    decreases |ops|
  {
    if ops == [] then s
    else
      CarefulKeepsOrder(s, ops[0]);
      RunOf(After(s, ops[0]), ops[1..])
  }

  /** Over every run that does not halt, of allocations, arbitrary releases and writes
      to any memory but the bitmap, the allocator's invariants hold and the pool grows by
      exactly the pages released: it stays the same if and only if no reserved page was
      among them. */
  lemma {:induction false} PoolGrowsByReleases(s: System, ops: seq<Op>)
    requires InOrder(s) && CarefulRun(s, ops)
    ensures InOrder(RunOf(s, ops)) && Pool(RunOf(s, ops)) == Pool(s) + Released(ops)
    ensures Pool(RunOf(s, ops)) == Pool(s) <==> Released(ops) <= Pool(s)
    decreases |ops|
  {
    hide InOrder, Pool, Named, After, Passes, MissesBitmap;
    if ops != [] {
      CarefulKeepsOrder(s, ops[0]);
      PoolGrowsByReleases(After(s, ops[0]), ops[1..]);
    }
  }

  // ---- a write into the bitmap ---------------------------------------------------------------

  function WordBytes(v: bv64): (b: seq<byte>)
    ensures |b| == 8
  {
    Bytes64(FromWord(v))
  }

  /** Eight bytes written over a bitmap word put any word in its place. */
  lemma WriteSetsWord(s: System, w: nat, v: bv64)
    requires InOrder(s) && w < |s.alloc.words|
    ensures s.bitmap + 8 * w + 8 <= |s.ram|
    ensures Rewritten(s, s.bitmap + 8 * w, WordBytes(v)).alloc.words == s.alloc.words[w := v]
  {
    assert s.bitmap + 8 * |s.alloc.words| <= |s.ram|;
    assert WordsAt(s.ram, s.bitmap, |s.alloc.words|) == s.alloc.words;
    PutIsSplice(s.ram, s.bitmap, w, v);
    hide InOrder, WordsAt, PutWord, WordBytes;
    WordsAfterPut(s.ram, s.bitmap, |s.alloc.words|, w, v);
  }

  lemma PutIsSplice(m: seq<byte>, base: nat, w: nat, v: bv64)
    requires base + 8 * w + 8 <= |m|
    ensures PutWord(m, base, w, v) == Splice(m, base + 8 * w, WordBytes(v))
  {
    hide Splice, Bytes64, FromWord;
  }

  /** A state in order whose first word a client overwrites with zeros has page 0 free. */
  lemma ZeroedWordFreesPageZero(s: System)
    requires InOrder(s) && s.alloc.words != []
    ensures s.bitmap + 8 <= |s.ram| && 0 in Free(Rewritten(s, s.bitmap, WordBytes(0)).alloc.words)
  {
    WriteSetsWord(s, 0, 0);
    NoBitOfZero();
    hide InOrder, Free, WordBytes, WordsAt, Test;
    ClearBitIsFree(s.alloc.words[0 := 0], 0, 0);
  }

  lemma NoBitOfZero()
    ensures !Test(0, 0)
  {
  }

  /** Taking as often as pages are free leaves none and gives all of them out. */
  lemma {:induction false} TakesDrain(s: System, k: nat)
    requires InOrder(s) && k == |Free(s.alloc.words)|
    ensures CarefulRun(s, Takes(k)) && InOrder(RunOf(s, Takes(k)))
    ensures var t := RunOf(s, Takes(k));
      t.held == s.held + Free(s.alloc.words) && t.bitmap == s.bitmap && |t.alloc.words| == |s.alloc.words|
    decreases k
  {
    hide InOrder, Free, AfterTake, NextFit, Min;
    if k > 0 {
      var free := Free(s.alloc.words);
      TakeKeepsOrder(s);
      assert Takes(k)[0] == Take && Takes(k)[1..] == Takes(k - 1);
      TakesDrain(After(s, Take), k - 1);
      assert {Min(free)} + (free - {Min(free)}) == free;
    }
  }

  /** Once the bitmap's page is free, a client can come to hold it and free page 0 by
      writing inside it. */
  lemma HeldBitmapRewritten(s: System)
    requires InOrder(s) && s.alloc.words != []
    requires s.bitmap % PAGE_SIZE == 0 && s.bitmap / PAGE_SIZE in Free(s.alloc.words)
    ensures var ops := Takes(|Free(s.alloc.words)|);
      && CarefulRun(s, ops) && InOrder(RunOf(s, ops))
      && var t := RunOf(s, ops); var write := Poke(t.bitmap, WordBytes(0));
         && t.bitmap == s.bitmap && WithinHeld(t, t.bitmap, 8) && Passes(t, write)
         && 0 in Free(After(t, write).alloc.words)
  {
    var k := |Free(s.alloc.words)|;
    TakesDrain(s, k);
    hide *;
    var t := RunOf(s, Takes(k));
    BitmapBacked(t);
    ZeroedWordFreesPageZero(t);
    BitmapPageHeld(s, t);
  }

  lemma BitmapBacked(s: System)
    requires InOrder(s)
    ensures s.bitmap + BitmapBytes(s) <= |s.ram|
  {
  }

  lemma BitmapPageHeld(s: System, t: System)
    requires t.bitmap == s.bitmap && t.held == s.held + Free(s.alloc.words)
    requires s.bitmap % PAGE_SIZE == 0 && s.bitmap / PAGE_SIZE in Free(s.alloc.words)
    requires t.bitmap + BitmapBytes(t) <= |t.ram| && t.alloc.words != []
    requires 0 in Free(Rewritten(t, t.bitmap, WordBytes(0)).alloc.words)
    ensures WithinHeld(t, t.bitmap, 8)
    ensures InOrder(t) ==> Passes(t, Poke(t.bitmap, WordBytes(0)))
    ensures InOrder(t) ==> 0 in Free(After(t, Poke(t.bitmap, WordBytes(0))).alloc.words)
  {
    hide Free, InOrder, Rewritten, WordBytes;
  }

  /** One undisciplined release, of the bitmap's page, puts the bitmap into a client's
      hands: after as many allocations as pages are free that client holds the page, and
      a write inside it frees page 0, which nobody released. */
  lemma BitmapPageGivenOut(ds: seq<Descriptor>, kernelStart: nat, kernelSize: nat, a: Allocator, s: System)
    requires WellFormed(ds) && AsStarted(ds, kernelStart, kernelSize, a, s)
    ensures InOrder(s) && Careful(s, GiveBack(s.bitmap)) && InOrder(After(s, GiveBack(s.bitmap)))
    ensures var s1 := After(s, GiveBack(s.bitmap)); var ops := Takes(|Free(s1.alloc.words)|);
      && CarefulRun(s1, ops) && InOrder(RunOf(s1, ops))
      && var t := RunOf(s1, ops); var write := Poke(t.bitmap, WordBytes(0));
         && t.bitmap == s.bitmap && WithinHeld(t, t.bitmap, 8) && Passes(t, write)
         && 0 in Free(After(t, write).alloc.words)
    ensures 0 !in Pool(s) + {s.bitmap / PAGE_SIZE}
  {
    BitmapPageCanBeReleased(ds, kernelStart, kernelSize, a, s);
    StartedTracksLowMemory(ds, kernelStart, kernelSize, s.bitmap, a);
    FreeExactly(ds, kernelStart, kernelSize, s.bitmap, a, 0);
    GoodIsInOrder(s);
    assert s.alloc.words != [] && s.held == {} && Free(s.alloc.words) == Free(a.words);
    hide *;
    ReleaseBitmapPage(s);
    HeldBitmapRewritten(After(s, GiveBack(s.bitmap)));
    ZeroNotInPool(s);
  }

  lemma GoodIsInOrder(s: System)
    requires Good(s)
    ensures InOrder(s)
  {
  }

  lemma ReleaseBitmapPage(s: System)
    requires InOrder(s) && Give(s.alloc, s.bitmap).Continue? && s.alloc.words != []
    ensures Careful(s, GiveBack(s.bitmap)) && InOrder(After(s, GiveBack(s.bitmap)))
    ensures var t := After(s, GiveBack(s.bitmap));
      t.bitmap == s.bitmap && t.alloc.words != [] && s.bitmap / PAGE_SIZE in Free(t.alloc.words)
  {
    hide Free, InOrder, AfterGiveBack, Give;
    GiveBackKeepsOrder(s, s.bitmap);
  }

  lemma ZeroNotInPool(s: System)
    requires 0 !in Free(s.alloc.words) && s.held == {} && LOW_MEMORY_LIMIT <= s.bitmap
    ensures 0 !in Pool(s) + {s.bitmap / PAGE_SIZE}
  {
    hide Free;
  }
}
