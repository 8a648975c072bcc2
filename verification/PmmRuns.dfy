/** Whole runs of the allocator and its clients over one shared memory. */
module PmmRuns {
  import opened Words
  import opened Storage
  import opened MemoryMap
  import opened PageBitmap

  /** The allocator, the address of its bitmap, memory, and the pages clients hold. */
  datatype System = System(alloc: Allocator, bitmap: nat, ram: seq<byte>, held: set<nat>)

  /** One step: a client asks for a page, gives one back, or writes bytes. */
  datatype Op = Take | GiveBack(phys: nat) | Poke(address: nat, data: seq<byte>)

  /** Pages under management: free or held. */
  ghost function Pool(s: System): set<nat> {
    Free(s.alloc.words) + s.held
  }

  function BitmapBytes(s: System): nat {
    8 * |s.alloc.words|
  }

  /** Every page of the pool is above the low megabyte, tracked, backed by memory
      and no part of the bitmap. */
  ghost predicate PoolUsable(s: System) {
    forall p :: p in Pool(s) ==>
      && LOW_MEMORY_LIMIT / PAGE_SIZE <= p < s.alloc.pageCount
      && (p + 1) * PAGE_SIZE <= |s.ram|
      && !Touches(s.bitmap, BitmapBytes(s), p)
  }

  ghost predicate Good(s: System) {
    && Valid(s.alloc)
    && s.bitmap + BitmapBytes(s) <= |s.ram|
    && WordsAt(s.ram, s.bitmap, |s.alloc.words|) == s.alloc.words
    && Free(s.alloc.words) !! s.held
    && PoolUsable(s)
  }

  /** The bytes [address, address + n) lie inside one held page. */
  predicate WithinHeld(s: System, address: nat, n: nat) {
    address / PAGE_SIZE in s.held && address % PAGE_SIZE + n <= PAGE_SIZE
  }

  /** What the interface asks of clients: give back only what you hold, once, by
      its own address, and write only inside pages you hold. */
  predicate Disciplined(s: System, op: Op) {
    match op
    case Take => true
    case GiveBack(phys) => phys % PAGE_SIZE == 0 && phys / PAGE_SIZE in s.held
    case Poke(address, data) => WithinHeld(s, address, |data|)
  }

  ghost function AfterTake(s: System): System
    requires Consistent(s.alloc) && s.bitmap + BitmapBytes(s) <= |s.ram|
  {
    var n := NextFit(s.alloc);
    if Free(s.alloc.words) == {} then s.(alloc := n.after)
    else
      NextFitTakesAFreePage(s.alloc);
      var w := n.after.nextWord;
      System(n.after, s.bitmap, PutWord(s.ram, s.bitmap, w, n.after.words[w]), s.held + {n.phys / PAGE_SIZE})
  }

  ghost function AfterGiveBack(s: System, phys: nat): System
    requires Consistent(s.alloc) && s.bitmap + BitmapBytes(s) <= |s.ram|
    requires Give(s.alloc, phys).Continue?
  {
    var after := Give(s.alloc, phys).after;
    var page := phys / PAGE_SIZE;
    System(after, s.bitmap, PutWord(s.ram, s.bitmap, page / 64, after.words[page / 64]), s.held - {page})
  }

  ghost function AfterPoke(s: System, address: nat, data: seq<byte>): System
    requires Good(s) && WithinHeld(s, address, |data|)
  {
    HeldIsBacked(s, address, |data|);
    s.(ram := Splice(s.ram, address, data))
  }

  /** One disciplined step; `Good` rules out that a release halts. */
  ghost function Step(s: System, op: Op): System
    requires Good(s) && Disciplined(s, op)
  {
    match op
    case Take => AfterTake(s)
    case GiveBack(phys) =>
      HeldCanBeGivenBack(s, phys);
      AfterGiveBack(s, phys)
    case Poke(address, data) => AfterPoke(s, address, data)
  }

  lemma HeldIsBacked(s: System, address: nat, n: nat)
    requires Good(s) && WithinHeld(s, address, n)
    ensures address + n <= |s.ram|
    ensures forall i :: address <= i < address + n ==> i / PAGE_SIZE == address / PAGE_SIZE
  {
    assert address / PAGE_SIZE in Pool(s);
    SamePage(address, n);
    hide Free;
  }

  lemma SamePage(address: nat, n: nat)
    requires address % PAGE_SIZE + n <= PAGE_SIZE
    ensures forall i :: address <= i < address + n ==> i / PAGE_SIZE == address / PAGE_SIZE
    ensures address + n <= (address / PAGE_SIZE + 1) * PAGE_SIZE
  {
  }

  lemma HeldCanBeGivenBack(s: System, phys: nat)
    requires Good(s) && phys % PAGE_SIZE == 0 && phys / PAGE_SIZE in s.held
    ensures phys / PAGE_SIZE !in Free(s.alloc.words) && phys / PAGE_SIZE < s.alloc.pageCount
    ensures Give(s.alloc, phys).Continue?
  {
    assert phys / PAGE_SIZE in Pool(s);
  }

  /** The address lies in a page of the pool or in the bitmap. */
  ghost predicate Managed(s: System, address: nat) {
    address / PAGE_SIZE in Pool(s) || s.bitmap <= address < s.bitmap + BitmapBytes(s)
  }

  /** What relates any two states of a run. */
  ghost predicate SameArena(s: System, t: System) {
    && t.bitmap == s.bitmap && t.alloc.pageCount == s.alloc.pageCount
    && |t.alloc.words| == |s.alloc.words| && |t.ram| == |s.ram|
    && Pool(t) == Pool(s)
    && t.alloc.freePages + |t.held| == s.alloc.freePages + |s.held|
    && forall i :: 0 <= i < |s.ram| && !Managed(s, i) ==> t.ram[i] == s.ram[i]
  }

  lemma PoolSize(s: System)
    requires Good(s)
    ensures s.alloc.freePages + |s.held| == |Pool(s)|
  {
    assert Free(s.alloc.words) * s.held == {};
  }

  /** Storing one word of the bitmap, with a free set and a held set that still
      split the same pool. */
  ghost predicate Resplit(s: System, after: Allocator, w: nat, held: set<nat>) {
    && Valid(after) && after.pageCount == s.alloc.pageCount
    && OneWordStored(s.alloc.words, after.words, w)
    && Free(after.words) + held == Pool(s) && Free(after.words) !! held
  }

  ghost function Stored(s: System, after: Allocator, w: nat, held: set<nat>): System
    requires Resplit(s, after, w, held) && s.bitmap + BitmapBytes(s) <= |s.ram|
  {
    System(after, s.bitmap, PutWord(s.ram, s.bitmap, w, after.words[w]), held)
  }

  lemma StoredIsGood(s: System, after: Allocator, w: nat, held: set<nat>)
    requires Good(s) && Resplit(s, after, w, held)
    ensures Good(Stored(s, after, w, held)) && Pool(Stored(s, after, w, held)) == Pool(s)
    ensures AgreeOutside(s.ram, Stored(s, after, w, held).ram, s.bitmap, s.bitmap + BitmapBytes(s))
  {
    WordsAfterPut(s.ram, s.bitmap, |s.alloc.words|, w, after.words[w]);
    hide PutWord, WordsAt, Free, Touches, Valid;
  }

  /** Two good states over the same pool whose memories differ only in the bitmap. */
  lemma SamePoolSameArena(s: System, t: System)
    requires Good(s) && Good(t) && Pool(t) == Pool(s)
    requires t.bitmap == s.bitmap && t.alloc.pageCount == s.alloc.pageCount
    requires |t.alloc.words| == |s.alloc.words|
    requires AgreeOutside(s.ram, t.ram, s.bitmap, s.bitmap + BitmapBytes(s))
    ensures SameArena(s, t)
  {
    PoolSize(s);
    PoolSize(t);
    hide Good, Pool;
  }

  lemma StoredInArena(s: System, after: Allocator, w: nat, held: set<nat>)
    requires Good(s) && Resplit(s, after, w, held)
    ensures Good(Stored(s, after, w, held)) && SameArena(s, Stored(s, after, w, held))
  {
    StoredIsGood(s, after, w, held);
    hide Good, Pool, PutWord, Valid, Free, SameArena, AgreeOutside;
    SamePoolSameArena(s, Stored(s, after, w, held));
  }

  lemma MoveOver<T>(a: set<T>, b: set<T>, x: T)
    requires a !! b && x in a
    ensures (a - {x}) + (b + {x}) == a + b && (a - {x}) !! (b + {x})
    ensures (b + {x}) + (a - {x}) == b + a && (b + {x}) !! (a - {x})
  {
  }

  lemma TakeStep(s: System)
    requires Good(s)
    ensures Good(AfterTake(s)) && SameArena(s, AfterTake(s))
    ensures Free(s.alloc.words) != {} ==>
              && AfterTake(s).held == s.held + {Min(Free(s.alloc.words))}
              && Min(Free(s.alloc.words)) !in s.held
  {
    AllocationKeepsValid(s.alloc);
    hide NextFit, PutWord, WordsAt, Free, PoolUsable, SameArena, OneWordStored, Consistent, TailUsed, CursorTight, Min;
    var n := NextFit(s.alloc);
    if Free(s.alloc.words) == {} {
      assert AfterTake(s) == s;
      SameArenaReflexive(s);
    } else {
      MoveOver(Free(s.alloc.words), s.held, Min(Free(s.alloc.words)));
      StoredInArena(s, n.after, n.after.nextWord, s.held + {n.phys / PAGE_SIZE});
    }
  }

  /** `t` is `s` after its lowest free page, at address `phys`, was taken. */
  ghost predicate Drew(s: System, t: System, phys: nat) {
    && Good(s) && Good(t) && Free(s.alloc.words) != {}
    && phys == Min(Free(s.alloc.words)) * PAGE_SIZE && phys / PAGE_SIZE == Min(Free(s.alloc.words))
    && LOW_MEMORY_LIMIT <= phys && phys / PAGE_SIZE !in s.held
    && Free(t.alloc.words) == Free(s.alloc.words) - {phys / PAGE_SIZE}
    && t.held == s.held + {phys / PAGE_SIZE}
    && t.bitmap == s.bitmap && |t.alloc.words| == |s.alloc.words|
    && AgreeOutside(s.ram, t.ram, s.bitmap, s.bitmap + BitmapBytes(s)) && SameArena(s, t)
  }

  /** Taking from a state with a free page draws the lowest one. */
  lemma TakeDraws(s: System)
    requires Good(s) && Free(s.alloc.words) != {}
    ensures Drew(s, AfterTake(s), NextFit(s.alloc).phys) && NextFit(s.alloc).phys != 0
  {
    var page := Min(Free(s.alloc.words));
    AllocationKeepsValid(s.alloc);
    TakeStep(s);
    assert page in Pool(s);
    var n := NextFit(s.alloc);
    hide NextFit, Free, WordsAt, PutWord, Min, SameArena, OneWordStored;
    OneWordIndex(s.alloc.words, n.after.words, n.after.nextWord);
    WordsAfterPut(s.ram, s.bitmap, |s.alloc.words|, n.after.nextWord, n.after.words[n.after.nextWord]);
  }

  lemma OneWordIndex(words: seq<bv64>, after: seq<bv64>, w: nat)
    requires OneWordStored(words, after, w)
    ensures w < |words| == |after|
  {
  }

  lemma GiveBackStep(s: System, phys: nat)
    requires Good(s) && phys % PAGE_SIZE == 0 && phys / PAGE_SIZE in s.held
    ensures Give(s.alloc, phys).Continue?
    ensures Good(AfterGiveBack(s, phys)) && SameArena(s, AfterGiveBack(s, phys))
  {
    HeldCanBeGivenBack(s, phys);
    ReleaseKeepsValid(s.alloc, phys);
    hide Give, PutWord, WordsAt, Free, PoolUsable, SameArena, OneWordStored, Consistent, TailUsed, CursorTight;
    var page := phys / PAGE_SIZE;
    MoveOver(s.held, Free(s.alloc.words), page);
    StoredInArena(s, Give(s.alloc, phys).after, page / 64, s.held - {page});
  }

  /** Bytes inside one page of the pool miss the bitmap. */
  lemma PoolMissesBitmap(s: System, address: nat, n: nat)
    requires PoolUsable(s) && address / PAGE_SIZE in Pool(s) && address % PAGE_SIZE + n <= PAGE_SIZE
    ensures address + n <= s.bitmap || s.bitmap + BitmapBytes(s) <= address
  {
    hide Pool;
    SamePage(address, n);
    assert !Touches(s.bitmap, BitmapBytes(s), address / PAGE_SIZE);
  }

  /** A write inside a held page leaves every bitmap word as it was. */
  lemma PokeKeepsWords(s: System, address: nat, data: seq<byte>)
    requires Good(s) && WithinHeld(s, address, |data|)
    ensures address + |data| <= |s.ram|
    ensures WordsAt(Splice(s.ram, address, data), s.bitmap, |s.alloc.words|) == s.alloc.words
  {
    HeldIsBacked(s, address, |data|);
    PoolMissesBitmap(s, address, |data|);
    hide WordsAt, PoolUsable, Valid, Free;
    WordsAgree(s.ram, Splice(s.ram, address, data), s.bitmap, |s.alloc.words|);
  }

  lemma PokeKeepsGood(s: System, address: nat, data: seq<byte>)
    requires Good(s) && WithinHeld(s, address, |data|)
    ensures Good(AfterPoke(s, address, data))
  {
    PokeKeepsWords(s, address, data);
    hide WordsAt, Free, Touches, Valid;
    assert Pool(AfterPoke(s, address, data)) == Pool(s);
  }

  lemma PokeStaysInPage(s: System, address: nat, data: seq<byte>)
    requires Good(s) && WithinHeld(s, address, |data|)
    ensures |AfterPoke(s, address, data).ram| == |s.ram|
    ensures forall i :: 0 <= i < |s.ram| && !Managed(s, i) ==> AfterPoke(s, address, data).ram[i] == s.ram[i]
  {
    HeldIsBacked(s, address, |data|);
    hide Good, Free, Splice;
  }

  lemma PokeStep(s: System, address: nat, data: seq<byte>)
    requires Good(s) && WithinHeld(s, address, |data|)
    ensures Good(AfterPoke(s, address, data)) && SameArena(s, AfterPoke(s, address, data))
  {
    hide Good, Free, Splice, Managed;
    PokeKeepsGood(s, address, data);
    PokeStaysInPage(s, address, data);
  }

  /** Every disciplined step keeps the system good and the arena the same. */
  lemma StepKeepsGood(s: System, op: Op)
    requires Good(s) && Disciplined(s, op)
    ensures Good(Step(s, op)) && SameArena(s, Step(s, op))
  {
    hide Good, SameArena, AfterTake, AfterGiveBack, AfterPoke;
    match op
    case Take => TakeStep(s);
    case GiveBack(phys) => GiveBackStep(s, phys);
    case Poke(address, data) => PokeStep(s, address, data);
  }

  // ---- runs ---------------------------------------------------------------------

  ghost predicate DisciplinedRun(s: System, ops: seq<Op>)
    requires Good(s)
    decreases |ops|
  {
    ops != [] ==>
      && Disciplined(s, ops[0])
      && (StepKeepsGood(s, ops[0]); DisciplinedRun(Step(s, ops[0]), ops[1..]))
  }

  ghost function Run(s: System, ops: seq<Op>): System
    requires Good(s) && DisciplinedRun(s, ops)
    decreases |ops|
  {
    if ops == [] then s
    else
      StepKeepsGood(s, ops[0]);
      Run(Step(s, ops[0]), ops[1..])
  }

  /** The addresses the run's allocations return, in order, 0 included. */
  ghost function Results(s: System, ops: seq<Op>): seq<nat>
    requires Good(s) && DisciplinedRun(s, ops)
    decreases |ops|
  {
    if ops == [] then []
    else
      StepKeepsGood(s, ops[0]);
      (if ops[0].Take? then [NextFit(s.alloc).phys] else []) + Results(Step(s, ops[0]), ops[1..])
  }

  lemma SameArenaTransitive(s: System, t: System, u: System)
    requires SameArena(s, t) && SameArena(t, u)
    ensures SameArena(s, u)
  {
    hide Free;
    forall i | 0 <= i < |s.ram| && !Managed(s, i) ensures u.ram[i] == s.ram[i] {
      assert !Managed(t, i);
    }
  }

  /** Safety over whole runs: the invariants hold at the end, the pool of free and
      held pages never changes, free pages plus held pages stays constant, and no
      byte outside the pool and the bitmap is written. */
  lemma {:induction false} RunKeepsGood(s: System, ops: seq<Op>)
    requires Good(s) && DisciplinedRun(s, ops)
    ensures Good(Run(s, ops)) && SameArena(s, Run(s, ops))
    decreases |ops|
  {
    hide Good, SameArena, Step;
    if ops != [] {
      StepKeepsGood(s, ops[0]);
      RunKeepsGood(Step(s, ops[0]), ops[1..]);
      SameArenaTransitive(s, Step(s, ops[0]), Run(s, ops));
    } else {
      SameArenaReflexive(s);
    }
  }

  lemma SameArenaReflexive(s: System)
    ensures SameArena(s, s)
  {
  }
}
