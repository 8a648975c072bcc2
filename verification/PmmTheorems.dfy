/** What follows about whole runs: the allocator is a least-first set, runs that give
    back what they took leave no trace, and the total scanning cost is bounded. */
module PmmTheorems {
  import opened Words
  import opened Storage
  import opened MemoryMap
  import opened PageBitmap
  import opened PmmRuns

  // ---- the abstract allocator: a set of pages, least one first --------------------

  ghost function SetStep(free: set<nat>, op: Op): set<nat> {
    match op
    case Take => if free == {} then free else free - {Min(free)}
    case GiveBack(phys) => free + {phys / PAGE_SIZE}
    case Poke(_, _) => free
  }

  ghost function SetResult(free: set<nat>): nat {
    if free == {} then 0 else Min(free) * PAGE_SIZE
  }

  ghost function SetRun(free: set<nat>, ops: seq<Op>): set<nat>
    decreases |ops|
  {
    if ops == [] then free else SetRun(SetStep(free, ops[0]), ops[1..])
  }

  ghost function SetResults(free: set<nat>, ops: seq<Op>): seq<nat>
    decreases |ops|
  {
    if ops == [] then []
    else (if ops[0].Take? then [SetResult(free)] else []) + SetResults(SetStep(free, ops[0]), ops[1..])
  }

  /** The free set each allocation of the run finds. */
  ghost function FreeAtTakes(free: set<nat>, ops: seq<Op>): seq<set<nat>>
    decreases |ops|
  {
    if ops == [] then []
    else (if ops[0].Take? then [free] else []) + FreeAtTakes(SetStep(free, ops[0]), ops[1..])
  }

  lemma StepRefinesSet(s: System, op: Op)
    requires Good(s) && Disciplined(s, op)
    ensures Free(Step(s, op).alloc.words) == SetStep(Free(s.alloc.words), op)
    ensures op.Take? ==> NextFit(s.alloc).phys == SetResult(Free(s.alloc.words))
    ensures op.Take? ==> (NextFit(s.alloc).phys == 0 <==> Free(s.alloc.words) == {})
  {
    hide NextFit, Free, Min;
    match op
    case Take =>
      AllocationKeepsValid(s.alloc);
      if Free(s.alloc.words) != {} {
        TakeDraws(s);
      }
    case GiveBack(phys) =>
      HeldCanBeGivenBack(s, phys);
      ReleaseKeepsValid(s.alloc, phys);
    case Poke(_, _) =>
  }

  /** Refinement over whole runs: bitmap, cursor, wrap-around and counters together
      behave as a set of free pages from which the least is always taken, and 0 is
      returned exactly when that set is empty. */
  lemma {:induction false} RunRefinesSet(s: System, ops: seq<Op>)
    requires Good(s) && DisciplinedRun(s, ops)
    ensures Free(Run(s, ops).alloc.words) == SetRun(Free(s.alloc.words), ops)
    ensures Results(s, ops) == SetResults(Free(s.alloc.words), ops)
    ensures |FreeAtTakes(Free(s.alloc.words), ops)| == |Results(s, ops)|
    ensures forall k :: 0 <= k < |Results(s, ops)| ==>
              (Results(s, ops)[k] == 0 <==> FreeAtTakes(Free(s.alloc.words), ops)[k] == {})
    decreases |ops|
  {
    hide Good, Step, Free, SetStep, SetResult, NextFit;
    if ops != [] {
      StepKeepsGood(s, ops[0]);
      StepRefinesSet(s, ops[0]);
      RunRefinesSet(Step(s, ops[0]), ops[1..]);
    }
  }

  /** Every address a run returns is 0 or a page of the initial pool: page-aligned,
      at or above 1 MiB, tracked, and outside the bitmap. */
  lemma {:induction false} ResultsComeFromPool(s: System, ops: seq<Op>, r: nat)
    requires Good(s) && DisciplinedRun(s, ops) && r in Results(s, ops)
    ensures r == 0 || (r % PAGE_SIZE == 0 && r / PAGE_SIZE in Pool(s) && LOW_MEMORY_LIMIT <= r
                       && r / PAGE_SIZE < s.alloc.pageCount && !Touches(s.bitmap, BitmapBytes(s), r / PAGE_SIZE))
    decreases |ops|
  {
    hide NextFit, Step, Free, Touches;
    StepKeepsGood(s, ops[0]);
    if ops[0].Take? && r == NextFit(s.alloc).phys {
      AllocationKeepsValid(s.alloc);
    } else {
      ResultsComeFromPool(Step(s, ops[0]), ops[1..], r);
    }
  }

  // ---- no trace left ---------------------------------------------------------------

  /** A run that ends holding what it began with restores the bitmap bit for bit and
      the free count, whatever it took, gave back and wrote in between. */
  lemma RestoredWhenHeldRestored(s: System, ops: seq<Op>)
    requires Good(s) && DisciplinedRun(s, ops) && Run(s, ops).held == s.held
    ensures Run(s, ops).alloc.words == s.alloc.words
    ensures Run(s, ops).alloc.freePages == s.alloc.freePages
  {
    RunKeepsGood(s, ops);
    hide Free, Run, DisciplinedRun, PoolUsable;
    var t := Run(s, ops);
    assert Free(t.alloc.words) == Pool(t) - t.held;
    assert Free(s.alloc.words) == Pool(s) - s.held;
    SameFreeSameWords(t.alloc.words, s.alloc.words);
  }

  /** Afterwards no sequence of operations can tell the difference, although the
      cursor may have moved: every later allocation returns the same address. */
  lemma InvisibleAfterwards(s: System, ops: seq<Op>, later: seq<Op>)
    requires Good(s) && DisciplinedRun(s, ops) && Run(s, ops).held == s.held
    ensures Good(Run(s, ops))
    ensures DisciplinedRun(Run(s, ops), later) <==> DisciplinedRun(s, later)
    ensures DisciplinedRun(s, later) ==> Results(Run(s, ops), later) == Results(s, later)
  {
    RunKeepsGood(s, ops);
    RestoredWhenHeldRestored(s, ops);
    var t := Run(s, ops);
    if DisciplinedRun(s, later) {
      SameDiscipline(s, t, later);
      RunRefinesSet(s, later);
      RunRefinesSet(t, later);
    }
    if DisciplinedRun(t, later) {
      SameDiscipline(t, s, later);
    }
  }

  /** Discipline depends only on what is held and free. */
  lemma {:induction false} SameDiscipline(s: System, t: System, ops: seq<Op>)
    requires Good(s) && Good(t) && s.held == t.held && |s.ram| == |t.ram|
    requires Free(s.alloc.words) == Free(t.alloc.words)
    requires DisciplinedRun(s, ops)
    ensures DisciplinedRun(t, ops)
    decreases |ops|
  {
    if ops != [] {
      var op := ops[0];
      StepKeepsGood(s, op);
      StepKeepsGood(t, op);
      StepRefinesSet(s, op);
      StepRefinesSet(t, op);
      StepHeld(s, op);
      StepHeld(t, op);
      hide Good, Step, Free, SetStep, SetResult, NextFit;
      SameDiscipline(Step(s, op), Step(t, op), ops[1..]);
    }
  }

  lemma StepHeld(s: System, op: Op)
    requires Good(s) && Disciplined(s, op)
    ensures Step(s, op).held ==
            match op
            case Take => if Free(s.alloc.words) == {} then s.held else s.held + {Min(Free(s.alloc.words))}
            case GiveBack(phys) => s.held - {phys / PAGE_SIZE}
            case Poke(_, _) => s.held
    ensures |Step(s, op).ram| == |s.ram|
  {
    StepKeepsGood(s, op);
    if op.Take? {
      TakeStep(s);
    }
  }

  // ---- taking k pages and giving them back in any order -----------------------------

  function Takes(k: nat): seq<Op> {
    seq(k, _ => Take)
  }

  function GiveBacks(order: seq<nat>): seq<Op> {
    seq(|order|, i requires 0 <= i < |order| => GiveBack(order[i]))
  }

  lemma {:induction false} RunOfConcatenation(s: System, a: seq<Op>, b: seq<Op>)
    requires Good(s) && DisciplinedRun(s, a)
    requires Good(Run(s, a)) && DisciplinedRun(Run(s, a), b)
    ensures DisciplinedRun(s, a + b) && Run(s, a + b) == Run(Run(s, a), b)
    decreases |a|
  {
    hide Good, Step, Disciplined;
    if a == [] {
      assert a + b == b;
    } else {
      StepKeepsGood(s, a[0]);
      assert (a + b)[0] == a[0] && (a + b)[1..] == a[1..] + b;
      RunOfConcatenation(Step(s, a[0]), a[1..], b);
    }
  }

  /** A run that begins with `op`. */
  lemma RunOfCons(s: System, op: Op, rest: seq<Op>)
    requires Good(s) && Disciplined(s, op)
    requires Good(Step(s, op)) && DisciplinedRun(Step(s, op), rest)
    ensures DisciplinedRun(s, [op] + rest)
    ensures Run(s, [op] + rest) == Run(Step(s, op), rest)
    ensures Results(s, [op] + rest) ==
            (if op.Take? then [NextFit(s.alloc).phys] else []) + Results(Step(s, op), rest)
  {
    var ops := [op] + rest;
    assert ops[0] == op && ops[1..] == rest;
    hide Good, Step, NextFit;
  }

  predicate Aligned(addresses: seq<nat>) {
    forall i :: 0 <= i < |addresses| ==> addresses[i] % PAGE_SIZE == 0
  }

  function PagesNamed(addresses: seq<nat>): set<nat> {
    if addresses == [] then {} else {addresses[0] / PAGE_SIZE} + PagesNamed(addresses[1..])
  }

  predicate Distinct(addresses: seq<nat>) {
    addresses == [] || (addresses[0] / PAGE_SIZE !in PagesNamed(addresses[1..]) && Distinct(addresses[1..]))
  }

  lemma {:induction false} InPagesNamed(a: seq<nat>, p: nat)
    ensures p in PagesNamed(a) <==> exists i :: 0 <= i < |a| && a[i] / PAGE_SIZE == p
  {
    if a != [] {
      var rest := a[1..];
      InPagesNamed(rest, p);
      assert forall i :: 0 <= i < |rest| ==> rest[i] == a[i + 1];
      if i :| 0 <= i < |a| && a[i] / PAGE_SIZE == p && i != 0 {
        assert rest[i - 1] == a[i];
      }
    }
  }

  /** Aligned addresses name distinct pages exactly when none occurs twice. */
  lemma {:induction false} DistinctMeansOnce(a: seq<nat>)
    requires Aligned(a)
    ensures Distinct(a) <==> forall x: nat :: multiset(a)[x] <= 1
  {
    if a != [] {
      var rest := a[1..];
      assert a == [a[0]] + rest;
      assert forall i :: 0 <= i < |rest| ==> rest[i] == a[i + 1];
      DistinctMeansOnce(rest);
      InPagesNamed(rest, a[0] / PAGE_SIZE);
      assert multiset(a) == multiset{a[0]} + multiset(rest);
      if a[0] / PAGE_SIZE in PagesNamed(rest) {
        var i :| 0 <= i < |rest| && rest[i] / PAGE_SIZE == a[0] / PAGE_SIZE;
        assert rest[i] == a[0];
        assert a[0] in multiset(rest);
        assert multiset(a)[a[0]] >= 2;
      } else {
        assert a[0] !in rest;
        forall x: nat ensures multiset(a)[x] <= 1 <==> multiset(rest)[x] <= 1 {
          assert x == a[0] ==> multiset(rest)[x] == 0;
        }
      }
    }
  }

  lemma PermutationFacts(a: seq<nat>, b: seq<nat>)
    requires multiset(a) == multiset(b) && Aligned(a) && Distinct(a)
    ensures Aligned(b) && Distinct(b) && PagesNamed(a) == PagesNamed(b)
  {
    SameElements(a, b);
    assert Aligned(b);
    DistinctMeansOnce(a);
    DistinctMeansOnce(b);
    forall p: nat ensures p in PagesNamed(a) <==> p in PagesNamed(b) {
      InPagesNamed(a, p);
      InPagesNamed(b, p);
    }
  }

  lemma SameElements(a: seq<nat>, b: seq<nat>)
    requires multiset(a) == multiset(b)
    ensures forall i :: 0 <= i < |a| ==> exists j :: 0 <= j < |b| && a[i] == b[j]
    ensures forall j :: 0 <= j < |b| ==> exists i :: 0 <= i < |a| && a[i] == b[j]
  {
    forall i | 0 <= i < |a| ensures exists j :: 0 <= j < |b| && a[i] == b[j] {
      assert a[i] in multiset(a);
      assert a[i] in b;
      var j :| 0 <= j < |b| && b[j] == a[i];
    }
    forall j | 0 <= j < |b| ensures exists i :: 0 <= i < |a| && a[i] == b[j] {
      assert b[j] in multiset(b);
      assert b[j] in a;
      var i :| 0 <= i < |a| && a[i] == b[j];
    }
  }

  /** k allocations return k distinct pages that nobody held, when k are free. */
  lemma {:induction false} TakesAreFresh(s: System, k: nat)
    requires Good(s) && k <= |Free(s.alloc.words)|
    ensures DisciplinedRun(s, Takes(k)) && |Results(s, Takes(k))| == k
    ensures Aligned(Results(s, Takes(k))) && Distinct(Results(s, Takes(k)))
    ensures PagesNamed(Results(s, Takes(k))) <= Free(s.alloc.words)
    ensures Run(s, Takes(k)).held == s.held + PagesNamed(Results(s, Takes(k)))
    decreases k
  {
    hide Good, Step, Free, NextFit, Min, SetResult;
    if k > 0 {
      hide Aligned;
      var t := Step(s, Take);
      TakeFromNonEmpty(s);
      assert Takes(k) == [Take] + Takes(k - 1);
      hide Run, Results, DisciplinedRun, Takes, PagesNamed, Distinct;
      TakesAreFresh(t, k - 1);
      RunOfCons(s, Take, Takes(k - 1));
      var r, rest := SetResult(Free(s.alloc.words)), Results(t, Takes(k - 1));
      FreshCons(Free(s.alloc.words), r, rest);
      UnionCons(s.held, Min(Free(s.alloc.words)), PagesNamed(rest));
    }
  }

  lemma TakeFromNonEmpty(s: System)
    requires Good(s) && |Free(s.alloc.words)| > 0
    ensures Disciplined(s, Take) && Good(Step(s, Take))
    ensures Free(Step(s, Take).alloc.words) == Free(s.alloc.words) - {Min(Free(s.alloc.words))}
    ensures |Free(Step(s, Take).alloc.words)| == |Free(s.alloc.words)| - 1
    ensures Step(s, Take).held == s.held + {Min(Free(s.alloc.words))}
    ensures NextFit(s.alloc).phys == SetResult(Free(s.alloc.words))
  {
    StepKeepsGood(s, Take);
    StepRefinesSet(s, Take);
    StepHeld(s, Take);
    hide Good, Step, Free, NextFit;
  }

  lemma UnionCons<T>(h: set<T>, x: T, p: set<T>)
    ensures (h + {x}) + p == h + ({x} + p)
    ensures (h - {x}) - p == h - ({x} + p)
  {
  }

  lemma FreshCons(free: set<nat>, r: nat, rest: seq<nat>)
    requires free != {} && r == SetResult(free)
    requires Aligned(rest) && Distinct(rest) && PagesNamed(rest) <= free - {Min(free)}
    ensures Aligned([r] + rest) && Distinct([r] + rest)
    ensures PagesNamed([r] + rest) == {Min(free)} + PagesNamed(rest) <= free
  {
    assert ([r] + rest)[1..] == rest;
  }

  /** Distinct held pages can be given back in any order; none of the releases halts. */
  lemma {:induction false} GiveBacksRun(s: System, order: seq<nat>)
    requires Good(s) && Aligned(order) && Distinct(order) && PagesNamed(order) <= s.held
    ensures DisciplinedRun(s, GiveBacks(order))
    ensures Run(s, GiveBacks(order)).held == s.held - PagesNamed(order)
    decreases |order|
  {
    if order != [] {
      hide *;
      var op, rest := GiveBack(order[0]), order[1..];
      GiveBacksCons(order);
      FirstGivenBack(s, order);
      GiveBacksRun(Step(s, op), rest);
      RunOfCons(s, op, GiveBacks(rest));
      UnionCons(s.held, order[0] / PAGE_SIZE, PagesNamed(rest));
    }
  }

  lemma GiveBacksCons(order: seq<nat>)
    requires order != []
    ensures GiveBacks(order) == [GiveBack(order[0])] + GiveBacks(order[1..])
  {
  }

  lemma FirstGivenBack(s: System, order: seq<nat>)
    requires Good(s) && Aligned(order) && Distinct(order) && PagesNamed(order) <= s.held && order != []
    ensures Disciplined(s, GiveBack(order[0])) && Good(Step(s, GiveBack(order[0])))
    ensures Step(s, GiveBack(order[0])).held == s.held - {order[0] / PAGE_SIZE}
    ensures Aligned(order[1..]) && Distinct(order[1..])
    ensures PagesNamed(order[1..]) <= Step(s, GiveBack(order[0])).held
    ensures PagesNamed(order) == {order[0] / PAGE_SIZE} + PagesNamed(order[1..])
  {
    var op := GiveBack(order[0]);
    assert order[0] / PAGE_SIZE in PagesNamed(order) && order[0] % PAGE_SIZE == 0;
    assert Disciplined(s, op);
    AlignedTail(order);
    assert Distinct(order[1..]) && order[0] / PAGE_SIZE !in PagesNamed(order[1..]);
    assert PagesNamed(order) == {order[0] / PAGE_SIZE} + PagesNamed(order[1..]);
    hide *;
    StepKeepsGood(s, op);
    StepHeld(s, op);
  }

  lemma AlignedTail(a: seq<nat>)
    requires a != [] && Aligned(a)
    ensures Aligned(a[1..])
  {
  }

  /** Allocating any k pages and giving them back in any order: never a halt, and
      the bitmap and the free count are what they were. */
  lemma TakeThenGiveBackAnyOrder(s: System, k: nat, order: seq<nat>)
    requires Good(s) && k <= |Free(s.alloc.words)|
    requires DisciplinedRun(s, Takes(k)) && multiset(order) == multiset(Results(s, Takes(k)))
    ensures var ops := Takes(k) + GiveBacks(order);
      && DisciplinedRun(s, ops) && Run(s, ops).held == s.held
      && Run(s, ops).alloc.words == s.alloc.words && Run(s, ops).alloc.freePages == s.alloc.freePages
  {
    var got, t := Results(s, Takes(k)), Run(s, Takes(k));
    TakesAreFresh(s, k);
    RunKeepsGood(s, Takes(k));
    FreeAndHeldDisjoint(s);
    hide Good, Free, Aligned, Distinct, PagesNamed, Run, Results, DisciplinedRun, Takes, GiveBacks;
    PermutationFacts(got, order);
    GiveBacksRun(t, order);
    RunOfConcatenation(s, Takes(k), GiveBacks(order));
    assert Run(t, GiveBacks(order)).held == s.held;
    RestoredWhenHeldRestored(s, Takes(k) + GiveBacks(order));
  }

  lemma FreeAndHeldDisjoint(s: System)
    requires Good(s)
    ensures Free(s.alloc.words) !! s.held
  {
  }

  // ---- how much scanning a run costs -------------------------------------------------

  /** Words read by the allocations of a run. */
  ghost function Inspected(s: System, ops: seq<Op>): nat
    requires Good(s) && DisciplinedRun(s, ops)
    decreases |ops|
  {
    if ops == [] then 0
    else
      StepKeepsGood(s, ops[0]);
      CostOf(s, ops[0]) + Inspected(Step(s, ops[0]), ops[1..])
  }

  /** How far releases pulled the cursor back, in all. */
  ghost function PulledBack(s: System, ops: seq<Op>): nat
    requires Good(s) && DisciplinedRun(s, ops)
    decreases |ops|
  {
    if ops == [] then 0
    else
      StepKeepsGood(s, ops[0]);
      PullOf(s, ops[0]) + PulledBack(Step(s, ops[0]), ops[1..])
  }

  ghost function PullOf(s: System, op: Op): nat {
    if op.GiveBack? && op.phys / PAGE_SIZE / 64 < s.alloc.nextWord
    then s.alloc.nextWord - op.phys / PAGE_SIZE / 64 else 0
  }

  ghost function CostOf(s: System, op: Op): nat
    requires Good(s)
  {
    if op.Take? then NextFit(s.alloc).inspected else 0
  }

  /** Allocations of a run that succeeded. */
  function Successes(results: seq<nat>): nat {
    if results == [] then 0 else (if results[0] != 0 then 1 else 0) + Successes(results[1..])
  }

  /** Amortised bound: words read are one per success, plus the net movement of the
      cursor, plus what releases pulled back, plus a full sweep per failed call. */
  lemma {:induction false} ScanCost(s: System, ops: seq<Op>)
    requires Good(s) && DisciplinedRun(s, ops)
    ensures var results := Results(s, ops);
      Inspected(s, ops) + s.alloc.nextWord
      == Successes(results) + Run(s, ops).alloc.nextWord + PulledBack(s, ops)
         + (|results| - Successes(results)) * |s.alloc.words|
    decreases |ops|
  {
    hide Step, NextFit, CostOf, PullOf, Disciplined, PoolUsable, Free, TailUsed, CursorTight;
    if ops != [] {
      var op := ops[0];
      var t := Step(s, op);
      StepKeepsGood(s, op);
      ScanCost(t, ops[1..]);
      StepCost(s, op);
      var rest := Results(t, ops[1..]);
      if op.Take? {
        var r := NextFit(s.alloc).phys;
        assert ([r] + rest)[1..] == rest;
        assert Results(s, ops) == [r] + rest;
        OneMoreSweep(|rest| - Successes(rest), |s.alloc.words|);
      } else {
        assert Results(s, ops) == rest;
      }
    }
  }

  lemma OneMoreSweep(n: int, k: nat)
    ensures (n + 1) * k == n * k + k
  {
  }

  lemma TakeCost(s: System)
    requires Good(s)
    ensures NextFit(s.alloc).inspected + s.alloc.nextWord
            == AfterTake(s).alloc.nextWord + if NextFit(s.alloc).phys == 0 then |s.alloc.words| else 1
  {
    NextFitIsFirstFit(s.alloc);
    AllocationKeepsValid(s.alloc);
    hide NextFit, Free, WordsAt, PutWord, FirstFit, OneWordStored;
    if Free(s.alloc.words) != {} {
      PoolIsHigh(s, NextFit(s.alloc).phys);
    }
  }

  lemma GiveBackCost(s: System, phys: nat)
    requires Good(s) && Disciplined(s, GiveBack(phys))
    ensures Give(s.alloc, phys).Continue?
    ensures s.alloc.nextWord == AfterGiveBack(s, phys).alloc.nextWord + PullOf(s, GiveBack(phys))
  {
    HeldCanBeGivenBack(s, phys);
  }

  lemma StepCost(s: System, op: Op)
    requires Good(s) && Disciplined(s, op)
    ensures |Step(s, op).alloc.words| == |s.alloc.words|
    ensures CostOf(s, op) + s.alloc.nextWord
            == Step(s, op).alloc.nextWord + PullOf(s, op)
               + (if !op.Take? then 0 else if NextFit(s.alloc).phys == 0 then |s.alloc.words| else 1)
  {
    hide NextFit, Free, Good, AfterTake, AfterGiveBack, AfterPoke;
    StepKeepsGood(s, op);
    match op {
      case Take => TakeCost(s);
      case GiveBack(phys) => GiveBackCost(s, phys);
      case Poke(address, data) => PokeCost(s, address, data);
    }
  }

  lemma PokeCost(s: System, address: nat, data: seq<byte>)
    requires Good(s) && WithinHeld(s, address, |data|)
    ensures AfterPoke(s, address, data).alloc == s.alloc
  {
  }

  /** With no releases and no failures, A allocations read at most A + words - 1 words. */
  lemma StraightRunCost(s: System, k: nat)
    requires Good(s) && 0 < k <= |Free(s.alloc.words)|
    ensures DisciplinedRun(s, Takes(k))
    ensures Inspected(s, Takes(k)) <= k + |s.alloc.words| - 1
  {
    TakesAreFresh(s, k);
    ScanCost(s, Takes(k));
    RunKeepsGood(s, Takes(k));
    NothingPulledBack(s, k);
    TakesSucceed(s, k);
    hide Good, Free, Run, Results, DisciplinedRun, Inspected, Takes, PagesNamed, Distinct, Aligned, PulledBack;
    CursorInside(Run(s, Takes(k)));
    NoFailures(Successes(Results(s, Takes(k))), k, |s.alloc.words|);
  }

  lemma NoFailures(successes: nat, k: nat, words: nat)
    requires successes == k
    ensures (k - successes) * words == 0
  {
  }

  lemma TakesSucceed(s: System, k: nat)
    requires Good(s) && k <= |Free(s.alloc.words)|
    ensures DisciplinedRun(s, Takes(k)) && Successes(Results(s, Takes(k))) == k
  {
    TakesAreFresh(s, k);
    var results := Results(s, Takes(k));
    hide Good, Free, Run, Results, DisciplinedRun, Takes, PagesNamed;
    forall i | 0 <= i < |results| ensures results[i] != 0 {
      InPagesNamed(results, results[i] / PAGE_SIZE);
      PoolIsHigh(s, results[i]);
    }
    AllSucceeded(results);
  }

  lemma CursorInside(s: System)
    requires Good(s)
    ensures s.alloc.nextWord < |s.alloc.words| || s.alloc.nextWord == 0
  {
  }

  lemma PoolIsHigh(s: System, address: nat)
    requires Good(s) && address / PAGE_SIZE in Free(s.alloc.words)
    ensures address != 0
  {
    hide Free;
    assert address / PAGE_SIZE in Pool(s);
  }

  lemma {:induction false} AllSucceeded(results: seq<nat>)
    requires forall i :: 0 <= i < |results| ==> results[i] != 0
    ensures Successes(results) == |results|
  {
    if results != [] {
      AllSucceeded(results[1..]);
    }
  }

  lemma {:induction false} NothingPulledBack(s: System, k: nat)
    requires Good(s) && DisciplinedRun(s, Takes(k))
    ensures PulledBack(s, Takes(k)) == 0
    decreases k
  {
    hide Good, Step, Disciplined, SameArena;
    if k > 0 {
      StepKeepsGood(s, Take);
      var ops := Takes(k);
      assert ops[0] == Take && ops[1..] == Takes(k - 1);
      var t := Step(s, Take);
      assert DisciplinedRun(t, Takes(k - 1));
      assert PulledBack(s, ops) == PulledBack(t, ops[1..]);
      hide *;
      NothingPulledBack(t, k - 1);
    }
  }
}
