/** Clients of the allocator object: runs driven through its methods, and the boot-time self-test. */
module PmmClient {
  import opened Words
  import opened Storage
  import opened MemoryMap
  import opened PageBitmap
  import opened PmmRuns
  import opened Pmm

  /** The system a client sees: the allocator object, its memory, and the pages held. */
  ghost function SystemOf(p: PageAllocator, held: set<nat>): System
    requires p.Mapped()
    reads p, p.ram
  {
    System(p.View(), p.bitmap, p.ram.cells, held)
  }

  // ---- the methods perform the steps of a run ---------------------------------------

  method TakePage(p: PageAllocator, ghost held: set<nat>) returns (phys: u64, ghost now: set<nat>)
    requires p.Mapped() && Good(SystemOf(p, held))
    modifies p`freePages, p`nextWord, p.ram
    ensures p.Mapped() && SystemOf(p, now) == AfterTake(old(SystemOf(p, held)))
    ensures phys == NextFit(old(p.View())).phys
  {
    ghost var s := SystemOf(p, held);
    NextFitTakesAFreePage(s.alloc);
    hide NextFit, Free, PutWord, WordsAt, PoolUsable;
    ghost var inspected;
    phys, inspected := p.AllocPage();
    now := AfterTake(s).held;
  }

  method GivePageBack(p: PageAllocator, phys: u64, ghost held: set<nat>) returns (fault: Option<Fault>)
    requires p.Mapped() && Good(SystemOf(p, held)) && Disciplined(SystemOf(p, held), GiveBack(phys))
    modifies p`freePages, p`nextWord, p.ram
    ensures fault.None? && p.Mapped()
    ensures Give(old(p.View()), phys).Continue?
    ensures SystemOf(p, held - {phys / PAGE_SIZE}) == AfterGiveBack(old(SystemOf(p, held)), phys)
  {
    ghost var s := SystemOf(p, held);
    HeldCanBeGivenBack(s, phys);
    hide Free, PutWord, WordsAt, PoolUsable, MarkFree;
    fault := p.FreePage(phys);
  }

  method WriteHeld(p: PageAllocator, address: u64, data: seq<byte>, ghost held: set<nat>)
    requires p.Mapped() && Good(SystemOf(p, held)) && WithinHeld(SystemOf(p, held), address, |data|)
    modifies p.ram
    ensures p.Mapped() && SystemOf(p, held) == AfterPoke(old(SystemOf(p, held)), address, data)
  {
    ghost var s := SystemOf(p, held);
    HeldIsBacked(s, address, |data|);
    PokeKeepsWords(s, address, data);
    hide Free, Splice, WordsAt, PoolUsable;
    p.ram.Write(address, data);
  }

  /** Executing a list of operations on the object is a run of the system: its
      final state and every returned address are those of the run. */
  method Drive(p: PageAllocator, ops: seq<Op>, ghost held: set<nat>)
    returns (results: seq<nat>, ghost now: set<nat>)
    requires p.Mapped() && Good(SystemOf(p, held)) && DisciplinedRun(SystemOf(p, held), ops)
    requires forall i :: 0 <= i < |ops| ==> Machine(ops[i])
    modifies p`freePages, p`nextWord, p.ram
    ensures p.Mapped() && SystemOf(p, now) == Run(old(SystemOf(p, held)), ops)
    ensures results == Results(old(SystemOf(p, held)), ops)
    decreases |ops|
  {
    hide Good, AfterTake, AfterGiveBack, AfterPoke, NextFit, SameArena;
    now := held;
    results := [];
    if ops != [] {
      StepKeepsGood(SystemOf(p, held), ops[0]);
      ghost var s := SystemOf(p, held);
      match ops[0] {
        case Take =>
          var phys;
          phys, now := TakePage(p, held);
          results := [phys];
        case GiveBack(phys) =>
          var fault := GivePageBack(p, phys, held);
          now := held - {phys / PAGE_SIZE};
        case Poke(address, data) =>
          WriteHeld(p, address, data, held);
      }
      assert SystemOf(p, now) == Step(s, ops[0]);
      var rest;
      rest, now := Drive(p, ops[1..], now);
      results := results + rest;
    }
  }

  /** Addresses of an operation are 64-bit. */
  predicate Machine(op: Op) {
    match op
    case Take => true
    case GiveBack(phys) => phys < 0x1_0000_0000_0000_0000
    case Poke(address, _) => address < 0x1_0000_0000_0000_0000
  }

  // ---- the boot-time self-test --------------------------------------------------------

  const SELF_TEST_PAGES := 3

  /** The pattern written to the first word of a page: its address with bits flipped. */
  function Tag(page: u64): u64 {
    FromWord(ToWord(page) ^ 0xA5A5_A5A5_A5A5_A5A5)
  }

  /** First and last word of the page hold its pattern. */
  ghost predicate Tagged(m: seq<byte>, page: u64) {
    page + PAGE_SIZE <= |m| && Get64(m, page) == Tag(page) && Get64(m, page + 4088) == page
  }

  /** The tag is the address with the bits of the pattern inverted. */
  lemma TagBits(page: u64, i: bv6)
    ensures Bit(ToWord(Tag(page)), i) <==> (Bit(ToWord(page), i) != Bit(0xA5A5_A5A5_A5A5_A5A5, i))
  {
    hide *;
    TagWord(page);
    BitOfXor(ToWord(page), 0xA5A5_A5A5_A5A5_A5A5, i);
  }

  lemma TagWord(page: u64)
    ensures ToWord(Tag(page)) == ToWord(page) ^ 0xA5A5_A5A5_A5A5_A5A5
  {
    hide ToWord, FromWord;
    WordRoundTrip(ToWord(page) ^ 0xA5A5_A5A5_A5A5_A5A5);
  }

  lemma TaggedAgrees(m: seq<byte>, n: seq<byte>, page: u64)
    requires Tagged(m, page) && AgreeOn(m, n, page, page + PAGE_SIZE)
    ensures Tagged(n, page)
  {
    Get64Agrees(m, n, page);
    Get64Agrees(m, n, page + 4088);
  }

  /** Pages the addresses lie in. */
  ghost function In(addresses: seq<u64>): set<nat> {
    set x: u64 | x in addresses :: x / PAGE_SIZE
  }

  lemma InOfAppend(addresses: seq<u64>, x: u64)
    ensures In(addresses + [x]) == In(addresses) + {x / PAGE_SIZE}
  {
    forall p: nat ensures p in In(addresses + [x]) <==> p in In(addresses) || p == x / PAGE_SIZE {
      assert x in addresses + [x];
      assert forall y: u64 :: y in addresses ==> y in addresses + [x];
    }
  }

  /** Each address is the lowest page of `free` not among those before it. */
  ghost predicate LeastFirst(addresses: seq<u64>, free: set<nat>) {
    forall j :: 0 <= j < |addresses| ==>
      && free - In(addresses[..j]) != {}
      && addresses[j] == Min(free - In(addresses[..j])) * PAGE_SIZE
  }

  /** Stores one 64-bit word inside a held page; nothing else changes. */
  method StoreHeld(p: PageAllocator, address: u64, v: u64, ghost held: set<nat>)
    requires p.Mapped() && Good(SystemOf(p, held)) && WithinHeld(SystemOf(p, held), address, 8)
    modifies p.ram
    ensures p.Mapped() && Good(SystemOf(p, held)) && p.View() == old(p.View())
    ensures |p.ram.cells| == |old(p.ram.cells)| && address + 8 <= |p.ram.cells|
    ensures Get64(p.ram.cells, address) == v
    ensures AgreeOutside(old(p.ram.cells), p.ram.cells, address, address + 8)
    ensures SameArena(old(SystemOf(p, held)), SystemOf(p, held))
  {
    hide Good, Splice, Get64, SameArena;
    HeldIsBacked(SystemOf(p, held), address, 8);
    PokeStep(SystemOf(p, held), address, Bytes64(v));
    Get64OfSplice(p.ram.cells, address, v);
    var data := Bytes64(v);
    WriteHeld(p, address, data, held);
  }

  /** Tags a held page and changes nothing else. */
  method WriteTags(p: PageAllocator, page: u64, ghost held: set<nat>)
    requires p.Mapped() && Good(SystemOf(p, held)) && page % PAGE_SIZE == 0 && page / PAGE_SIZE in held
    modifies p.ram
    ensures p.Mapped() && Good(SystemOf(p, held)) && p.View() == old(p.View())
    ensures Tagged(p.ram.cells, page)
    ensures AgreeOutside(old(p.ram.cells), p.ram.cells, page, page + PAGE_SIZE)
    ensures SameArena(old(SystemOf(p, held)), SystemOf(p, held))
  {
    hide Good, Tag, Get64, SameArena;
    ghost var s := SystemOf(p, held);
    HeldIsBacked(SystemOf(p, held), page, PAGE_SIZE);
    StoreHeld(p, page, Tag(page), held);
    ghost var t := SystemOf(p, held);
    StoreHeld(p, page + 4088, page, held);
    Get64Agrees(t.ram, p.ram.cells, page);
    SameArenaTransitive(s, t, SystemOf(p, held));
  }

  lemma InHas(pages: seq<u64>, j: nat)
    requires j < |pages|
    ensures pages[j] / PAGE_SIZE in In(pages)
  {
    assert pages[j] in pages;
  }

  lemma NotInMeansNew(pages: seq<u64>, page: u64)
    requires page / PAGE_SIZE !in In(pages)
    ensures page !in pages
  {
  }

  /** The self-test, started in `s0`, has drawn `pages` and is now in `s`. */
  ghost predicate Drawn(s0: System, s: System, pages: seq<u64>) {
    && Good(s) && SameArena(s0, s)
    && s.held == s0.held + In(pages)
    && Free(s.alloc.words) == Free(s0.alloc.words) - In(pages)
    && In(pages) <= Free(s0.alloc.words) && |In(pages)| == |pages|
    && LeastFirst(pages, Free(s0.alloc.words))
    && forall j :: 0 <= j < |pages| ==> pages[j] % PAGE_SIZE == 0
  }

  ghost predicate AllTagged(m: seq<byte>, pages: seq<u64>) {
    forall j :: 0 <= j < |pages| ==> Tagged(m, pages[j])
  }

  lemma LeastFirstAppend(pages: seq<u64>, page: u64, free: set<nat>)
    requires LeastFirst(pages, free) && free - In(pages) != {}
    requires page == Min(free - In(pages)) * PAGE_SIZE
    ensures LeastFirst(pages + [page], free)
  {
    var all := pages + [page];
    hide In, Min;
    forall j | 0 <= j < |all|
      ensures free - In(all[..j]) != {} && all[j] == Min(free - In(all[..j])) * PAGE_SIZE
    {
      assert all[..j] == pages[..j];
      assert j == |pages| ==> pages[..j] == pages;
    }
  }

  lemma SplitOff<T>(free: set<T>, taken: set<T>, x: T)
    requires taken <= free && x in free - taken
    ensures (free - taken) - {x} == free - (taken + {x})
    ensures taken + {x} <= free && |taken + {x}| == |taken| + 1
  {
  }

  /** Drawing the lowest remaining page keeps the bookkeeping of the test. */
  lemma DrawnOneMore(s0: System, s: System, t: System, pages: seq<u64>, page: u64)
    requires Drawn(s0, s, pages) && Drew(s, t, page)
    ensures Drawn(s0, t, pages + [page])
  {
    hide Free, Good, In, Min, SameArena, LeastFirst;
    SameArenaTransitive(s0, s, t);
    InOfAppend(pages, page);
    LeastFirstAppend(pages, page, Free(s0.alloc.words));
    SplitOff(Free(s0.alloc.words), In(pages), page / PAGE_SIZE);
    assert t.held == s0.held + (In(pages) + {page / PAGE_SIZE});
  }

  /** Tags on held pages survive the bitmap update of a draw. */
  lemma TagsSurviveDraw(s0: System, s: System, t: System, pages: seq<u64>, page: u64)
    requires Drawn(s0, s, pages) && Drew(s, t, page) && AllTagged(s.ram, pages)
    ensures AllTagged(t.ram, pages)
  {
    hide Tagged, Free, In, LeastFirst, Valid;
    forall j | 0 <= j < |pages| ensures Tagged(t.ram, pages[j]) {
      InHas(pages, j);
      assert pages[j] / PAGE_SIZE in Pool(s);
      PoolMissesBitmap(s, pages[j], PAGE_SIZE);
      TaggedAgrees(s.ram, t.ram, pages[j]);
    }
  }

  /** A page just drawn passes every check of the test. */
  lemma DrawnPageIsNew(s0: System, s: System, t: System, pages: seq<u64>, page: u64)
    requires Drawn(s0, s, pages) && Drew(s, t, page)
    ensures page % PAGE_SIZE == 0 && LOW_MEMORY_LIMIT <= page
    ensures page / PAGE_SIZE !in In(pages) && page !in pages
    ensures Good(t) && page / PAGE_SIZE in t.held && t.held == s0.held + In(pages + [page])
  {
    DrawnOneMore(s0, s, t, pages, page);
    hide Free, Good, LeastFirst, In;
    NotInMeansNew(pages, page);
  }

  /** Tags on other pages survive the tagging of a new one. */
  lemma TagsSurviveWrite(m: seq<byte>, n: seq<byte>, pages: seq<u64>, page: u64)
    requires AllTagged(m, pages) && page / PAGE_SIZE !in In(pages) && page % PAGE_SIZE == 0
    requires forall j :: 0 <= j < |pages| ==> pages[j] % PAGE_SIZE == 0
    requires AgreeOutside(m, n, page, page + PAGE_SIZE) && Tagged(n, page)
    ensures AllTagged(n, pages + [page])
  {
    hide Tagged, In;
    forall j | 0 <= j < |pages| ensures Tagged(n, pages[j]) {
      InHas(pages, j);
      TaggedAgrees(m, n, pages[j]);
    }
  }

  /** Either every page free at the start has been drawn and the next result is 0,
      or the next allocation draws one more. */
  lemma NextDraw(s0: System, s: System, pages: seq<u64>)
    requires Drawn(s0, s, pages)
    ensures Good(s)
    ensures if |Free(s0.alloc.words)| == |pages| then NextFit(s.alloc).phys == 0
            else Drew(s, AfterTake(s), NextFit(s.alloc).phys) && NextFit(s.alloc).phys != 0
  {
    FreeLeft(s0, s, pages);
    hide Drawn;
    if Free(s.alloc.words) == {} {
      AllocationKeepsValid(s.alloc);
    } else {
      TakeDraws(s);
    }
  }

  /** One round of the test's first loop: take a page, check it, tag it. */
  method TakeAndTag(p: PageAllocator, pages: seq<u64>, ghost s0: System)
    returns (fault: Option<Fault>, page: u64)
    requires p.Mapped() && Drawn(s0, SystemOf(p, s0.held + In(pages)), pages)
    requires AllTagged(p.ram.cells, pages)
    modifies p`freePages, p`nextWord, p.ram
    ensures p.Mapped()
    ensures fault == if |Free(s0.alloc.words)| == |pages| then Some(SelfTestOutOfMemory) else None
    ensures fault.None? ==> Drawn(s0, SystemOf(p, s0.held + In(pages + [page])), pages + [page])
    ensures fault.None? ==> AllTagged(p.ram.cells, pages + [page])
  {
    ghost var s := SystemOf(p, s0.held + In(pages));
    hide NextFit, Free, AfterTake, In, Drawn, AllTagged, Good, Drew;
    NextDraw(s0, s, pages);
    ghost var now;
    page, now := TakePage(p, s.held);
    if page == 0 {
      return Some(SelfTestOutOfMemory), page;
    }
    fault := FinishRound(p, pages, page, s0, s, now);
  }

  /** The rest of a round, once a page has been drawn: check it and tag it. */
  method FinishRound(p: PageAllocator, pages: seq<u64>, page: u64, ghost s0: System, ghost s: System, ghost now: set<nat>)
    returns (fault: Option<Fault>)
    requires p.Mapped() && Drawn(s0, s, pages) && AllTagged(s.ram, pages)
    requires Drew(s, SystemOf(p, now), page)
    modifies p.ram
    ensures p.Mapped() && fault.None?
    ensures Drawn(s0, SystemOf(p, s0.held + In(pages + [page])), pages + [page])
    ensures AllTagged(p.ram.cells, pages + [page])
  {
    hide Free, In, Min, Tagged, AllTagged, Good, Drew, LeastFirst;
    ghost var t := SystemOf(p, now);
    DrawnPageIsNew(s0, s, t, pages, page);
    TagsSurviveDraw(s0, s, t, pages, page);
    DrawnOneMore(s0, s, t, pages, page);
    AlignedPages(s0, s, pages);
    hide Drawn;
    fault := CheckPage(page, pages);
    if fault.Some? {
      return;
    }
    WriteTags(p, page, now);
    TagsSurviveWrite(t.ram, p.ram.cells, pages, page);
    SameAllocatorDrawn(s0, t, SystemOf(p, now), pages + [page]);
  }

  lemma AlignedPages(s0: System, s: System, pages: seq<u64>)
    requires Drawn(s0, s, pages)
    ensures forall j :: 0 <= j < |pages| ==> pages[j] % PAGE_SIZE == 0
  {
  }

  lemma SameAllocatorDrawn(s0: System, t: System, u: System, pages: seq<u64>)
    requires Drawn(s0, t, pages) && Good(u) && SameArena(t, u)
    requires u.alloc == t.alloc && u.held == t.held
    ensures Drawn(s0, u, pages)
  {
    SameArenaTransitive(s0, t, u);
    hide Free, Good, In, LeastFirst, SameArena;
  }

  /** The checks on a page just taken: aligned, above the low megabyte, not seen before. */
  method CheckPage(page: u64, pages: seq<u64>) returns (fault: Option<Fault>)
    ensures fault ==
            if page % PAGE_SIZE != 0 then Some(SelfTestUnaligned)
            else if page < LOW_MEMORY_LIMIT then Some(SelfTestLowPage)
            else if page in pages then Some(SelfTestSamePage)
            else None
  {
    if page % PAGE_SIZE != 0 {
      return Some(SelfTestUnaligned);
    }
    if page < LOW_MEMORY_LIMIT {
      return Some(SelfTestLowPage);
    }
    var j := 0;
    while j < |pages|
      invariant 0 <= j <= |pages| && page !in pages[..j]
    {
      if pages[j] == page {
        return Some(SelfTestSamePage);
      }
      j := j + 1;
    }
    return None;
  }

  lemma FreeLeft(s0: System, s: System, pages: seq<u64>)
    requires Drawn(s0, s, pages)
    ensures Free(s.alloc.words) == {} <==> |Free(s0.alloc.words)| == |pages|
  {
    hide Free, Good, LeastFirst;
    var a, b := Free(s0.alloc.words), In(pages);
    assert |a - b| == |a| - |b|;
  }

  lemma NothingDrawnYet(s0: System)
    requires Good(s0)
    ensures In([]) == {} && Drawn(s0, s0, []) && AllTagged(s0.ram, [])
    ensures s0.held + In([]) == s0.held
  {
    SameArenaReflexive(s0);
  }

  /** The second loop: every page must hold its pattern. */
  method CheckTags(p: PageAllocator, pages: seq<u64>) returns (fault: Option<Fault>)
    requires forall j :: 0 <= j < |pages| ==> pages[j] % PAGE_SIZE == 0 && pages[j] + PAGE_SIZE <= |p.ram.cells|
    ensures fault == if AllTagged(p.ram.cells, pages) then None else Some(SelfTestPattern)
  {
    hide Tag, Get64;
    var i := 0;
    while i < |pages|
      invariant 0 <= i <= |pages|
      invariant forall j :: 0 <= j < i ==> Tagged(p.ram.cells, pages[j])
    {
      var first := p.ram.Load64(pages[i]);
      var last := p.ram.Load64(pages[i] + 4088);
      if first != Tag(pages[i]) || last != pages[i] {
        assert !Tagged(p.ram.cells, pages[i]);
        return Some(SelfTestPattern);
      }
      i := i + 1;
    }
    return None;
  }

  lemma TaggedInRam(m: seq<byte>, pages: seq<u64>)
    requires AllTagged(m, pages)
    ensures forall j :: 0 <= j < |pages| ==> pages[j] + PAGE_SIZE <= |m|
  {
  }

  /** All but the first i drawn pages are still out. */
  ghost predicate Returning(s0: System, s: System, pages: seq<u64>, i: nat)
    requires i <= |pages|
  {
    && Good(s) && SameArena(s0, s)
    && s.held == s0.held + In(pages[i..])
    && Free(s.alloc.words) == Free(s0.alloc.words) - In(pages[i..])
  }

  lemma ReturnOneMore(s0: System, s: System, pages: seq<u64>, i: nat)
    requires Good(s0) && i < |pages| && Returning(s0, s, pages, i)
    requires In(pages) <= Free(s0.alloc.words) && |In(pages)| == |pages| && pages[i] % PAGE_SIZE == 0
    ensures Disciplined(s, GiveBack(pages[i])) && Give(s.alloc, pages[i]).Continue?
    ensures s.held - {pages[i] / PAGE_SIZE} == s0.held + In(pages[i + 1..])
    ensures Returning(s0, AfterGiveBack(s, pages[i]), pages, i + 1)
  {
    var q := pages[i] / PAGE_SIZE;
    InTail(pages, i);
    GiveBackStep(s, pages[i]);
    HeldCanBeGivenBack(s, pages[i]);
    ReleaseKeepsValid(s.alloc, pages[i]);
    assert q in Free(s0.alloc.words) && q !in s0.held;
    SameArenaTransitive(s0, s, AfterGiveBack(s, pages[i]));
    hide Free, Give, WordsAt, PutWord, PoolUsable, Valid, In, SameArena;
    PutOneBack(Free(s0.alloc.words), s0.held, In(pages[i + 1..]), q);
  }

  /** Giving a page back writes to the bitmap only. */
  lemma TagsSurviveReturn(s0: System, s: System, pages: seq<u64>, i: nat)
    requires Good(s0) && i < |pages| && Returning(s0, s, pages, i)
    requires In(pages) <= Free(s0.alloc.words) && forall j :: 0 <= j < |pages| ==> pages[j] % PAGE_SIZE == 0
    requires Disciplined(s, GiveBack(pages[i])) && Give(s.alloc, pages[i]).Continue?
    ensures AllTagged(s.ram, pages) ==> AllTagged(AfterGiveBack(s, pages[i]).ram, pages)
  {
    var t := AfterGiveBack(s, pages[i]);
    GiveBackWritesBitmap(s, pages[i]);
    hide Tagged, Free, In, Valid, AfterGiveBack, Give, WordsAt;
    if AllTagged(s.ram, pages) {
      forall j | 0 <= j < |pages| ensures Tagged(t.ram, pages[j]) {
        InHas(pages, j);
        assert pages[j] / PAGE_SIZE in Pool(s0);
        PoolMissesBitmap(s, pages[j], PAGE_SIZE);
        TaggedAgrees(s.ram, t.ram, pages[j]);
      }
    }
  }

  lemma GiveBackWritesBitmap(s: System, phys: nat)
    requires Good(s) && Disciplined(s, GiveBack(phys)) && Give(s.alloc, phys).Continue?
    ensures AgreeOutside(s.ram, AfterGiveBack(s, phys).ram, s.bitmap, s.bitmap + BitmapBytes(s))
  {
    ReleaseKeepsValid(s.alloc, phys);
    var w := phys / PAGE_SIZE / 64;
    var after := Give(s.alloc, phys).after;
    hide Give, Free, PoolUsable, WordsAt, PutWord, Valid;
    WordsAfterPut(s.ram, s.bitmap, |s.alloc.words|, w, after.words[w]);
  }

  lemma PutOneBack<T>(free: set<T>, held: set<T>, rest: set<T>, q: T)
    requires q in free && q !in held && q !in rest
    ensures (free - (rest + {q})) + {q} == free - rest
    ensures (held + (rest + {q})) - {q} == held + rest
  {
  }

  /** The pages are distinct, so dropping the first of a suffix drops exactly its page. */
  lemma InTail(pages: seq<u64>, i: nat)
    requires i < |pages| && |In(pages)| == |pages|
    ensures In(pages[i..]) == In(pages[i + 1..]) + {pages[i] / PAGE_SIZE}
    ensures pages[i] / PAGE_SIZE !in In(pages[i + 1..]) && pages[i] / PAGE_SIZE in In(pages)
  {
    var pre, rest := pages[..i], pages[i + 1..];
    assert pages[i..] == [pages[i]] + rest;
    InOfConcat([pages[i]], rest);
    InOfConcat(pre, pages[i..]);
    assert pages == pre + pages[i..];
    assert In([pages[i]]) == {pages[i] / PAGE_SIZE} by {
      assert pages[i] in [pages[i]];
    }
    InSize(pre);
    InSize(rest);
    var p, r := In(pre), In(rest);
    UnionSize(p, r);
    assert pages[i] / PAGE_SIZE in r ==> In(pages) == p + r;
  }

  lemma InOfConcat(a: seq<u64>, b: seq<u64>)
    ensures In(a + b) == In(a) + In(b)
  {
    forall p: nat ensures p in In(a + b) <==> p in In(a) || p in In(b) {
      assert forall x: u64 :: x in a + b <==> x in a || x in b;
    }
  }

  lemma {:induction false} InSize(a: seq<u64>)
    ensures |In(a)| <= |a|
  {
    if a != [] {
      var n := |a| - 1;
      InSize(a[..n]);
      InOfAppend(a[..n], a[n]);
      assert a == a[..n] + [a[n]];
    } else {
      assert In(a) == {};
    }
  }

  lemma UnionSize<T>(a: set<T>, b: set<T>)
    ensures |a + b| <= |a| + |b|
  {
    assert |a + b| == |a| + |b| - |a * b|;
  }

  /** The third loop: give the pages back in the order they were taken. */
  method ReturnPages(p: PageAllocator, pages: seq<u64>, ghost s0: System)
    requires p.Mapped() && Good(s0) && Drawn(s0, SystemOf(p, s0.held + In(pages)), pages)
    modifies p`freePages, p`nextWord, p.ram
    ensures p.Mapped() && Returning(s0, SystemOf(p, s0.held), pages, |pages|)
    ensures old(AllTagged(p.ram.cells, pages)) ==> AllTagged(p.ram.cells, pages)
  {
    hide Good, Free, AfterGiveBack, In, LeastFirst, AllTagged;
    var i := 0;
    assert pages[0..] == pages;
    AlignedPages(s0, SystemOf(p, s0.held + In(pages)), pages);
    while i < |pages|
      invariant 0 <= i <= |pages| && p.Mapped()
      invariant Returning(s0, SystemOf(p, s0.held + In(pages[i..])), pages, i)
      invariant old(AllTagged(p.ram.cells, pages)) ==> AllTagged(p.ram.cells, pages)
    {
      ghost var held := s0.held + In(pages[i..]);
      ReturnOneMore(s0, SystemOf(p, held), pages, i);
      TagsSurviveReturn(s0, SystemOf(p, held), pages, i);
      var fault := GivePageBack(p, pages[i], held);
      i := i + 1;
    }
    NothingDrawnYet(s0);
    assert pages[i..] == [];
  }

  /** From any good state the test halts exactly when fewer than three pages are
      free. Otherwise it draws the three lowest free pages in ascending order, reads
      back every tag, and leaves the bitmap and the free count as they were. */
  method SelfTest(p: PageAllocator, ghost held: set<nat>) returns (fault: Option<Fault>, pages: seq<u64>)
    requires p.Mapped() && Good(SystemOf(p, held))
    modifies p`freePages, p`nextWord, p.ram
    ensures fault == if |old(Free(p.Bits()))| < 3 then Some(SelfTestOutOfMemory) else None
    ensures fault.None? ==> |pages| == 3 && LeastFirst(pages, old(Free(p.Bits())))
    ensures fault.None? ==> AllTagged(p.ram.cells, pages)
    ensures fault.None? ==> p.Mapped() && Good(SystemOf(p, held))
    ensures fault.None? ==> p.Bits() == old(p.Bits()) && p.freePages == old(p.freePages)
    ensures fault.None? ==> SameArena(old(SystemOf(p, held)), SystemOf(p, held))
  {
    hide Good, Free, In, LeastFirst, AllTagged;
    ghost var s0 := SystemOf(p, held);
    NothingDrawnYet(s0);
    var before := p.freePages;
    pages := [];
    var i := 0;
    while i < SELF_TEST_PAGES
      invariant 0 <= i <= SELF_TEST_PAGES && |pages| == i && p.Mapped()
      invariant Drawn(s0, SystemOf(p, held + In(pages)), pages) && AllTagged(p.ram.cells, pages)
    {
      DrawnAreFree(s0, SystemOf(p, held + In(pages)), pages);
      var page;
      fault, page := TakeAndTag(p, pages, s0);
      if fault.Some? {
        return;
      }
      pages := pages + [page];
      i := i + 1;
    }
    DrawnAreFree(s0, SystemOf(p, held + In(pages)), pages);
    AlignedPages(s0, SystemOf(p, held + In(pages)), pages);
    TaggedInRam(p.ram.cells, pages);
    fault := CheckTags(p, pages);
    if fault.Some? {
      return;
    }
    ReturnPages(p, pages, s0);
    AllReturned(s0, SystemOf(p, held), pages);
    if p.freePages != before {
      return Some(SelfTestCount), pages;
    }
  }

  lemma DrawnAreFree(s0: System, s: System, pages: seq<u64>)
    requires Drawn(s0, s, pages)
    ensures |pages| <= |Free(s0.alloc.words)| && LeastFirst(pages, Free(s0.alloc.words))
  {
    CardinalityMonotone(In(pages), Free(s0.alloc.words));
  }

  lemma AllReturned(s0: System, s: System, pages: seq<u64>)
    requires Good(s0) && Returning(s0, s, pages, |pages|)
    ensures Good(s) && s.alloc.words == s0.alloc.words && s.alloc.freePages == s0.alloc.freePages
    ensures SameArena(s0, s)
  {
    hide Free;
    assert In(pages[|pages|..]) == {} by {
      assert pages[|pages|..] == [];
      NothingDrawnYet(s0);
    }
    SameFreeSameWords(s.alloc.words, s0.alloc.words);
  }
}
