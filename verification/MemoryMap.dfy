/** The UEFI memory map: an array of descriptors `stride` bytes apart, stored in memory. */
module MemoryMap {
  import opened Words
  import opened Storage

  const LOADER_CODE := 1
  const LOADER_DATA := 2
  const BOOT_SERVICES_CODE := 3
  const BOOT_SERVICES_DATA := 4
  const CONVENTIONAL := 7

  /** The fields of one descriptor that the allocator reads. */
  datatype Descriptor = Descriptor(kind: u32, start: u64, pages: u64)

  /** Where the map is, how many bytes it has, and the distance between descriptors. */
  datatype MapInfo = MapInfo(ptr: u64, size: u64, stride: u64)

  /** The smallest descriptor: type, pad, physical start, virtual start, pages, attribute. */
  const DESCRIPTOR_BYTES := 40

  predicate MayBecomeFree(kind: u32) {
    kind == CONVENTIONAL || kind == BOOT_SERVICES_CODE || kind == BOOT_SERVICES_DATA || kind == LOADER_CODE
  }

  function ReadDescriptor(m: seq<byte>, at: nat): Descriptor
    requires at + DESCRIPTOR_BYTES <= |m|
  {
    Descriptor(Get32(m, at), Get64(m, at + 8), Get64(m, at + 24))
  }

  predicate MapInMemory(m: seq<byte>, info: MapInfo) {
    DESCRIPTOR_BYTES <= info.stride && info.ptr + info.size <= |m|
  }

  function Entries(info: MapInfo): nat
    requires DESCRIPTOR_BYTES <= info.stride
  {
    info.size / info.stride
  }

  function EntryAddress(info: MapInfo, i: nat): nat {
    info.ptr + i * info.stride
  }

  lemma ProductBelow(i: nat, n: nat, k: nat)
    requires i < n
    ensures 0 <= i * k && i * k + k <= n * k
  {
    assert n * k == i * k + (n - i) * k;
    assert (n - i) * k == k + (n - i - 1) * k;
  }

  lemma QuotientTimes(a: nat, k: nat)
    requires k > 0
    ensures 0 <= (a / k) * k <= a
  {
  }

  /** Every descriptor the walk visits lies inside the map's own bytes. */
  lemma EntryInside(info: MapInfo, i: nat)
    requires DESCRIPTOR_BYTES <= info.stride && i < Entries(info)
    ensures info.ptr <= EntryAddress(info, i)
    ensures EntryAddress(info, i) + info.stride <= info.ptr + info.size
  {
    ProductBelow(i, Entries(info), info.stride);
    QuotientTimes(info.size, info.stride);
  }

  function DescriptorAt(m: seq<byte>, info: MapInfo, i: nat): Descriptor
    requires MapInMemory(m, info) && i < Entries(info)
  {
    EntryInside(info, i);
    ReadDescriptor(m, EntryAddress(info, i))
  }

  /** The map as a list. */
  function Descriptors(m: seq<byte>, info: MapInfo): seq<Descriptor>
    requires MapInMemory(m, info)
  {
    seq(Entries(info), i requires 0 <= i < Entries(info) => DescriptorAt(m, info, i))
  }

  /** The map reads the same in any memory that agrees on the map's bytes. */
  lemma DescriptorsAgree(m: seq<byte>, n: seq<byte>, info: MapInfo)
    requires MapInMemory(m, info) && AgreeOn(m, n, info.ptr, info.ptr + info.size)
    ensures Descriptors(m, info) == Descriptors(n, info)
  {
    forall i: nat | i < Entries(info) ensures DescriptorAt(m, info, i) == DescriptorAt(n, info, i) {
      EntryInside(info, i);
      var at := EntryAddress(info, i);
      Get64Agrees(m, n, at + 8);
      Get64Agrees(m, n, at + 24);
    }
    hide DescriptorAt;
  }

  // ---- what a list of descriptors says about pages ----------------------------

  function EndOf(d: Descriptor): nat {
    d.start + d.pages * PAGE_SIZE
  }

  /** Section 7.2 of UEFI 2.10, for the types the allocator looks at: page-aligned
      starts and no descriptor that runs past the 64-bit address space. */
  predicate WellFormed(ds: seq<Descriptor>) {
    forall i :: 0 <= i < |ds| && MayBecomeFree(ds[i].kind) ==>
                  ds[i].start % PAGE_SIZE == 0 && EndOf(ds[i]) < 0x1_0000_0000_0000_0000
  }

  predicate Covers(d: Descriptor, page: nat) {
    d.start / PAGE_SIZE <= page < d.start / PAGE_SIZE + d.pages
  }

  function PagesOf(d: Descriptor): set<nat> {
    set p: nat | p < d.start / PAGE_SIZE + d.pages && Covers(d, p)
  }

  /** Pages of the conventional descriptors. */
  function ConventionalPages(ds: seq<Descriptor>): set<nat> {
    if ds == [] then {}
    else
      var d := ds[|ds| - 1];
      ConventionalPages(ds[..|ds| - 1]) + (if d.kind == CONVENTIONAL then PagesOf(d) else {})
  }

  lemma {:induction false} InConventional(ds: seq<Descriptor>, page: nat)
    ensures page in ConventionalPages(ds) <==>
            exists i :: 0 <= i < |ds| && ds[i].kind == CONVENTIONAL && Covers(ds[i], page)
  {
    if ds != [] {
      var n := |ds| - 1;
      InConventional(ds[..n], page);
      assert forall i :: 0 <= i < n ==> ds[..n][i] == ds[i];
      assert page in PagesOf(ds[n]) <==> Covers(ds[n], page);
    }
  }

  /** Adding one region to the free set follows the recursion on the map. */
  lemma OneMoreRegion(ds: seq<Descriptor>, i: nat, before: set<nat>, after: set<nat>)
    requires i < |ds| && before == ConventionalPages(ds[..i])
    requires forall q: nat :: q in after <==> q in before || (ds[i].kind == CONVENTIONAL && Covers(ds[i], q))
    ensures after == ConventionalPages(ds[..i + 1])
  {
    assert ds[..i + 1][..i] == ds[..i];
  }

  /** The byte range [base, base + size) touches this page. */
  predicate Touches(base: nat, size: nat, page: nat) {
    base / PAGE_SIZE <= page < (base + size + PAGE_SIZE - 1) / PAGE_SIZE
  }

  /** Pages touched by the byte range [base, base + size), rounding outwards. */
  function Overlapping(base: nat, size: nat): set<nat> {
    set p: nat | p < (base + size + PAGE_SIZE - 1) / PAGE_SIZE && Touches(base, size, p)
  }

  /** Removing the pages of a byte range, clamped to the tracked pages, loses none
      of them when every page of the set is tracked. */
  lemma RangeRemoved(before: set<nat>, after: set<nat>, base: nat, size: nat, last: nat, tracked: nat)
    requires forall q :: q in before ==> q < tracked
    requires last == var l := (base + size + PAGE_SIZE - 1) / PAGE_SIZE; if l > tracked then tracked else l
    requires forall q: nat :: q in after <==> q in before && !(base / PAGE_SIZE <= q < last)
    ensures after == before - Overlapping(base, size)
  {
  }

  // ---- where the bitmap goes ----------------------------------------------------

  /** Memory below 1 MiB is never handed out. */
  const LOW_MEMORY_LIMIT := 0x10_0000

  /** End of the highest descriptor that may become free. */
  function Top(ds: seq<Descriptor>): nat {
    if ds == [] then 0
    else
      var d, below := ds[|ds| - 1], Top(ds[..|ds| - 1]);
      if MayBecomeFree(d.kind) && EndOf(d) > below then EndOf(d) else below
  }

  /** Least bound: every such descriptor ends at or below Top, and one ends there. */
  lemma {:induction false} TopIsLeastBound(ds: seq<Descriptor>)
    ensures forall i :: 0 <= i < |ds| && MayBecomeFree(ds[i].kind) ==> EndOf(ds[i]) <= Top(ds)
    ensures Top(ds) == 0 || exists i :: 0 <= i < |ds| && MayBecomeFree(ds[i].kind) && EndOf(ds[i]) == Top(ds)
  {
    if ds != [] {
      var n := |ds| - 1;
      TopIsLeastBound(ds[..n]);
      assert forall i :: 0 <= i < n ==> ds[..n][i] == ds[i];
      if Top(ds) == Top(ds[..n]) && Top(ds) != 0 {
        var i :| 0 <= i < n && MayBecomeFree(ds[..n][i].kind) && EndOf(ds[..n][i]) == Top(ds);
        assert MayBecomeFree(ds[i].kind) && EndOf(ds[i]) == Top(ds);
      }
    }
  }

  /** Pages the bitmap covers, and the words it needs. */
  function TrackedPages(ds: seq<Descriptor>): nat {
    Top(ds) / PAGE_SIZE
  }

  function TrackedWords(ds: seq<Descriptor>): nat {
    (TrackedPages(ds) + 63) / 64
  }

  /** A conventional region above the low megabyte that can hold `bytes` bytes. */
  predicate CanHold(d: Descriptor, bytes: nat) {
    d.kind == CONVENTIONAL && d.start >= LOW_MEMORY_LIMIT && d.pages * PAGE_SIZE >= bytes
  }

  /** Start of the first region that can hold `bytes` bytes, or 0. */
  function Placement(ds: seq<Descriptor>, bytes: nat): u64 {
    if ds == [] then 0
    else if CanHold(ds[0], bytes) then ds[0].start
    else Placement(ds[1..], bytes)
  }

  lemma {:induction false} PlacementIsFirstFit(ds: seq<Descriptor>, bytes: nat)
    ensures Placement(ds, bytes) == 0 <==> forall i :: 0 <= i < |ds| ==> !CanHold(ds[i], bytes)
    ensures Placement(ds, bytes) != 0 ==>
              exists i :: 0 <= i < |ds| && CanHold(ds[i], bytes) && ds[i].start == Placement(ds, bytes)
                          && forall j :: 0 <= j < i ==> !CanHold(ds[j], bytes)
  {
    if ds != [] && !CanHold(ds[0], bytes) {
      PlacementIsFirstFit(ds[1..], bytes);
      assert forall i :: 1 <= i < |ds| ==> ds[1..][i - 1] == ds[i];
      if Placement(ds, bytes) != 0 {
        var k :| 0 <= k < |ds[1..]| && CanHold(ds[1..][k], bytes) && ds[1..][k].start == Placement(ds, bytes)
                 && forall j :: 0 <= j < k ==> !CanHold(ds[1..][j], bytes);
        assert CanHold(ds[k + 1], bytes);
        forall j | 0 <= j < k + 1 ensures !CanHold(ds[j], bytes) {
          assert j > 0 ==> ds[j] == ds[1..][j - 1];
        }
      }
    }
  }

  /** The bitmap ends inside the 64-bit address space, with a page to spare: its
      region starts on a page boundary and holds at least the bitmap. */
  lemma PlacementFits(ds: seq<Descriptor>, bytes: nat)
    requires WellFormed(ds) && Placement(ds, bytes) != 0
    ensures Placement(ds, bytes) + bytes + PAGE_SIZE <= 0x1_0000_0000_0000_0000
  {
    PlacementIsFirstFit(ds, bytes);
  }

  /** A region that may become free lies inside the tracked pages. */
  lemma RegionTracked(ds: seq<Descriptor>, i: nat)
    requires WellFormed(ds) && i < |ds| && MayBecomeFree(ds[i].kind)
    ensures ds[i].start / PAGE_SIZE + ds[i].pages == EndOf(ds[i]) / PAGE_SIZE <= TrackedPages(ds)
    ensures ds[i].start == ds[i].start / PAGE_SIZE * PAGE_SIZE
  {
    TopIsLeastBound(ds);
  }

  lemma ConventionalTracked(ds: seq<Descriptor>)
    requires WellFormed(ds)
    ensures forall p :: p in ConventionalPages(ds) ==> p < TrackedPages(ds)
  {
    forall p | p in ConventionalPages(ds) ensures p < TrackedPages(ds) {
      InConventional(ds, p);
      var i :| 0 <= i < |ds| && ds[i].kind == CONVENTIONAL && Covers(ds[i], p);
      RegionTracked(ds, i);
    }
  }

  lemma TrackedBound(ds: seq<Descriptor>)
    requires WellFormed(ds)
    ensures Top(ds) < 0x1_0000_0000_0000_0000 && Top(ds) % PAGE_SIZE == 0
    ensures TrackedWords(ds) <= 0x4000_0000_0000
  {
    TopIsLeastBound(ds);
  }

  // ---- the same in numbers ----------------------------------------------------------

  /** `pages` is the least page count that covers every region of type 1 (loader code),
      3 and 4 (boot services code and data) and 7 (conventional); others do not matter. */
  ghost predicate TracksExactly(ds: seq<Descriptor>, pages: nat) {
    && (forall i :: 0 <= i < |ds| && ds[i].kind in {1, 3, 4, 7} ==> ds[i].start + ds[i].pages * 4096 <= pages * 4096)
    && (pages == 0
        || exists i :: 0 <= i < |ds| && ds[i].kind in {1, 3, 4, 7} && ds[i].start + ds[i].pages * 4096 == pages * 4096)
  }

  lemma TrackedExactly(ds: seq<Descriptor>)
    requires WellFormed(ds)
    ensures TracksExactly(ds, TrackedPages(ds))
  {
    TopIsLeastBound(ds);
    TrackedBound(ds);
    assert TrackedPages(ds) * 4096 == Top(ds);
    hide Top, WellFormed;
  }

  /** No other page count will do, and a region of any other type, wherever it stands in
      the map, changes nothing. */
  lemma OtherTypesUntracked(ds: seq<Descriptor>, k: nat, d: Descriptor, pages: nat, pages': nat)
    requires k <= |ds| && d.kind !in {1, 3, 4, 7}
    requires TracksExactly(ds, pages) && TracksExactly(ds[..k] + [d] + ds[k..], pages')
    ensures pages' == pages
  {
    var all := ds[..k] + [d] + ds[k..];
    forall i | 0 <= i < |ds| && ds[i].kind in {1, 3, 4, 7} ensures ds[i].start + ds[i].pages * 4096 <= pages' * 4096 {
      assert all[if i < k then i else i + 1] == ds[i];
    }
    forall i | 0 <= i < |all| && all[i].kind in {1, 3, 4, 7} ensures all[i].start + all[i].pages * 4096 <= pages * 4096 {
      assert all[i] == if i < k then ds[i] else if i == k then d else ds[i - 1];
    }
  }

  /** No conventional region (type 7) at or above 1 MiB has room for `bytes` bytes. */
  ghost predicate NoRegionFor(ds: seq<Descriptor>, bytes: nat) {
    forall i :: 0 <= i < |ds| ==> ds[i].kind != 7 || ds[i].start < 0x10_0000 || ds[i].pages * 4096 < bytes
  }

  /** The first one that has starts at `at`. */
  ghost predicate FirstRegionFor(ds: seq<Descriptor>, bytes: nat, at: nat) {
    exists i :: 0 <= i < |ds| && ds[i].kind == 7 && 0x10_0000 <= ds[i].start == at && bytes <= ds[i].pages * 4096
                && NoRegionFor(ds[..i], bytes)
  }

  lemma PlacedExactly(ds: seq<Descriptor>, bytes: nat)
    ensures Placement(ds, bytes) == 0 <==> NoRegionFor(ds, bytes)
    ensures Placement(ds, bytes) != 0 ==> FirstRegionFor(ds, bytes, Placement(ds, bytes))
  {
    PlacementIsFirstFit(ds, bytes);
    hide Placement;
    if Placement(ds, bytes) != 0 {
      var i :| 0 <= i < |ds| && CanHold(ds[i], bytes) && ds[i].start == Placement(ds, bytes)
               && forall j :: 0 <= j < i ==> !CanHold(ds[j], bytes);
      forall j | 0 <= j < i
        ensures ds[..i][j].kind != 7 || ds[..i][j].start < 0x10_0000 || ds[..i][j].pages * 4096 < bytes
      {
        assert ds[..i][j] == ds[j] && !CanHold(ds[j], bytes);
      }
      assert NoRegionFor(ds[..i], bytes);
    }
  }

  /** Rounding outwards in terms of addresses. */
  lemma TouchesExactly(base: nat, size: nat, page: nat)
    ensures Touches(base, size, page) <==> base < (page + 1) * 4096 && page * 4096 < base + size
  {
  }

  /** A page-aligned region covers a page exactly when it holds all of its bytes. */
  lemma CoversExactly(d: Descriptor, page: nat)
    requires d.start % 4096 == 0
    ensures Covers(d, page) <==> d.start <= page * 4096 && (page + 1) * 4096 <= d.start + d.pages * 4096
  {
  }

  // ---- the hand-over structure ----------------------------------------------------

  const BOOT_INFO_BYTES := 72

  /** The three map fields of the BootInfo structure at address `bi`. */
  function MapInfoAt(m: seq<byte>, bi: nat): MapInfo
    requires bi + BOOT_INFO_BYTES <= |m|
  {
    MapInfo(Get64(m, bi + 40), Get64(m, bi + 48), Get64(m, bi + 56))
  }

  /** BootInfo at `bi` describes a map in memory that reads as `ds`. */
  ghost predicate HandsOver(m: seq<byte>, bi: nat, info: MapInfo, ds: seq<Descriptor>) {
    && bi + BOOT_INFO_BYTES <= |m| && MapInfoAt(m, bi) == info
    && MapInMemory(m, info) && Descriptors(m, info) == ds
  }

  /** Bytes [lo, lo + n) lie in no conventional descriptor. */
  ghost predicate OutsideConventional(ds: seq<Descriptor>, lo: nat, n: nat) {
    forall i :: 0 <= i < |ds| && ds[i].kind == CONVENTIONAL ==>
                  EndOf(ds[i]) <= lo || lo + n <= ds[i].start
  }

  lemma HandOverAgrees(m: seq<byte>, n: seq<byte>, bi: nat, info: MapInfo, ds: seq<Descriptor>)
    requires HandsOver(m, bi, info, ds)
    requires AgreeOn(m, n, bi, bi + BOOT_INFO_BYTES) && AgreeOn(m, n, info.ptr, info.ptr + info.size)
    ensures HandsOver(n, bi, info, ds)
  {
    DescriptorsAgree(m, n, info);
    Get64Agrees(m, n, bi + 40);
    Get64Agrees(m, n, bi + 48);
    Get64Agrees(m, n, bi + 56);
  }
}
