/** Machine integers and the bit operations of 64-bit bitmap words. */
module Words {

  type u64 = x: int | 0 <= x < 0x1_0000_0000_0000_0000
  type u32 = x: int | 0 <= x < 0x1_0000_0000
  type u16 = x: int | 0 <= x < 0x1_0000
  type byte = x: int | 0 <= x < 0x100

  /** Pages are 4 KiB. */
  const PAGE_SIZE := 4096

  /** A bitmap word with all 64 bits set. */
  const ALL_ONES: bv64 := 0xFFFF_FFFF_FFFF_FFFF

  /** Bit `i` of `w`, read by shift and mask. */
  predicate Bit(w: bv64, i: bv6) {
    (w >> i) & 1 == 1
  }

  /** Or-ing a one-bit mask changes that bit and leaves the other 63 alone. */
  lemma BitOfOr(w: bv64, i: bv6, j: bv6)
    ensures Bit(w | (1 << i), j) <==> i == j || Bit(w, j)
  {
  }

  /** And-ing the complemented mask clears that bit and leaves the other 63 alone. */
  lemma BitOfAndNot(w: bv64, i: bv6, j: bv6)
    ensures Bit(w & !(1 << i), j) <==> i != j && Bit(w, j)
  {
  }

  function SetBit(w: bv64, i: bv6): bv64 {
    w | (1 << i)
  }

  function ClearBit(w: bv64, i: bv6): bv64 {
    w & !(1 << i)
  }

  lemma BitOfSet(w: bv64, i: bv6, j: bv6)
    ensures Bit(SetBit(w, i), j) <==> i == j || Bit(w, j)
  {
    hide Bit;
    BitOfOr(w, i, j);
  }

  lemma BitOfClear(w: bv64, i: bv6, j: bv6)
    ensures Bit(ClearBit(w, i), j) <==> i != j && Bit(w, j)
  {
    hide Bit;
    BitOfAndNot(w, i, j);
  }

  lemma BitOfComplement(w: bv64, i: bv6)
    ensures Bit(!w, i) <==> !Bit(w, i)
  {
  }

  lemma BitOfOnes(i: bv6)
    ensures Bit(ALL_ONES, i)
  {
  }

  /** Position of some set bit, found by halving. */
  function SomeBit(w: bv64): bv6 {
    var a: bv6 := if w & 0xFFFF_FFFF == 0 then 32 else 0;
    var w1 := w >> a;
    var b: bv6 := if w1 & 0xFFFF == 0 then 16 else 0;
    var w2 := w1 >> b;
    var c: bv6 := if w2 & 0xFF == 0 then 8 else 0;
    var w3 := w2 >> c;
    var d: bv6 := if w3 & 0xF == 0 then 4 else 0;
    var w4 := w3 >> d;
    var e: bv6 := if w4 & 0x3 == 0 then 2 else 0;
    var w5 := w4 >> e;
    var f: bv6 := if w5 & 0x1 == 0 then 1 else 0;
    a + b + c + d + e + f
  }

  lemma SomeBitIsSet(w: bv64)
    requires w != 0
    ensures Bit(w, SomeBit(w))
  {
  }

  lemma BitOfXor(v: bv64, w: bv64, i: bv6)
    ensures Bit(v ^ w, i) <==> (Bit(v, i) != Bit(w, i))
  {
  }

  lemma XorOfDistinct(v: bv64, w: bv64)
    requires v != w
    ensures v ^ w != 0
  {
  }

  /** A word is determined by its 64 bits. */
  lemma SameBitsSameWord(v: bv64, w: bv64)
    requires forall i: bv6 :: Bit(v, i) <==> Bit(w, i)
    ensures v == w
  {
    hide *;
    if v != w {
      XorOfDistinct(v, w);
      SomeBitIsSet(v ^ w);
      BitOfXor(v, w, SomeBit(v ^ w));
    }
  }

  /** The word equal to ~0 is the one with all 64 bits set. */
  lemma FullWord(w: bv64)
    ensures w == ALL_ONES <==> forall i: bv6 :: Bit(w, i)
  {
    forall i: bv6 ensures Bit(ALL_ONES, i) {
      BitOfOnes(i);
    }
    if forall i: bv6 :: Bit(w, i) {
      SameBitsSameWord(w, ALL_ONES);
    }
  }

  // ---- bit positions as numbers ----------------------------------------------

  lemma IndexRoundTrip(i: nat)
    requires i < 64
    ensures (i as bv6) as int == i
  {
  }

  lemma VectorRoundTrip(v: bv6)
    ensures (v as int) as bv6 == v && v as int < 64
  {
  }

  /** Bit number `i` of `w`. */
  predicate Test(w: bv64, i: nat)
    requires i < 64
  {
    Bit(w, i as bv6)
  }

  /** `w` with bit number `i` set. */
  function WithBit(w: bv64, i: nat): bv64
    requires i < 64
  {
    SetBit(w, i as bv6)
  }

  /** `w` with bit number `i` cleared. */
  function WithoutBit(w: bv64, i: nat): bv64
    requires i < 64
  {
    ClearBit(w, i as bv6)
  }

  lemma TestOfWithBit(w: bv64, i: nat, j: nat)
    requires i < 64 && j < 64
    ensures Test(WithBit(w, i), j) <==> i == j || Test(w, j)
  {
    hide Bit, SetBit;
    IndexRoundTrip(i);
    IndexRoundTrip(j);
    BitOfSet(w, i as bv6, j as bv6);
  }

  lemma TestOfWithoutBit(w: bv64, i: nat, j: nat)
    requires i < 64 && j < 64
    ensures Test(WithoutBit(w, i), j) <==> i != j && Test(w, j)
  {
    hide Bit, ClearBit;
    IndexRoundTrip(i);
    IndexRoundTrip(j);
    BitOfClear(w, i as bv6, j as bv6);
  }

  /** The 64 numbered tests determine the word. */
  lemma SameTestsSameWord(v: bv64, w: bv64)
    requires forall i: nat :: i < 64 ==> (Test(v, i) <==> Test(w, i))
    ensures v == w
  {
    forall b: bv6 ensures Bit(v, b) <==> Bit(w, b) {
      VectorRoundTrip(b);
      assert Test(v, b as int) <==> Test(w, b as int);
    }
    SameBitsSameWord(v, w);
  }

  lemma FullWordTests(w: bv64)
    ensures w == ALL_ONES <==> forall i: nat :: i < 64 ==> Test(w, i)
  {
    FullWord(w);
    if forall i: nat :: i < 64 ==> Test(w, i) {
      forall b: bv6 ensures Bit(w, b) {
        VectorRoundTrip(b);
        assert Test(w, b as int);
      }
    }
  }

  // ---- count trailing zeros ---------------------------------------------------

  lemma SomeTest(w: bv64)
    requires w != 0
    ensures exists i: nat :: i < 64 && Test(w, i)
  {
    SomeBitIsSet(w);
    VectorRoundTrip(SomeBit(w));
    assert Test(w, SomeBit(w) as int);
  }

  /** The count-trailing-zeros instruction: the position of the lowest set bit. */
  function Ctz(w: bv64): (r: nat)
    requires w != 0
    ensures r < 64 && Test(w, r)
    ensures forall j: nat :: j < r ==> !Test(w, j)
  {
    SomeTest(w);
    LowestFrom(w, 0)
  }

  function LowestFrom(w: bv64, i: nat): (r: nat)
    requires exists j: nat :: i <= j < 64 && Test(w, j)
    requires forall j: nat :: j < i ==> !Test(w, j)
    ensures i <= r < 64 && Test(w, r)
    ensures forall j: nat :: j < r ==> !Test(w, j)
    decreases 64 - i
  {
    if Test(w, i) then i else LowestFrom(w, i + 1)
  }

  lemma ComplementNonZero(w: bv64)
    requires w != ALL_ONES
    ensures !w != 0
  {
  }

  /** The lowest clear bit of a word that is not full: ctz of its complement. */
  function LowestClear(w: bv64): (r: nat)
    requires w != ALL_ONES
    ensures r < 64 && !Test(w, r)
    ensures forall j: nat :: j < r ==> Test(w, j)
  {
    ComplementNonZero(w);
    CtzOfComplement(w);
    Ctz(!w)
  }

  lemma CtzOfComplement(w: bv64)
    requires !w != 0
    ensures !Test(w, Ctz(!w))
    ensures forall j: nat :: j < Ctz(!w) ==> Test(w, j)
  {
    var r := Ctz(!w);
    BitOfComplement(w, r as bv6);
    assert Test(!w, r);
    forall j: nat | j < r ensures Test(w, j) {
      BitOfComplement(w, j as bv6);
      assert !Test(!w, j);
    }
  }
}
