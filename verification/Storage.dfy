/** Physical memory as bytes, with little-endian loads and stores. */
module Storage {
  import opened Words

  function Get16(m: seq<byte>, a: nat): u16
    requires a + 2 <= |m|
  {
    m[a] as int + 0x100 * (m[a + 1] as int)
  }

  function Bytes16(v: u16): (b: seq<byte>)
    ensures |b| == 2 && Get16(b, 0) == v
  {
    [v % 0x100, v / 0x100]
  }

  function Get32(m: seq<byte>, a: nat): u32
    requires a + 4 <= |m|
  {
    m[a] as int + 0x100 * (m[a + 1] as int) + 0x1_0000 * (m[a + 2] as int) + 0x100_0000 * (m[a + 3] as int)
  }

  function Get64(m: seq<byte>, a: nat): u64
    requires a + 8 <= |m|
  {
    Get32(m, a) + 0x1_0000_0000 * Get32(m, a + 4)
  }

  function Bytes32(v: u32): (b: seq<byte>)
    ensures |b| == 4 && Get32(b, 0) == v
  {
    [v % 0x100, v / 0x100 % 0x100, v / 0x1_0000 % 0x100, v / 0x100_0000]
  }

  function Bytes64(v: u64): (b: seq<byte>)
    ensures |b| == 8 && Get64(b, 0) == v
  {
    var lo, hi := Bytes32(v % 0x1_0000_0000), Bytes32(v / 0x1_0000_0000);
    assert Get32(lo + hi, 0) == Get32(lo, 0) && Get32(lo + hi, 4) == Get32(hi, 0);
    lo + hi
  }

  /** `m` with `data` written at address `a`. */
  function Splice(m: seq<byte>, a: nat, data: seq<byte>): (r: seq<byte>)
    requires a + |data| <= |m|
    ensures |r| == |m|
    ensures forall i :: 0 <= i < |data| ==> r[a + i] == data[i]
    ensures forall i :: 0 <= i < |m| && !(a <= i < a + |data|) ==> r[i] == m[i]
    ensures r[a..a + |data|] == data
  {
    m[..a] + data + m[a + |data|..]
  }

  /** The two memories agree on addresses [lo, hi). */
  ghost predicate AgreeOn(m: seq<byte>, n: seq<byte>, lo: nat, hi: nat) {
    |m| == |n| && forall i :: lo <= i < hi && i < |m| ==> m[i] == n[i]
  }

  /** The two memories agree everywhere except on [lo, hi). */
  ghost predicate AgreeOutside(m: seq<byte>, n: seq<byte>, lo: nat, hi: nat) {
    |m| == |n| && forall i :: 0 <= i < |m| && !(lo <= i < hi) ==> m[i] == n[i]
  }

  /** Two adjacent writes are one. */
  lemma SpliceAdjacent(m: seq<byte>, a: nat, x: seq<byte>, y: seq<byte>)
    requires a + |x| + |y| <= |m|
    ensures Splice(Splice(m, a, x), a + |x|, y) == Splice(m, a, x + y)
  {
    var l, r := Splice(Splice(m, a, x), a + |x|, y), Splice(m, a, x + y);
    forall i | 0 <= i < |m| ensures l[i] == r[i] {
      if a <= i < a + |x| {
        assert Splice(m, a, x)[a + (i - a)] == x[i - a];
        assert r[a + (i - a)] == (x + y)[i - a];
      } else if a + |x| <= i < a + |x| + |y| {
        assert l[a + |x| + (i - a - |x|)] == y[i - a - |x|];
        assert r[a + (i - a)] == (x + y)[i - a];
      }
    }
  }

  /** A part of a part. */
  lemma SliceOfSlice(m: seq<byte>, at: nat, b: seq<byte>, lo: nat, hi: nat)
    requires at + |b| <= |m| && m[at..at + |b|] == b && lo <= hi <= |b|
    ensures m[at + lo..at + hi] == b[lo..hi]
  {
    forall k | lo <= k < hi ensures m[at + k] == b[k] {
      assert m[at..at + |b|][k] == m[at + k];
    }
  }

  /** Reading back what was stored. */
  lemma Get64OfSplice(m: seq<byte>, a: nat, v: u64)
    requires a + 8 <= |m|
    ensures Get64(Splice(m, a, Bytes64(v)), a) == v
  {
    var b, r := Bytes64(v), Splice(m, a, Bytes64(v));
    assert forall i :: 0 <= i < 8 ==> r[a + i] == b[i];
    assert Get32(r, a) == Get32(b, 0) && Get32(r, a + 4) == Get32(b, 4);
  }

  lemma Get64Agrees(m: seq<byte>, n: seq<byte>, a: nat)
    requires a + 8 <= |m| && AgreeOn(m, n, a, a + 8)
    ensures Get64(m, a) == Get64(n, a)
  {
  }

  lemma Get16At(m: seq<byte>, a: nat, v: u16)
    requires a + 2 <= |m| && m[a..a + 2] == Bytes16(v)
    ensures Get16(m, a) == v
  {
    var b := Bytes16(v);
    assert m[a] == b[0] && m[a + 1] == b[1];
  }

  lemma Get32At(m: seq<byte>, a: nat, v: u32)
    requires a + 4 <= |m| && m[a..a + 4] == Bytes32(v)
    ensures Get32(m, a) == v
  {
    var b := Bytes32(v);
    assert m[a] == b[0] && m[a + 1] == b[1] && m[a + 2] == b[2] && m[a + 3] == b[3];
  }

  lemma Get64At(m: seq<byte>, a: nat, v: u64)
    requires a + 8 <= |m| && m[a..a + 8] == Bytes64(v)
    ensures Get64(m, a) == v
  {
    var b := Bytes64(v);
    hide Bytes64;
    forall k | 0 <= k < 8 ensures m[a + k] == b[k] {
      assert m[a..a + 8][k] == m[a + k];
    }
    assert Get32(m, a) == Get32(b, 0) && Get32(m, a + 4) == Get32(b, 4);
  }

  // ---- an array of 64-bit words inside memory ---------------------------------

  /** A 64-bit value seen as a bit vector, and back. */
  function ToWord(v: u64): bv64 {
    v as bv64
  }

  function FromWord(w: bv64): u64 {
    FromWordInRange(w);
    w as int
  }

  lemma FromWordInRange(w: bv64)
    ensures 0 <= w as int < 0x1_0000_0000_0000_0000
  {
  }

  lemma WordRoundTrip(w: bv64)
    ensures ToWord(FromWord(w)) == w
  {
  }

  /** Word number `i` of the array that starts at `base`. */
  function WordAt(m: seq<byte>, base: nat, i: nat): bv64
    requires base + 8 * i + 8 <= |m|
  {
    ToWord(Get64(m, base + 8 * i))
  }

  /** The `n` words stored from address `base` on. */
  function WordsAt(m: seq<byte>, base: nat, n: nat): (words: seq<bv64>)
    requires base + 8 * n <= |m|
    ensures |words| == n
  {
    seq(n, i requires 0 <= i < n => WordAt(m, base, i))
  }

  function PutWord(m: seq<byte>, base: nat, w: nat, v: bv64): seq<byte>
    requires base + 8 * w + 8 <= |m|
  {
    Splice(m, base + 8 * w, Bytes64(FromWord(v)))
  }

  lemma WordAfterPut(m: seq<byte>, base: nat, w: nat, v: bv64, i: nat)
    requires base + 8 * w + 8 <= |m| && base + 8 * i + 8 <= |m|
    ensures WordAt(PutWord(m, base, w, v), base, i) == if i == w then v else WordAt(m, base, i)
  {
    hide ToWord, FromWord;
    if i == w {
      WordRoundTrip(v);
      Get64OfSplice(m, base + 8 * w, FromWord(v));
    } else {
      Get64Agrees(m, PutWord(m, base, w, v), base + 8 * i);
    }
  }

  /** Storing one word through memory updates that word and no other. */
  lemma WordsAfterPut(m: seq<byte>, base: nat, n: nat, w: nat, v: bv64)
    requires base + 8 * n <= |m| && w < n
    ensures |PutWord(m, base, w, v)| == |m|
    ensures WordsAt(PutWord(m, base, w, v), base, n) == WordsAt(m, base, n)[w := v]
    ensures AgreeOutside(m, PutWord(m, base, w, v), base, base + 8 * n)
  {
    hide ToWord, FromWord, WordAt;
    forall i: nat | i < n
      ensures WordAt(PutWord(m, base, w, v), base, i) == if i == w then v else WordAt(m, base, i)
    {
      WordAfterPut(m, base, w, v, i);
    }
  }

  lemma WordsAgree(m: seq<byte>, r: seq<byte>, base: nat, n: nat)
    requires base + 8 * n <= |m| && AgreeOn(m, r, base, base + 8 * n)
    ensures WordsAt(m, base, n) == WordsAt(r, base, n)
  {
    hide ToWord;
    forall i: nat | i < n
      ensures WordAt(m, base, i) == WordAt(r, base, i)
    {
      Get64Agrees(m, r, base + 8 * i);
    }
    hide WordAt;
  }

  /** The machine's physical memory: one shared store for firmware, loader, kernel and clients. */
  class Ram {
    var cells: seq<byte>

    constructor (contents: seq<byte>)
      ensures cells == contents
    {
      cells := contents;
    }

    method Load32(a: nat) returns (v: u32)
      requires a + 4 <= |cells|
      ensures v == Get32(cells, a)
    {
      v := Get32(cells, a);
    }

    method Load64(a: nat) returns (v: u64)
      requires a + 8 <= |cells|
      ensures v == Get64(cells, a)
    {
      v := Get64(cells, a);
    }

    method Write(a: nat, data: seq<byte>)
      requires a + |data| <= |cells|
      modifies this
      ensures cells == Splice(old(cells), a, data)
    {
      cells := Splice(cells, a, data);
    }
  }
}
