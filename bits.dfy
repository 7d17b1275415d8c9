/** Bit-level vocabulary for the 64-bit words (Rust `u64`) the decoder works on. */
module Bits {

  /** A bit position 0..63 of a 64-bit word. */
  type BitIndex = bv6

  /** The word with only bit `k` set, Rust's `1u64 << k`. */
  function Bit(k: BitIndex): (w: bv64) {
    1 << k
  }

  predicate HasBit(w: bv64, k: BitIndex) {
    w & Bit(k) != 0
  }

  /** `w` with bit `k` set as well, Rust's `w | 1 << k`. */
  function With(w: bv64, k: BitIndex): (r: bv64) {
    w | Bit(k)
  }

  /** `x` with the bits of `t` forced on and then those of `f` forced off: `(x | t) & !f`. */
  function Force(x: bv64, t: bv64, f: bv64): (r: bv64) {
    (x | t) & !f
  }

  /** The word with exactly the bits below `n` set. */
  function Below(n: BitIndex): (w: bv64) {
    Bit(n) - 1
  }

  lemma BitOf(m: BitIndex, k: BitIndex)
    ensures HasBit(Bit(m), k) <==> m == k
  {
  }

  lemma ZeroBit(k: BitIndex)
    ensures !HasBit(0, k)
  {
  }

  lemma OrNonZero(x: bv64, y: bv64)
    ensures x | y != 0 <==> x != 0 || y != 0
  {
  }

  lemma AndOverOr(a: bv64, b: bv64, m: bv64)
    ensures (a | b) & m == (a & m) | (b & m)
  {
  }

  lemma OrBit(a: bv64, b: bv64, k: BitIndex)
    ensures HasBit(a | b, k) <==> HasBit(a, k) || HasBit(b, k)
  {
    AndOverOr(a, b, Bit(k));
    OrNonZero(a & Bit(k), b & Bit(k));
  }

  lemma WithBit(w: bv64, m: BitIndex, k: BitIndex)
    ensures HasBit(With(w, m), k) <==> HasBit(w, k) || m == k
  {
    OrBit(w, Bit(m), k);
    BitOf(m, k);
  }

  lemma AndBit(a: bv64, b: bv64, k: BitIndex)
    ensures HasBit(a & b, k) <==> HasBit(a, k) && HasBit(b, k)
  {
  }

  lemma NotBit(a: bv64, k: BitIndex)
    ensures HasBit(!a, k) <==> !HasBit(a, k)
  {
  }

  lemma XorBit(a: bv64, b: bv64, k: BitIndex)
    ensures HasBit(a ^ b, k) <==> HasBit(a, k) != HasBit(b, k)
  {
  }

  lemma ForceBit(x: bv64, t: bv64, f: bv64, k: BitIndex)
    ensures HasBit(Force(x, t, f), k) <==> (HasBit(x, k) || HasBit(t, k)) && !HasBit(f, k)
  {
    AndBit(x | t, !f, k);
    OrBit(x, t, k);
    NotBit(f, k);
  }

  lemma BelowGrow(n: BitIndex)
    requires n < 63
    ensures Below(n) | Bit(n) == Below(n + 1)
  {
  }

  lemma ClearStep(d: bv64, n: BitIndex)
    requires n < 63
    requires d & Below(n) == 0 && !HasBit(d, n)
    ensures d & Below(n + 1) == 0
  {
    BelowGrow(n);
  }

  lemma TopBit(d: bv64)
    requires d != 0 && d & Below(63) == 0
    ensures HasBit(d, 63)
  {
  }

  /** The lowest set bit of `d` at or above `n` (63 when there is none). */
  function LowestFrom(d: bv64, n: BitIndex): (k: BitIndex)
    decreases 63 - n
  {
    if n == 63 || HasBit(d, n) then n else LowestFrom(d, n + 1)
  }

  lemma {:induction false} LowestFromIsSet(d: bv64, n: BitIndex)
    requires d != 0 && d & Below(n) == 0
    ensures HasBit(d, LowestFrom(d, n))
    decreases 63 - n
  {
    if n == 63 {
      TopBit(d);
    } else if !HasBit(d, n) {
      ClearStep(d, n);
      LowestFromIsSet(d, n + 1);
    }
  }

  /** Two different words differ at some bit position. */
  lemma DifferingBit(a: bv64, b: bv64) returns (k: BitIndex)
    requires a != b
    ensures HasBit(a, k) != HasBit(b, k)
  {
    k := LowestFrom(a ^ b, 0);
    LowestFromIsSet(a ^ b, 0);
    XorBit(a, b, k);
  }

  /** A word is determined by its bits. */
  lemma Ext(a: bv64, b: bv64)
    requires forall k: BitIndex :: HasBit(a, k) == HasBit(b, k)
    ensures a == b
  {
    if a != b {
      var k := DifferingBit(a, b);
    }
  }

  lemma NoCommonBit(a: bv64, b: bv64)
    requires forall k: BitIndex :: !(HasBit(a, k) && HasBit(b, k))
    ensures a & b == 0
  {
    var both := a & b;
    forall k: BitIndex ensures !HasBit(both, k) {
      AndBit(a, b, k);
    }
    NoBits(both);
  }

  lemma NoBits(a: bv64)
    requires forall k: BitIndex :: !HasBit(a, k)
    ensures a == 0
  {
    forall k: BitIndex ensures HasBit(a, k) == HasBit(0, k) {
      ZeroBit(k);
    }
    Ext(a, 0);
  }
}
