/**
 * The addresses one part-two write reaches. Combination `i` of the
 * floating positions `fl` gives position `fl[j]` the value of bit `j` of
 * the counter `i`; the counter runs over `0 .. 2^|fl| - 1`.
 */
module FloatingAddresses {
  import opened Bits
  import opened Masks
  import opened Memory

  /** `2u64.pow(n)`, the number of combinations of `n` floating bits. */
  function Pow2(n: nat): (r: nat)
    ensures r > 0
  {
    if n == 0 then 1 else 2 * Pow2(n - 1)
  }

  /** Bit `j` of the combination counter `i`, Rust's `i & (1 << j) != 0`. */
  predicate CounterBit(i: nat, j: nat) {
    if j == 0 then i % 2 == 1 else CounterBit(i / 2, j - 1)
  }

  /** The floating bits combination `i` sets to 1, among the first `n` positions. */
  function ComboTrue(fl: seq<BitIndex>, i: nat, n: nat): (t: bv64)
    requires n <= |fl|
  {
    if n == 0 then 0
    else if CounterBit(i, n - 1) then With(ComboTrue(fl, i, n - 1), fl[n - 1])
    else ComboTrue(fl, i, n - 1)
  }

  /** The floating bits combination `i` sets to 0, among the first `n` positions. */
  function ComboFalse(fl: seq<BitIndex>, i: nat, n: nat): (f: bv64)
    requires n <= |fl|
  {
    if n == 0 then 0
    else if CounterBit(i, n - 1) then ComboFalse(fl, i, n - 1)
    else With(ComboFalse(fl, i, n - 1), fl[n - 1])
  }

  /** The word with a bit set at each of the first `n` floating positions. */
  function FloatUnion(fl: seq<BitIndex>, n: nat): (u: bv64)
    requires n <= |fl|
  {
    if n == 0 then 0 else With(FloatUnion(fl, n - 1), fl[n - 1])
  }

  /** The address combination `i` turns the base address into: `(base | t) & !f`. */
  function Decoded(base: bv64, fl: seq<BitIndex>, i: nat): (x: Address) {
    Address(Force(base, ComboTrue(fl, i, |fl|), ComboFalse(fl, i, |fl|)))
  }

  /**
   * The combination-to-address map of one write. The set lemmas below are
   * stated for any `f: nat -> T` (`Images`), so that the bit-vector body of
   * `Decoded` stays out of their proofs; this lambda is the one place that
   * connects the two.
   */
  function Decoder(base: bv64, fl: seq<BitIndex>): (d: nat -> Address) {
    (i: nat) => Decoded(base, fl, i)
  }

  /** The values `f(0) .. f(n - 1)`. */
  function Images<T>(f: nat -> T, n: nat): (s: set<T>) {
    if n == 0 then {} else Images(f, n - 1) + {f(n - 1)}
  }

  /** The addresses of combinations `0 .. n - 1`. */
  function AddressSet(base: bv64, fl: seq<BitIndex>, n: nat): (s: set<Address>) {
    Images(Decoder(base, fl), n)
  }


  /** Two different counters below `2^n` differ in one of their low `n` bits. */
  lemma {:induction false} CounterBitsDiffer(i: nat, i': nat, n: nat) returns (j: nat)
    requires i < Pow2(n) && i' < Pow2(n) && i != i'
    ensures j < n && CounterBit(i, j) != CounterBit(i', j)
    decreases n
  {
    assert n > 0;
    if i % 2 != i' % 2 {
      j := 0;
    } else {
      j := CounterBitsDiffer(i / 2, i' / 2, n - 1);
      j := j + 1;
    }
  }

  /** The counter whose low bits are the bits of `w` at the positions `fl`. */
  function CounterOf(w: bv64, fl: seq<BitIndex>): (c: nat)
    decreases |fl|
  {
    if |fl| == 0 then 0 else (if HasBit(w, fl[0]) then 1 else 0) + 2 * CounterOf(w, fl[1..])
  }

  lemma {:induction false} CounterOfBound(w: bv64, fl: seq<BitIndex>)
    ensures CounterOf(w, fl) < Pow2(|fl|)
    decreases |fl|
  {
    if |fl| > 0 {
      CounterOfBound(w, fl[1..]);
    }
  }

  /** Bit `j` of `CounterOf(w, fl)` is the bit of `w` at position `fl[j]`. */
  lemma {:induction false} CounterOfBits(w: bv64, fl: seq<BitIndex>, j: nat)
    requires j < |fl|
    ensures CounterBit(CounterOf(w, fl), j) <==> HasBit(w, fl[j])
    decreases j
  {
    var c := CounterOf(w, fl);
    if j > 0 {
      assert c / 2 == CounterOf(w, fl[1..]);
      CounterOfBits(w, fl[1..], j - 1);
      assert fl[1..][j - 1] == fl[j];
    }
  }

  /** Combination `i` sets floating position `fl[j]` to bit `j` of `i`, in exactly one of its masks. */
  lemma {:induction false} ComboAt(fl: seq<BitIndex>, i: nat, n: nat, j: nat)
    requires j < n <= |fl| && Distinct(fl)
    ensures HasBit(ComboTrue(fl, i, n), fl[j]) <==> CounterBit(i, j)
    ensures HasBit(ComboFalse(fl, i, n), fl[j]) <==> !CounterBit(i, j)
    decreases n
  {
    if j < n - 1 {
      ComboAt(fl, i, n - 1, j);
      assert fl[n - 1] != fl[j];
      WithBit(ComboTrue(fl, i, n - 1), fl[n - 1], fl[j]);
      WithBit(ComboFalse(fl, i, n - 1), fl[n - 1], fl[j]);
    } else {
      ComboOutside(fl, i, n - 1, fl[j]);
      WithBit(ComboTrue(fl, i, n - 1), fl[j], fl[j]);
      WithBit(ComboFalse(fl, i, n - 1), fl[j], fl[j]);
    }
  }

  /** A position that is not floating is in neither mask of any combination. */
  lemma {:induction false} ComboOutside(fl: seq<BitIndex>, i: nat, n: nat, k: BitIndex)
    requires n <= |fl| && forall j :: 0 <= j < n ==> fl[j] != k
    ensures !HasBit(ComboTrue(fl, i, n), k) && !HasBit(ComboFalse(fl, i, n), k)
    decreases n
  {
    if n == 0 {
      ZeroBit(k);
    } else {
      ComboOutside(fl, i, n - 1, k);
      WithBit(ComboTrue(fl, i, n - 1), fl[n - 1], k);
      WithBit(ComboFalse(fl, i, n - 1), fl[n - 1], k);
    }
  }

  /** The two masks of a combination share no bit. */
  lemma ComboDisjoint(fl: seq<BitIndex>, i: nat)
    requires Distinct(fl)
    ensures ComboTrue(fl, i, |fl|) & ComboFalse(fl, i, |fl|) == 0
  {
    var t, f := ComboTrue(fl, i, |fl|), ComboFalse(fl, i, |fl|);
    forall k: BitIndex ensures !(HasBit(t, k) && HasBit(f, k)) {
      if k in fl {
        var j :| 0 <= j < |fl| && fl[j] == k;
        ComboAt(fl, i, |fl|, j);
      } else {
        ComboOutside(fl, i, |fl|, k);
      }
    }
    NoCommonBit(t, f);
  }

  /** A position is in one of the two masks of a combination exactly when it is floating. */
  lemma {:induction false} ComboCoverBit(fl: seq<BitIndex>, i: nat, n: nat, k: BitIndex)
    requires n <= |fl|
    ensures HasBit(ComboTrue(fl, i, n), k) || HasBit(ComboFalse(fl, i, n), k) <==> HasBit(FloatUnion(fl, n), k)
    decreases n
  {
    if n == 0 {
      ZeroBit(k);
    } else {
      ComboCoverBit(fl, i, n - 1, k);
      WithBit(ComboTrue(fl, i, n - 1), fl[n - 1], k);
      WithBit(ComboFalse(fl, i, n - 1), fl[n - 1], k);
      WithBit(FloatUnion(fl, n - 1), fl[n - 1], k);
    }
  }

  /** Together the two masks of a combination are the floating positions. */
  lemma ComboCover(fl: seq<BitIndex>, i: nat)
    ensures ComboTrue(fl, i, |fl|) | ComboFalse(fl, i, |fl|) == FloatUnion(fl, |fl|)
  {
    var t, f := ComboTrue(fl, i, |fl|), ComboFalse(fl, i, |fl|);
    forall k: BitIndex ensures HasBit(t | f, k) == HasBit(FloatUnion(fl, |fl|), k) {
      ComboCoverBit(fl, i, |fl|, k);
      OrBit(t, f, k);
    }
    Ext(t | f, FloatUnion(fl, |fl|));
  }

  /** `FloatUnion` has exactly the floating positions set. */
  lemma {:induction false} FloatUnionBits(fl: seq<BitIndex>, n: nat, k: BitIndex)
    requires n <= |fl|
    ensures HasBit(FloatUnion(fl, n), k) <==> k in fl[..n]
    decreases n
  {
    if n == 0 {
      ZeroBit(k);
    } else {
      FloatUnionBits(fl, n - 1, k);
      WithBit(FloatUnion(fl, n - 1), fl[n - 1], k);
      assert fl[..n] == fl[..n - 1] + [fl[n - 1]];
    }
  }

  /** Floating position `fl[j]` of the address of combination `i` is bit `j` of `i`. */
  lemma DecodedFloating(base: bv64, fl: seq<BitIndex>, i: nat, j: nat)
    requires j < |fl| && Distinct(fl)
    ensures HasBit(Decoded(base, fl, i).bits, fl[j]) <==> CounterBit(i, j)
  {
    ComboAt(fl, i, |fl|, j);
    ForceBit(base, ComboTrue(fl, i, |fl|), ComboFalse(fl, i, |fl|), fl[j]);
  }

  /** Every other position of the address is the base address's. */
  lemma DecodedFixed(base: bv64, fl: seq<BitIndex>, i: nat, k: BitIndex)
    requires k !in fl
    ensures HasBit(Decoded(base, fl, i).bits, k) <==> HasBit(base, k)
  {
    ComboOutside(fl, i, |fl|, k);
    ForceBit(base, ComboTrue(fl, i, |fl|), ComboFalse(fl, i, |fl|), k);
  }

  /** Different combinations give different addresses. */
  lemma AddressesDistinct(base: bv64, fl: seq<BitIndex>, i: nat, i': nat)
    requires Distinct(fl) && i < Pow2(|fl|) && i' < Pow2(|fl|) && i != i'
    ensures Decoded(base, fl, i) != Decoded(base, fl, i')
  {
    var j := CounterBitsDiffer(i, i', |fl|);
    DecodedFloating(base, fl, i, j);
    DecodedFloating(base, fl, i', j);
  }

  lemma {:induction false} ImagesHas<T>(f: nat -> T, n: nat, i: nat)
    requires i < n
    ensures f(i) in Images(f, n)
    decreases n
  {
    if i < n - 1 {
      ImagesHas(f, n - 1, i);
    }
  }

  lemma {:induction false} ImagesOnly<T>(f: nat -> T, n: nat, x: T) returns (i: nat)
    requires x in Images(f, n)
    ensures i < n && f(i) == x
    decreases n
  {
    if x == f(n - 1) {
      i := n - 1;
    } else {
      i := ImagesOnly(f, n - 1, x);
    }
  }

  /** A map that is one-to-one on `0 .. n - 1` has `n` values there. */
  lemma {:induction false} ImagesCount<T>(f: nat -> T, n: nat)
    requires forall i, j :: 0 <= i < j < n ==> f(i) != f(j)
    ensures |Images(f, n)| == n
    decreases n
  {
    if n > 0 {
      ImagesCount(f, n - 1);
      if f(n - 1) in Images(f, n - 1) {
        var i := ImagesOnly(f, n - 1, f(n - 1));
        assert false;
      }
    }
  }

  /** The first `n` combinations give `n` addresses. */
  lemma AddressCount(base: bv64, fl: seq<BitIndex>, n: nat)
    requires Distinct(fl) && n <= Pow2(|fl|)
    ensures |AddressSet(base, fl, n)| == n
  {
    var f := Decoder(base, fl);
    forall i, j | 0 <= i < j < n ensures f(i) != f(j) {
      AddressesDistinct(base, fl, i, j);
    }
    ImagesCount(f, n);
  }

  /** `w` has the bits of `base` at every position that is not floating. */
  ghost predicate Agrees(w: bv64, base: bv64, fl: seq<BitIndex>) {
    forall k: BitIndex :: k !in fl ==> (HasBit(w, k) <==> HasBit(base, k))
  }

  /** Every combination keeps the base address's bits outside the floating positions. */
  lemma DecodedAgrees(base: bv64, fl: seq<BitIndex>, i: nat)
    ensures Agrees(Decoded(base, fl, i).bits, base, fl)
  {
    forall k: BitIndex | k !in fl ensures HasBit(Decoded(base, fl, i).bits, k) <==> HasBit(base, k) {
      DecodedFixed(base, fl, i, k);
    }
  }

  /** A word that agrees with the base address is the address of the combination its own bits spell. */
  lemma DecodedOfCounter(base: bv64, fl: seq<BitIndex>, w: bv64)
    requires Distinct(fl) && Agrees(w, base, fl)
    ensures CounterOf(w, fl) < Pow2(|fl|)
    ensures Decoded(base, fl, CounterOf(w, fl)) == Address(w)
  {
    var i := CounterOf(w, fl);
    CounterOfBound(w, fl);
    var y := Decoded(base, fl, i).bits;
    forall k: BitIndex ensures HasBit(y, k) == HasBit(w, k) {
      if k in fl {
        var j :| 0 <= j < |fl| && fl[j] == k;
        DecodedFloating(base, fl, i, j);
        CounterOfBits(w, fl, j);
      } else {
        DecodedFixed(base, fl, i, k);
      }
    }
    Ext(y, w);
  }

  /**
   * The addresses of all `2^|fl|` combinations are exactly the words that
   * agree with the base address outside the floating positions, and there
   * are `2^|fl|` of them.
   */
  lemma AddressSetExact(base: bv64, fl: seq<BitIndex>, x: Address)
    requires Distinct(fl)
    ensures |AddressSet(base, fl, Pow2(|fl|))| == Pow2(|fl|)
    ensures x in AddressSet(base, fl, Pow2(|fl|)) <==> Agrees(x.bits, base, fl)
  {
    var n, f := Pow2(|fl|), Decoder(base, fl);
    AddressCount(base, fl, n);
    if x in Images(f, n) {
      var i := ImagesOnly(f, n, x);
      DecodedAgrees(base, fl, i);
    }
    if Agrees(x.bits, base, fl) {
      DecodedOfCounter(base, fl, x.bits);
      ImagesHas(f, n, CounterOf(x.bits, fl));
    }
  }

  /** Without floating positions the write reaches the base address alone. */
  lemma NoFloating(base: bv64)
    ensures AddressSet(base, [], Pow2(0)) == {Address(base)}
  {
    assert Force(base, 0, 0) == base;
  }
}
