/**
 * What a mask pattern says about each bit. Character `idx` of the pattern
 * (counting from the left) governs bit `35 - idx`, so a 36-symbol pattern
 * covers bits 35 down to 0.
 */
module Masks {
  import opened Bits

  /**
   * Every symbol `c` among the first `n` of `p` stands at an index whose
   * bit `35 - idx` exists (a later index would underflow `35 - idx`).
   */
  predicate Fits(p: string, c: char, n: nat)
    requires n <= |p|
  {
    forall idx :: 0 <= idx < n && p[idx] == c ==> idx <= 35
  }

  /**
   * The bit governed by pattern index `idx`, i.e. `35 - idx`. It is computed
   * by counting down in `bv6` rather than by converting `35 - idx` from `int`,
   * because `int`-to-bit-vector conversions are beyond what the verifier
   * handles cheaply; the `ensures` gives the arithmetic meaning.
   */
  function PositionOf(idx: nat): (k: BitIndex)
    requires idx <= 35
    ensures k <= 35 && k as int == 35 - idx
  {
    if idx == 0 then 35 else PositionOf(idx - 1) - 1
  }

  /** Index `idx` governs bit `k`. */
  lemma PositionAt(idx: nat, k: BitIndex)
    requires idx <= 35 && k as int == 35 - idx
    ensures PositionOf(idx) == k
  {
  }

  /** `w` with the bit governed by pattern index `idx` set: `w | 1 << (35 - idx)`. */
  function SetPosition(w: bv64, idx: nat): (r: bv64)
    requires idx <= 35
  {
    With(w, PositionOf(idx))
  }

  /** Among the first `n` symbols of `p`, the one governing bit `k` is `c`. */
  predicate Forces(p: string, n: nat, k: BitIndex, c: char)
    requires n <= |p|
  {
    k <= 35 && (35 - k) as int < n && p[(35 - k) as int] == c
  }

  lemma PositionMatch(idx: nat, k: BitIndex)
    requires idx <= 35
    ensures PositionOf(idx) == k <==> k <= 35 && (35 - k) as int == idx
  {
  }

  /** Setting the bit of index `idx` sets bit `35 - idx` and no other. */
  lemma SetPositionBit(w: bv64, idx: nat, k: BitIndex)
    requires idx <= 35
    ensures HasBit(SetPosition(w, idx), k) <==> HasBit(w, k) || PositionOf(idx) == k
  {
    WithBit(w, PositionOf(idx), k);
  }

  /** The word with a bit set for every symbol `c` among the first `n` of `p`. */
  function SymbolMask(p: string, c: char, n: nat): (mask: bv64)
    requires n <= |p| && Fits(p, c, n)
  {
    if n == 0 then 0
    else if p[n - 1] == c then SetPosition(SymbolMask(p, c, n - 1), n - 1)
    else SymbolMask(p, c, n - 1)
  }

  /** A symbol `c` beyond index 35 makes the whole pattern overflow. */
  lemma MaskOverflow(p: string, c: char, idx: nat)
    requires idx < |p| && p[idx] == c && idx > 35
    ensures !Fits(p, c, |p|)
  {
  }

  /** One more symbol of the pattern that fits: the mask grows by its bit, if it is a `c`. */
  lemma MaskGrow(p: string, c: char, idx: nat)
    requires idx < |p| && Fits(p, c, idx) && (p[idx] == c ==> idx <= 35)
    ensures Fits(p, c, idx + 1)
    ensures p[idx] == c ==> SymbolMask(p, c, idx + 1) == SetPosition(SymbolMask(p, c, idx), idx)
    ensures p[idx] != c ==> SymbolMask(p, c, idx + 1) == SymbolMask(p, c, idx)
  {
  }

  /** Bit `k` of the mask is set exactly where the pattern has `c` for bit `k`. */
  lemma {:induction false} SymbolMaskBits(p: string, c: char, n: nat, k: BitIndex)
    requires n <= |p| && Fits(p, c, n)
    ensures HasBit(SymbolMask(p, c, n), k) <==> Forces(p, n, k, c)
  {
    if n == 0 {
      ZeroBit(k);
    } else {
      SymbolMaskBits(p, c, n - 1, k);
      if p[n - 1] == c {
        SetPositionBit(SymbolMask(p, c, n - 1), n - 1, k);
        PositionMatch(n - 1, k);
      }
    }
  }

  /** The masks of two different symbols share no bit. */
  lemma SymbolMasksDisjoint(p: string, c: char, d: char, n: nat)
    requires n <= |p| && Fits(p, c, n) && Fits(p, d, n) && c != d
    ensures SymbolMask(p, c, n) & SymbolMask(p, d, n) == 0
  {
    var a, b := SymbolMask(p, c, n), SymbolMask(p, d, n);
    forall k: BitIndex ensures !(HasBit(a, k) && HasBit(b, k)) {
      SymbolMaskBits(p, c, n, k);
      SymbolMaskBits(p, d, n, k);
    }
    NoCommonBit(a, b);
  }

  /** Symbols other than `c` leave the mask as it was. */
  lemma {:induction false} SymbolMaskSkip(p: string, c: char, m: nat, n: nat)
    requires m <= n <= |p| && Fits(p, c, n)
    requires forall idx :: m <= idx < n ==> p[idx] != c
    ensures SymbolMask(p, c, n) == SymbolMask(p, c, m)
    decreases n
  {
    if m < n {
      SymbolMaskSkip(p, c, m, n - 1);
    }
  }

  /** The positions of the `X` symbols among the first `n` of `p`, left to right. */
  function Floating(p: string, n: nat): (fl: seq<BitIndex>)
    requires n <= |p| && Fits(p, 'X', n)
  {
    if n == 0 then []
    else if p[n - 1] == 'X' then Floating(p, n - 1) + [PositionOf(n - 1)]
    else Floating(p, n - 1)
  }

  /** One more symbol of the pattern: an `X` appends its bit to the floating list. */
  lemma FloatingStep(p: string, idx: nat)
    requires idx < |p| && Fits(p, 'X', idx + 1)
    ensures Floating(p, idx + 1) == if p[idx] == 'X' then Floating(p, idx) + [PositionOf(idx)] else Floating(p, idx)
  {
  }

  /** Symbols other than `X` leave the floating list as it was. */
  lemma {:induction false} FloatingSkip(p: string, m: nat, n: nat)
    requires m <= n <= |p| && Fits(p, 'X', n)
    requires forall idx :: m <= idx < n ==> p[idx] != 'X'
    ensures Floating(p, n) == Floating(p, m)
    decreases n
  {
    if m < n {
      FloatingSkip(p, m, n - 1);
    }
  }

  /** A pattern has at most 36 floating positions. */
  lemma {:induction false} FloatingBound(p: string, n: nat)
    requires n <= |p| && Fits(p, 'X', n)
    ensures |Floating(p, n)| <= n && |Floating(p, n)| <= 36
  {
    if n > 0 {
      FloatingBound(p, n - 1);
    }
  }

  ghost predicate StrictlyDecreasing(fl: seq<BitIndex>) {
    forall i, j :: 0 <= i < j < |fl| ==> fl[i] > fl[j]
  }

  /** An entry of a position list occurs in it exactly once. */
  ghost predicate Distinct(fl: seq<BitIndex>) {
    forall i, j :: 0 <= i < |fl| && 0 <= j < |fl| && i != j ==> fl[i] != fl[j]
  }

  lemma DecreasingIsDistinct(fl: seq<BitIndex>)
    requires StrictlyDecreasing(fl)
    ensures Distinct(fl)
  {
    forall i, j | 0 <= i < |fl| && 0 <= j < |fl| && i != j ensures fl[i] != fl[j] {
      if i < j { assert fl[i] > fl[j]; } else { assert fl[j] > fl[i]; }
    }
  }

  lemma PositionBelowEarlier(p: string, n: nat, k: BitIndex)
    requires 0 < n <= |p| && n - 1 <= 35 && Forces(p, n - 1, k, 'X')
    ensures k > PositionOf(n - 1)
  {
  }

  lemma {:induction false} FloatingCount(p: string, n: nat)
    requires n <= |p| && Fits(p, 'X', n)
    ensures |Floating(p, n)| == multiset(p[..n])['X']
  {
    if n > 0 {
      FloatingCount(p, n - 1);
      assert p[..n] == p[..n - 1] + [p[n - 1]];
    }
  }

  lemma {:induction false} FloatingSound(p: string, n: nat)
    requires n <= |p| && Fits(p, 'X', n)
    ensures forall j :: 0 <= j < |Floating(p, n)| ==> Forces(p, n, Floating(p, n)[j], 'X')
  {
    if n > 0 {
      FloatingSound(p, n - 1);
      var before, fl := Floating(p, n - 1), Floating(p, n);
      forall j | 0 <= j < |fl| ensures Forces(p, n, fl[j], 'X') {
        if j < |before| {
          assert fl[j] == before[j];
          assert Forces(p, n - 1, before[j], 'X');
        } else {
          PositionMatch(n - 1, fl[j]);
        }
      }
    }
  }

  lemma {:induction false} FloatingComplete(p: string, n: nat)
    requires n <= |p| && Fits(p, 'X', n)
    ensures forall k: BitIndex :: Forces(p, n, k, 'X') ==> k in Floating(p, n)
  {
    if n > 0 {
      FloatingComplete(p, n - 1);
      var before, fl := Floating(p, n - 1), Floating(p, n);
      forall k: BitIndex | Forces(p, n, k, 'X') ensures k in fl {
        if (35 - k) as int < n - 1 {
          assert Forces(p, n - 1, k, 'X');
          assert k in before;
        } else {
          PositionMatch(n - 1, k);
          assert fl[|fl| - 1] == k;
        }
      }
    }
  }

  lemma {:induction false} FloatingDecreasing(p: string, n: nat)
    requires n <= |p| && Fits(p, 'X', n)
    ensures StrictlyDecreasing(Floating(p, n))
  {
    if n > 0 {
      FloatingDecreasing(p, n - 1);
      FloatingSound(p, n - 1);
      var before, fl := Floating(p, n - 1), Floating(p, n);
      if p[n - 1] == 'X' {
        forall i, j | 0 <= i < j < |fl| ensures fl[i] > fl[j] {
          if j < |before| {
            assert fl[i] == before[i] && fl[j] == before[j];
          } else {
            assert Forces(p, n - 1, before[i], 'X');
            PositionBelowEarlier(p, n, before[i]);
          }
        }
      } else {
        assert fl == before;
      }
    }
  }

  /**
   * The floating list holds one entry per `X`, in left-to-right order,
   * each the position the `X` governs, and nothing else.
   */
  lemma FloatingExact(p: string)
    requires Fits(p, 'X', |p|)
    ensures |Floating(p, |p|)| == multiset(p)['X']
    ensures forall j :: 0 <= j < |Floating(p, |p|)| ==> Forces(p, |p|, Floating(p, |p|)[j], 'X')
    ensures forall k: BitIndex :: Forces(p, |p|, k, 'X') ==> k in Floating(p, |p|)
    ensures StrictlyDecreasing(Floating(p, |p|))
  {
    FloatingCount(p, |p|);
    assert p[..|p|] == p;
    FloatingSound(p, |p|);
    FloatingComplete(p, |p|);
    FloatingDecreasing(p, |p|);
  }
}
