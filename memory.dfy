/**
 * The decoder's memory, a map from address to value (Rust's
 * `HashMap<u64, u64>`), and the sum of its values.
 */
module Memory {
  import opened Instructions

  /** A memory address, the 64-bit word it is written as. */
  datatype Address = Address(bits: bv64)

  type Store = map<Address, nat>

  /** A u64 as the 64-bit word it is. */
  function Word(n: U64): (w: bv64) {
    n as bv64
  }

  /** The number a 64-bit word denotes, as a memory value. */
  function Number(w: bv64): (v: nat) {
    w as nat
  }

  /** The address a u64 names. */
  function At(a: U64): (x: Address) {
    Address(Word(a))
  }

  /** A non-empty store has a key. */
  lemma HasKey(m: Store)
    requires |m| > 0
    ensures exists k :: k in m
  {
    if forall k :: k !in m { assert false; }
  }

  /** Some key of a non-empty store; which one does not matter to the sum. */
  ghost function Pick(m: Store): (k: Address)
    requires |m| > 0
    ensures k in m
  {
    HasKey(m);
    var k :| k in m; k
  }

  /** The sum of all values in the store, as an unbounded number. */
  ghost function SumValues(m: Store): (total: nat)
    decreases |m|
  {
    if |m| == 0 then 0
    else
      var k := Pick(m);
      m[k] + SumValues(m - {k})
  }

  /** The sum does not depend on the order in which the keys are visited. */
  lemma {:induction false} SumRemove(m: Store, k: Address)
    requires k in m
    ensures SumValues(m) == m[k] + SumValues(m - {k})
    decreases |m|
  {
    var first := Pick(m);
    assert SumValues(m) == m[first] + SumValues(m - {first});
    if first != k {
      var rest := m - {first};
      assert k in rest && rest[k] == m[k];
      assert first in m - {k} && (m - {k})[first] == m[first];
      SumRemove(rest, k);
      SumRemove(m - {k}, first);
      assert rest - {k} == (m - {k}) - {first};
    }
  }

  lemma RemoveFromUnion(a: Store, b: Store, k: Address)
    requires a.Keys !! b.Keys && k in b
    ensures (a + b) - {k} == a + (b - {k})
    ensures k in a + b && (a + b)[k] == b[k]
  {
  }

  /** Summing two stores with disjoint keys adds their sums. */
  lemma {:induction false} SumDisjoint(a: Store, b: Store)
    requires a.Keys !! b.Keys
    ensures SumValues(a + b) == SumValues(a) + SumValues(b)
    decreases |b|
  {
    if |b| > 0 {
      var k := Pick(b);
      RemoveFromUnion(a, b, k);
      SumRemove(a + b, k);
      SumRemove(b, k);
      SumDisjoint(a, b - {k});
    } else {
      assert a + b == a;
    }
  }

  /** The store that holds `v` at every address of `s`. */
  function Uniform(s: set<Address>, v: nat): (m: Store)
    ensures m.Keys == s
  {
    map x | x in s :: v
  }

  lemma UniformRemove(s: set<Address>, v: nat, k: Address)
    ensures Uniform(s, v) - {k} == Uniform(s - {k}, v)
  {
    var a, b := Uniform(s, v) - {k}, Uniform(s - {k}, v);
    assert a.Keys == b.Keys;
    assert forall x :: x in a ==> a[x] == v;
  }

  lemma {:induction false} SumUniform(s: set<Address>, v: nat)
    ensures SumValues(Uniform(s, v)) == |s| * v
    decreases |s|
  {
    if s != {} {
      var m := Uniform(s, v);
      var k := Pick(m);
      SumRemove(m, k);
      UniformRemove(s, v, k);
      SumUniform(s - {k}, v);
      assert |s| == |s - {k}| + 1;
      MulSucc(|s - {k}|, v);
    }
  }

  lemma MulSucc(n: nat, w: nat)
    ensures (n + 1) * w == n * w + w
  {
  }

  /** Writing `v` at every address of `s` replaces what those addresses held. */
  lemma SumOverwrite(m: Store, s: set<Address>, v: nat)
    ensures SumValues(m + Uniform(s, v)) == SumValues(m - s) + |s| * v
  {
    assert m + Uniform(s, v) == (m - s) + Uniform(s, v);
    SumDisjoint(m - s, Uniform(s, v));
    SumUniform(s, v);
  }

  /** Writing twice to one address leaves only the second value. */
  lemma Overwrite(m: Store, k: Address, x: nat, y: nat)
    ensures m[k := x][k := y] == m[k := y]
  {
  }

  /** Writing `v` at one more address is one more single write. */
  lemma UniformAdd(m: Store, s: set<Address>, x: Address, v: nat)
    ensures m + Uniform(s + {x}, v) == (m + Uniform(s, v))[x := v]
  {
  }

  /**
   * Rust's `memory.values().sum()` for `u64`: the total, or an abort when
   * it does not fit. The partial sums only grow, so whether some addition
   * overflows does not depend on the order the values are visited in.
   */
  ghost function Answer(m: Store): (r: Result<U64>) {
    var total := SumValues(m);
    if total < U64_LIMIT then Ok(total) else Err(SumOverflow)
  }

  /** The values at `keys`, added up in the order they are listed. */
  function KeysSum(m: Store, keys: seq<Address>): (total: nat)
    requires forall i :: 0 <= i < |keys| ==> keys[i] in m
    decreases |keys|
  {
    if |keys| == 0 then 0 else m[keys[0]] + KeysSum(m, keys[1..])
  }

  /**
   * Rust's `Iterator::sum` for `u64` over the values at `keys`, in that
   * order, from the running total `total`: each `+` aborts when its result
   * does not fit in a `u64`.
   */
  function CheckedSum(m: Store, keys: seq<Address>, total: U64): (r: Result<U64>)
    requires forall i :: 0 <= i < |keys| ==> keys[i] in m
    decreases |keys|
  {
    if |keys| == 0 then Ok(total)
    else if total + m[keys[0]] >= U64_LIMIT then Err(SumOverflow)
    else CheckedSum(m, keys[1..], total + m[keys[0]])
  }

  /** The checked sum aborts exactly when the plain sum does not fit; the running totals only grow. */
  lemma {:induction false} CheckedSumValue(m: Store, keys: seq<Address>, total: U64)
    requires forall i :: 0 <= i < |keys| ==> keys[i] in m
    ensures CheckedSum(m, keys, total) ==
      if total + KeysSum(m, keys) < U64_LIMIT then Ok(total + KeysSum(m, keys)) else Err(SumOverflow)
    decreases |keys|
  {
    if |keys| > 0 {
      var x := m[keys[0]];
      if total + x < U64_LIMIT {
        CheckedSumValue(m, keys[1..], total + x);
      }
    }
  }

  /** `keys` lists every key of `m` exactly once, in some order. */
  ghost predicate ListsKeys(m: Store, keys: seq<Address>) {
    (forall i, j :: 0 <= i < j < |keys| ==> keys[i] != keys[j]) &&
    (forall k :: k in m <==> k in keys)
  }

  /** The sum over listed keys reads only the values at those keys. */
  lemma {:induction false} KeysSumAgree(m: Store, m': Store, keys: seq<Address>)
    requires forall i :: 0 <= i < |keys| ==> keys[i] in m && keys[i] in m' && m[keys[i]] == m'[keys[i]]
    ensures KeysSum(m, keys) == KeysSum(m', keys)
    decreases |keys|
  {
    if |keys| > 0 {
      KeysSumAgree(m, m', keys[1..]);
    }
  }

  /** Without its first key, the store is listed by the rest of the listing. */
  lemma ListsTail(m: Store, keys: seq<Address>)
    requires ListsKeys(m, keys) && |keys| > 0
    ensures ListsKeys(m - {keys[0]}, keys[1..])
  {
    var k, rest := keys[0], keys[1..];
    forall x ensures x in m - {k} <==> x in rest {
      if x in rest {
        var j :| 0 <= j < |rest| && rest[j] == x;
        assert keys[j + 1] == x;
      }
      if x in keys && x != k {
        var j :| 0 <= j < |keys| && keys[j] == x;
        assert rest[j - 1] == x;
      }
    }
  }

  /** Adding up the values in the order of any listing of the keys gives the sum of the store. */
  lemma {:induction false} KeysSumIsSum(m: Store, keys: seq<Address>)
    requires ListsKeys(m, keys)
    ensures forall i :: 0 <= i < |keys| ==> keys[i] in m
    ensures KeysSum(m, keys) == SumValues(m)
    decreases |keys|
  {
    if |keys| == 0 {
      assert m.Keys == {};
    } else {
      var k, rest := keys[0], keys[1..];
      ListsTail(m, keys);
      KeysSumIsSum(m - {k}, rest);
      KeysSumAgree(m, m - {k}, rest);
      SumRemove(m, k);
    }
  }

  /**
   * Summing the values with a checked `+` in the order of ANY listing of
   * the keys gives `Answer`: the order a `HashMap` visits its values in
   * changes neither the total nor whether the sum overflows.
   */
  lemma FoldAnswer(m: Store, keys: seq<Address>)
    requires ListsKeys(m, keys)
    ensures forall i :: 0 <= i < |keys| ==> keys[i] in m
    ensures CheckedSum(m, keys, 0) == Answer(m)
  {
    KeysSumIsSum(m, keys);
    CheckedSumValue(m, keys, 0);
  }

  /** Taking one key out of what is left to sum moves its value into the total. */
  lemma SumStep(m: Store, rest: Store, total: nat, k: Address)
    requires k in rest && total + SumValues(rest) == SumValues(m)
    ensures total + rest[k] + SumValues(rest - {k}) == SumValues(m)
    ensures total + rest[k] <= SumValues(m)
    ensures |rest - {k}| < |rest|
  {
    SumRemove(rest, k);
  }

  /** The summation loop, with the overflow check of each `u64` addition. */
  method Sum(m: Store) returns (r: Result<U64>)
    ensures r == Answer(m)
  {
    var total: U64 := 0;
    var rest := m;
    while |rest| > 0
      invariant total + SumValues(rest) == SumValues(m)
      invariant total < U64_LIMIT
      decreases |rest|
    {
      HasKey(rest);
      var k :| k in rest;
      var x := rest[k];
      SumStep(m, rest, total, k);
      if total + x >= U64_LIMIT {
        assert SumValues(m) >= U64_LIMIT;
        return Err(SumOverflow);
      }
      total := total + x;
      rest := rest - {k};
    }
    assert total == SumValues(m);
    r := Ok(total);
  }
}
