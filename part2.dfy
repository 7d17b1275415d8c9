/**
 * Part two of the decoder: the mask rewrites the ADDRESS. `1` forces the
 * address bit to 1, `0` leaves it alone, and `X` floats: the value is
 * written at every address obtained by giving the floating bits all
 * combinations of values.
 */
module AddressDecoder {
  import opened Bits
  import opened Instructions
  import opened Masks
  import opened Memory
  import opened FloatingAddresses

  /** The decoder between two lines: the mask's forced bits, its floating positions, the memory. */
  datatype State = State(trueMask: bv64, floating: seq<BitIndex>, memory: Store)

  /** Before any line: no mask bits, no floating positions, empty memory. */
  const Initial: State := State(0, [], map[])

  /** The address of a memory line with the `1` bits of the mask forced on, `address | true_mask`. */
  function Base(a: U64, trueMask: bv64): (w: bv64) {
    Word(a) | trueMask
  }

  lemma BaseBit(a: U64, trueMask: bv64, k: BitIndex)
    ensures HasBit(Base(a, trueMask), k) <==> HasBit(Word(a), k) || HasBit(trueMask, k)
  {
    OrBit(Word(a), trueMask, k);
  }

  /** The addresses a write at `a` reaches: every combination of the floating bits. */
  function Targets(s: State, a: U64): (targets: set<Address>) {
    AddressSet(Base(a, s.trueMask), s.floating, Pow2(|s.floating|))
  }

  /** The state a mask line sets, or the overflow abort of `35 - idx`. */
  function MaskState(p: string, memory: Store, line: string): (r: Result<State>) {
    if Fits(p, '1', |p|) && Fits(p, 'X', |p|) then
      Ok(State(SymbolMask(p, '1', |p|), Floating(p, |p|), memory))
    else
      Err(PositionOverflow(line))
  }

  /** The effect of one line. */
  function Step(s: State, line: string): (r: Result<State>) {
    match Parse(line)
    case Err(e) => Err(e)
    case Ok(Mask(p)) => MaskState(p, s.memory, line)
    case Ok(Mem(a, v)) => Ok(s.(memory := s.memory + Uniform(Targets(s, a), v)))
  }

  /**
   * The effect of the lines in order, stopping at the first abort. This and
   * the run lemmas below have the same shape in both decoders, as the two
   * solver functions of the program repeat the same line loop; each decoder
   * keeps its own copy over its own state.
   */
  function Run(lines: seq<string>): (r: Result<State>)
    decreases |lines|
  {
    if |lines| == 0 then Ok(Initial)
    else
      match Run(lines[..|lines| - 1])
      case Err(e) => Err(e)
      case Ok(s) => Step(s, lines[|lines| - 1])
  }

  /** What part two answers for the lines: the sum of the final memory. */
  ghost function Part2(lines: seq<string>): (r: Result<U64>) {
    match Run(lines)
    case Err(e) => Err(e)
    case Ok(s) => Answer(s.memory)
  }

  /**
   * The loop over the pattern that rebuilds `true_mask` and the floating
   * list from scratch; `ok` is false when a `1` or `X` stands beyond index
   * 35, where `35 - idx` underflows.
   */
  method DecodeMask(p: string) returns (ok: bool, trueMask: bv64, floating: seq<BitIndex>)
    ensures ok <==> Fits(p, '1', |p|) && Fits(p, 'X', |p|)
    ensures ok ==> trueMask == SymbolMask(p, '1', |p|) && floating == Floating(p, |p|)
  {
    trueMask, floating := 0, [];
    var idx := 0;
    while idx < |p|
      invariant 0 <= idx <= |p|
      invariant Fits(p, '1', idx) && Fits(p, 'X', idx)
      invariant trueMask == SymbolMask(p, '1', idx) && floating == Floating(p, idx)
    {
      if p[idx] == '1' {
        if idx > 35 {
          MaskOverflow(p, '1', idx);
          return false, trueMask, floating;
        }
        trueMask := SetPosition(trueMask, idx);
      } else if p[idx] == 'X' {
        if idx > 35 {
          MaskOverflow(p, 'X', idx);
          return false, trueMask, floating;
        }
        floating := floating + [PositionOf(idx)];
      }
      MaskGrow(p, '1', idx);
      MaskGrow(p, 'X', idx);
      FloatingStep(p, idx);
      idx := idx + 1;
    }
    ok := true;
  }

  /** The `(true_mask, false_mask)` pair of every combination, in counter order. */
  method Combinations(floating: seq<BitIndex>) returns (masks: seq<(bv64, bv64)>)
    ensures |masks| == Pow2(|floating|)
    ensures forall i :: 0 <= i < |masks| ==>
      masks[i] == (ComboTrue(floating, i, |floating|), ComboFalse(floating, i, |floating|))
  {
    masks := [];
    var count := Pow2(|floating|);
    var i := 0;
    while i < count
      invariant 0 <= i <= count && |masks| == i
      invariant forall c :: 0 <= c < i ==>
        masks[c] == (ComboTrue(floating, c, |floating|), ComboFalse(floating, c, |floating|))
    {
      var t: bv64, f: bv64 := 0, 0;
      var j := 0;
      while j < |floating|
        invariant 0 <= j <= |floating|
        invariant t == ComboTrue(floating, i, j) && f == ComboFalse(floating, i, j)
      {
        if CounterBit(i, j) {
          t := With(t, floating[j]);
        } else {
          f := With(f, floating[j]);
        }
        j := j + 1;
      }
      masks := masks + [(t, f)];
      i := i + 1;
    }
  }

  /** One memory line: `value` goes to the address of every combination. */
  method WriteFloating(memory: Store, base: bv64, floating: seq<BitIndex>, value: U64) returns (next: Store)
    ensures next == memory + Uniform(AddressSet(base, floating, Pow2(|floating|)), value)
  {
    var masks := Combinations(floating);
    next := memory;
    var i := 0;
    while i < |masks|
      invariant 0 <= i <= |masks|
      invariant next == memory + Uniform(AddressSet(base, floating, i), value)
    {
      var (t, f) := masks[i];
      WriteOne(memory, base, floating, i, t, f, value);
      next := next[Address(Force(base, t, f)) := value];
      i := i + 1;
    }
  }

  /** Writing the address of combination `i` extends the write to combinations `0 .. i`. */
  lemma WriteOne(memory: Store, base: bv64, fl: seq<BitIndex>, i: nat, t: bv64, f: bv64, value: nat)
    requires t == ComboTrue(fl, i, |fl|) && f == ComboFalse(fl, i, |fl|)
    ensures (memory + Uniform(AddressSet(base, fl, i), value))[Address(Force(base, t, f)) := value] ==
      memory + Uniform(AddressSet(base, fl, i + 1), value)
  {
    UniformAdd(memory, AddressSet(base, fl, i), Decoded(base, fl, i), value);
  }

  /** `solve_part_2`: apply the lines in order, then sum the memory. */
  method SolvePart2(lines: seq<string>) returns (r: Result<U64>)
    ensures r == Part2(lines)
  {
    var trueMask: bv64, floating: seq<BitIndex>, memory: Store := 0, [], map[];
    var i := 0;
    while i < |lines|
      invariant 0 <= i <= |lines|
      invariant Run(lines[..i]) == Ok(State(trueMask, floating, memory))
    {
      var line := lines[i];
      assert lines[..i + 1][..i] == lines[..i];
      match Parse(line) {
        case Err(e) =>
          ErrorPersists(lines, i + 1);
          return Err(e);
        case Ok(Mask(p)) =>
          var ok, t, fl := DecodeMask(p);
          if !ok {
            ErrorPersists(lines, i + 1);
            return Err(PositionOverflow(line));
          }
          trueMask, floating := t, fl;
        case Ok(Mem(a, v)) =>
          var base := Base(a, trueMask);
          memory := WriteFloating(memory, base, floating, v);
      }
      i := i + 1;
    }
    assert lines[..i] == lines;
    r := Sum(memory);
  }

  /** The run of one more line is the step of that line from the run so far. */
  lemma RunStep(lines: seq<string>, n: nat)
    requires n < |lines|
    ensures Run(lines[..n + 1]) ==
      match Run(lines[..n])
      case Err(e) => Err(e)
      case Ok(s) => Step(s, lines[n])
  {
    assert lines[..n + 1][..n] == lines[..n];
  }

  /** Once a line aborts, the run aborts with that error, whatever follows. */
  lemma {:induction false} ErrorPersists(lines: seq<string>, n: nat)
    requires n <= |lines| && Run(lines[..n]).Err?
    ensures Run(lines) == Run(lines[..n])
    decreases |lines| - n
  {
    if n < |lines| {
      assert lines[..n + 1][..n] == lines[..n];
      ErrorPersists(lines, n + 1);
    } else {
      assert lines[..n] == lines;
    }
  }

  /**
   * In every state a run reaches, the floating list is strictly decreasing,
   * so no position floats twice, and holds at most 36 positions.
   */
  lemma {:induction false} RunValid(lines: seq<string>)
    ensures Run(lines).Ok? ==> StrictlyDecreasing(Run(lines).value.floating) && |Run(lines).value.floating| <= 36
    decreases |lines|
  {
    if |lines| > 0 {
      var front := lines[..|lines| - 1];
      RunValid(front);
      var line := lines[|lines| - 1];
      if Run(front).Ok? && Parse(line).Ok? && Parse(line).value.Mask? {
        var p := Parse(line).value.pattern;
        if Fits(p, '1', |p|) && Fits(p, 'X', |p|) {
          FloatingDecreasing(p, |p|);
          FloatingBound(p, |p|);
        }
      }
    }
  }

  /**
   * A mask line sets `true_mask` exactly at the `1` positions and the
   * floating list to one entry per `X`, left to right, each the position
   * that `X` governs; the memory is kept. Nothing of the previous mask
   * survives. The line aborts exactly when a `1` or `X` stands beyond
   * index 35.
   */
  lemma MaskLineMasks(s: State, p: string, k: BitIndex)
    requires IsMaskText(p)
    ensures Step(s, MaskLine(p)).Ok? <==> Fits(p, '1', |p|) && Fits(p, 'X', |p|)
    ensures Step(s, MaskLine(p)).Err? ==> Step(s, MaskLine(p)).error == PositionOverflow(MaskLine(p))
    ensures Step(s, MaskLine(p)).Ok? ==>
      var next := Step(s, MaskLine(p)).value;
      (HasBit(next.trueMask, k) <==> Forces(p, |p|, k, '1')) &&
      |next.floating| == multiset(p)['X'] &&
      (forall j :: 0 <= j < |next.floating| ==> Forces(p, |p|, next.floating[j], 'X')) &&
      (k in next.floating <==> Forces(p, |p|, k, 'X')) &&
      StrictlyDecreasing(next.floating) &&
      next.memory == s.memory
  {
    ParseMaskLine(p);
    if Fits(p, '1', |p|) && Fits(p, 'X', |p|) {
      SymbolMaskBits(p, '1', |p|, k);
      FloatingExact(p);
    }
  }

  /** The mask and floating list after a mask line depend on that line alone. */
  lemma MaskForgets(s: State, s': State, line: string)
    requires Parse(line).Ok? && Parse(line).value.Mask?
    ensures Step(s, line).Ok? == Step(s', line).Ok?
    ensures Step(s, line).Ok? ==>
      Step(s, line).value.trueMask == Step(s', line).value.trueMask &&
      Step(s, line).value.floating == Step(s', line).value.floating
  {
  }

  /**
   * A memory line stores the written value itself, unchanged, at each of
   * its target addresses, and keeps the mask, the floating list and every
   * other address.
   */
  lemma WriteTargets(s: State, line: string, a: U64, v: U64)
    requires Parse(line) == Ok(Mem(a, v))
    ensures Step(s, line).Ok?
    ensures Step(s, line).value.trueMask == s.trueMask && Step(s, line).value.floating == s.floating
    ensures Step(s, line).value.memory.Keys == s.memory.Keys + Targets(s, a)
    ensures forall x :: x in Targets(s, a) ==> Step(s, line).value.memory[x] == v
    ensures forall x :: x in s.memory && x !in Targets(s, a) ==> Step(s, line).value.memory[x] == s.memory[x]
  {
  }

  /**
   * The targets of a write at `a` are the `2^N` addresses, for `N` floating
   * positions, that have bit 1 wherever `a` or `true_mask` has it, outside
   * the floating positions, and any bits at the floating positions.
   */
  lemma TargetsExact(s: State, a: U64, x: Address)
    requires Distinct(s.floating)
    ensures |Targets(s, a)| == Pow2(|s.floating|)
    ensures x in Targets(s, a) <==>
      forall k: BitIndex :: k !in s.floating ==> (HasBit(x.bits, k) <==> HasBit(Word(a), k) || HasBit(s.trueMask, k))
  {
    AddressSetExact(Base(a, s.trueMask), s.floating, x);
    forall k: BitIndex {
      BaseBit(a, s.trueMask, k);
    }
  }

  /**
   * In the terms of the last mask pattern `p`: a write at `a` reaches the
   * addresses with bit 1 at the `1` positions, the bit of `a` at the `0`
   * positions and at the bits the pattern does not cover, and any bit at
   * the `X` positions; there are 2 to the number of `X` of them.
   */
  lemma PatternTargets(s: State, p: string, a: U64, x: Address)
    requires Fits(p, '1', |p|) && Fits(p, 'X', |p|)
    requires s.trueMask == SymbolMask(p, '1', |p|) && s.floating == Floating(p, |p|)
    ensures |Targets(s, a)| == Pow2(multiset(p)['X'])
    ensures x in Targets(s, a) <==>
      forall k: BitIndex :: !Forces(p, |p|, k, 'X') ==>
        (HasBit(x.bits, k) <==> Forces(p, |p|, k, '1') || HasBit(Word(a), k))
  {
    FloatingExact(p);
    DecreasingIsDistinct(s.floating);
    TargetsExact(s, a, x);
    forall k: BitIndex {
      SymbolMaskBits(p, '1', |p|, k);
    }
    assert forall k: BitIndex :: Forces(p, |p|, k, 'X') ==> k in s.floating;
  }

  /** With no floating position a write stores the value at `address | true_mask` alone. */
  lemma NoFloatingWrite(s: State, line: string, a: U64, v: U64)
    requires Parse(line) == Ok(Mem(a, v)) && s.floating == []
    ensures Step(s, line) == Ok(s.(memory := s.memory[Address(Base(a, s.trueMask)) := v]))
  {
    var x := Address(Base(a, s.trueMask));
    NoFloating(Base(a, s.trueMask));
    assert Targets(s, a) == {x};
    assert Uniform({x}, v) == map[x := v];
    assert s.memory + map[x := v] == s.memory[x := v];
  }

  /** Of two writes to the same address under the same mask, the later one alone is left. */
  lemma LastWriteWins(s: State, first: string, second: string, a: U64, v: U64, w: U64)
    requires Parse(first) == Ok(Mem(a, v)) && Parse(second) == Ok(Mem(a, w))
    ensures Step(s, first).Ok?
    ensures Step(Step(s, first).value, second) == Step(s, second)
  {
    var targets := Targets(s, a);
    assert s.memory + Uniform(targets, v) + Uniform(targets, w) == s.memory + Uniform(targets, w);
  }

  /** A line that is not an instruction makes the whole run abort. */
  lemma RejectedLineAborts(lines: seq<string>, i: nat)
    requires i < |lines| && Parse(lines[i]).Err?
    ensures Run(lines).Err? && Part2(lines).Err?
  {
    assert lines[..i + 1][..i] == lines[..i];
    assert Run(lines[..i + 1]).Err?;
    ErrorPersists(lines, i + 1);
  }
}
