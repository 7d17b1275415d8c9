/**
 * Part one of the decoder: the mask rewrites the VALUE written to memory.
 * `1` in the mask forces the value bit to 1, `0` forces it to 0, and `X`
 * leaves it alone; the address is used as given.
 */
module ValueDecoder {
  import opened Bits
  import opened Instructions
  import opened Masks
  import opened Memory

  /** The decoder between two lines: the current masks and the memory. */
  datatype State = State(trueMask: bv64, falseMask: bv64, memory: Store)

  /** Before any line: empty masks, empty memory. */
  const Initial: State := State(0, 0, map[])

  /** The state a mask line sets, or the overflow abort of `35 - idx`. */
  function MaskState(p: string, memory: Store, line: string): (r: Result<State>) {
    if Fits(p, '1', |p|) && Fits(p, '0', |p|) then
      Ok(State(SymbolMask(p, '1', |p|), SymbolMask(p, '0', |p|), memory))
    else
      Err(PositionOverflow(line))
  }

  /** The effect of one line. */
  function Step(s: State, line: string): (r: Result<State>) {
    match Parse(line)
    case Err(e) => Err(e)
    case Ok(Mask(p)) => MaskState(p, s.memory, line)
    case Ok(Mem(a, v)) =>
      Ok(s.(memory := s.memory[At(a) := Number(Force(Word(v), s.trueMask, s.falseMask))]))
  }

  /**
   * The effect of the lines in order, stopping at the first abort. This and
   * the run lemmas below have the same shape in both decoders, as the two
   * solver functions of the program repeat the same line loop; each decoder
   * keeps its own copy over its own state.
   */
  function Run(lines: seq<string>): (r: Result<State>)
    decreases |lines|
  {
    if |lines| == 0 then Ok(Initial)
    else
      match Run(lines[..|lines| - 1])
      case Err(e) => Err(e)
      case Ok(s) => Step(s, lines[|lines| - 1])
  }

  /** What part one answers for the lines: the sum of the final memory. */
  ghost function Part1(lines: seq<string>): (r: Result<U64>) {
    match Run(lines)
    case Err(e) => Err(e)
    case Ok(s) => Answer(s.memory)
  }

  /**
   * The loop over the pattern that rebuilds both masks from zero; `ok` is
   * false when a `1` or `0` stands beyond index 35, where `35 - idx` underflows.
   */
  method DecodeMask(p: string) returns (ok: bool, trueMask: bv64, falseMask: bv64)
    ensures ok <==> Fits(p, '1', |p|) && Fits(p, '0', |p|)
    ensures ok ==> trueMask == SymbolMask(p, '1', |p|) && falseMask == SymbolMask(p, '0', |p|)
  {
    trueMask, falseMask := 0, 0;
    var idx := 0;
    while idx < |p|
      invariant 0 <= idx <= |p|
      invariant Fits(p, '1', idx) && Fits(p, '0', idx)
      invariant trueMask == SymbolMask(p, '1', idx) && falseMask == SymbolMask(p, '0', idx)
    {
      if p[idx] == '1' {
        if idx > 35 {
          MaskOverflow(p, '1', idx);
          return false, trueMask, falseMask;
        }
        trueMask := SetPosition(trueMask, idx);
      } else if p[idx] == '0' {
        if idx > 35 {
          MaskOverflow(p, '0', idx);
          return false, trueMask, falseMask;
        }
        falseMask := SetPosition(falseMask, idx);
      }
      MaskGrow(p, '1', idx);
      MaskGrow(p, '0', idx);
      idx := idx + 1;
    }
    ok := true;
  }

  /** `solve_part_1`: apply the lines in order, then sum the memory. */
  method SolvePart1(lines: seq<string>) returns (r: Result<U64>)
    ensures r == Part1(lines)
  {
    var trueMask: bv64, falseMask: bv64, memory: Store := 0, 0, map[];
    var i := 0;
    while i < |lines|
      invariant 0 <= i <= |lines|
      invariant Run(lines[..i]) == Ok(State(trueMask, falseMask, memory))
    {
      var line := lines[i];
      RunStep(lines, i);
      match Parse(line) {
        case Err(e) =>
          ErrorPersists(lines, i + 1);
          return Err(e);
        case Ok(Mask(p)) =>
          var ok, t, f := DecodeMask(p);
          if !ok {
            ErrorPersists(lines, i + 1);
            return Err(PositionOverflow(line));
          }
          trueMask, falseMask := t, f;
        case Ok(Mem(a, v)) =>
          var value := Force(Word(v), trueMask, falseMask);
          memory := memory[At(a) := Number(value)];
      }
      i := i + 1;
    }
    assert lines[..i] == lines;
    r := Sum(memory);
  }

  /** The run of one more line is the step of that line from the run so far. */
  lemma RunStep(lines: seq<string>, n: nat)
    requires n < |lines|
    ensures Run(lines[..n + 1]) ==
      match Run(lines[..n])
      case Err(e) => Err(e)
      case Ok(s) => Step(s, lines[n])
  {
    assert lines[..n + 1][..n] == lines[..n];
  }

  /** Once a line aborts, the run aborts with that error, whatever follows. */
  lemma {:induction false} ErrorPersists(lines: seq<string>, n: nat)
    requires n <= |lines| && Run(lines[..n]).Err?
    ensures Run(lines) == Run(lines[..n])
    decreases |lines| - n
  {
    if n < |lines| {
      assert lines[..n + 1][..n] == lines[..n];
      ErrorPersists(lines, n + 1);
    } else {
      assert lines[..n] == lines;
    }
  }

  /**
   * A mask line sets `true_mask` exactly at the `1` positions and
   * `false_mask` exactly at the `0` positions, so the two share no bit and
   * an `X` position is in neither; the memory is kept. Nothing of the
   * previous masks survives. The line aborts exactly when a `1` or `0`
   * stands beyond index 35.
   */
  lemma MaskLineMasks(s: State, p: string, k: BitIndex)
    requires IsMaskText(p)
    ensures Step(s, MaskLine(p)).Ok? <==> Fits(p, '1', |p|) && Fits(p, '0', |p|)
    ensures Step(s, MaskLine(p)).Err? ==> Step(s, MaskLine(p)).error == PositionOverflow(MaskLine(p))
    ensures Step(s, MaskLine(p)).Ok? ==>
      var next := Step(s, MaskLine(p)).value;
      (HasBit(next.trueMask, k) <==> Forces(p, |p|, k, '1')) &&
      (HasBit(next.falseMask, k) <==> Forces(p, |p|, k, '0')) &&
      next.trueMask & next.falseMask == 0 &&
      (Forces(p, |p|, k, 'X') ==> !HasBit(next.trueMask, k) && !HasBit(next.falseMask, k)) &&
      next.memory == s.memory
  {
    ParseMaskLine(p);
    if Fits(p, '1', |p|) && Fits(p, '0', |p|) {
      SymbolMaskBits(p, '1', |p|, k);
      SymbolMaskBits(p, '0', |p|, k);
      SymbolMasksDisjoint(p, '1', '0', |p|);
    }
  }

  /** The masks after a mask line depend on that line alone. */
  lemma MaskForgets(s: State, s': State, line: string)
    requires Parse(line).Ok? && Parse(line).value.Mask?
    ensures Step(s, line).Ok? == Step(s', line).Ok?
    ensures Step(s, line).Ok? ==>
      Step(s, line).value.trueMask == Step(s', line).value.trueMask &&
      Step(s, line).value.falseMask == Step(s', line).value.falseMask
  {
  }

  /** A memory line stores the forced value at its address and changes nothing else. */
  lemma WriteStores(s: State, line: string, a: U64, v: U64)
    requires Parse(line) == Ok(Mem(a, v))
    ensures Step(s, line).Ok?
    ensures Step(s, line).value.trueMask == s.trueMask && Step(s, line).value.falseMask == s.falseMask
    ensures Step(s, line).value.memory.Keys == s.memory.Keys + {At(a)}
    ensures forall x :: x in s.memory && x != At(a) ==> Step(s, line).value.memory[x] == s.memory[x]
    ensures Step(s, line).value.memory[At(a)] == Number(Force(Word(v), s.trueMask, s.falseMask))
  {
    var stored := Number(Force(Word(v), s.trueMask, s.falseMask));
    assert Step(s, line) == Ok(s.(memory := s.memory[At(a) := stored]));
  }

  /** Bit `k` of a stored value: forced by a `1` or `0` of the pattern, else the written bit. */
  lemma ForcedBits(p: string, trueMask: bv64, falseMask: bv64, v: U64, k: BitIndex)
    requires Fits(p, '1', |p|) && Fits(p, '0', |p|)
    requires trueMask == SymbolMask(p, '1', |p|) && falseMask == SymbolMask(p, '0', |p|)
    ensures HasBit(Force(Word(v), trueMask, falseMask), k) <==>
      if Forces(p, |p|, k, '1') then true
      else if Forces(p, |p|, k, '0') then false
      else HasBit(Word(v), k)
  {
    ForceBit(Word(v), trueMask, falseMask, k);
    SymbolMaskBits(p, '1', |p|, k);
    SymbolMaskBits(p, '0', |p|, k);
  }

  /** Of two writes to the same address, the later one alone is left. */
  lemma LastWriteWins(s: State, first: string, second: string, a: U64, v: U64, w: U64)
    requires Parse(first) == Ok(Mem(a, v)) && Parse(second) == Ok(Mem(a, w))
    ensures Step(s, first).Ok?
    ensures Step(Step(s, first).value, second) == Step(s, second)
  {
    var m := Number(Force(Word(v), s.trueMask, s.falseMask));
    var n := Number(Force(Word(w), s.trueMask, s.falseMask));
    Overwrite(s.memory, At(a), m, n);
  }

  /** A line that is not an instruction makes the whole run abort. */
  lemma RejectedLineAborts(lines: seq<string>, i: nat)
    requires i < |lines| && Parse(lines[i]).Err?
    ensures Run(lines).Err? && Part1(lines).Err?
  {
    assert lines[..i + 1][..i] == lines[..i];
    assert Run(lines[..i + 1]).Err?;
    ErrorPersists(lines, i + 1);
  }
}
