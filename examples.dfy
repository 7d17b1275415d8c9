/**
 * The two worked examples of the program's test module, computed through
 * the model.
 */
module Examples {
  import opened Bits
  import opened Instructions
  import opened Masks
  import opened Memory
  import opened FloatingAddresses
  import ValueDecoder
  import AddressDecoder

  const PATTERN_1: string := "XXXXXXXXXXXXXXXXXXXXXXXXXXXXX1XXXX0X"

  /** The first test input, split into its lines. */
  const INPUT_1: seq<string> := [MaskLine(PATTERN_1), MemLine("8", "11"), MemLine("7", "101"), MemLine("8", "0")]

  lemma MaskLine1Spelling()
    ensures MaskLine(PATTERN_1) == "mask = XXXXXXXXXXXXXXXXXXXXXXXXXXXXX1XXXX0X"
  {
  }

  /** The lines of the first input as they are spelled. */
  lemma Input1Spelling()
    ensures INPUT_1 == ["mask = XXXXXXXXXXXXXXXXXXXXXXXXXXXXX1XXXX0X", "mem[8] = 11", "mem[7] = 101", "mem[8] = 0"]
  {
    MaskLine1Spelling();
    assert INPUT_1[1] == "mem[8] = 11";
    assert INPUT_1[2] == "mem[7] = 101";
    assert INPUT_1[3] == "mem[8] = 0";
  }

  /** The first pattern is all `X` but for a `1` at index 29 and a `0` at index 34. */
  lemma Pattern1Shape()
    ensures |PATTERN_1| == 36 && PATTERN_1[29] == '1' && PATTERN_1[34] == '0'
    ensures forall idx :: 0 <= idx < 36 && idx != 29 && idx != 34 ==> PATTERN_1[idx] == 'X'
  {
  }

  lemma Pattern1True()
    ensures Fits(PATTERN_1, '1', 36) && SymbolMask(PATTERN_1, '1', 36) == 64
  {
    var p := PATTERN_1;
    Pattern1Shape();
    SymbolMaskSkip(p, '1', 30, 36);
    SymbolMaskSkip(p, '1', 0, 29);
    PositionAt(29, 6);
    assert With(0, 6) == 64;
  }

  lemma Pattern1False()
    ensures Fits(PATTERN_1, '0', 36) && SymbolMask(PATTERN_1, '0', 36) == 2
  {
    var p := PATTERN_1;
    Pattern1Shape();
    SymbolMaskSkip(p, '0', 35, 36);
    SymbolMaskSkip(p, '0', 0, 34);
    PositionAt(34, 1);
    assert With(0, 1) == 2;
  }

  lemma Digits8And11()
    ensures IsDigits("8") && DecimalValue("8") == 8
    ensures IsDigits("11") && DecimalValue("11") == 11
  {
    assert "11"[..1] == "1";
  }

  lemma MemLine8To11()
    ensures Parse(MemLine("8", "11")) == Ok(Mem(8, 11))
  {
    Digits8And11();
    ParseMemLine("8", "11");
  }

  lemma Digits7And101()
    ensures IsDigits("7") && DecimalValue("7") == 7
    ensures IsDigits("101") && DecimalValue("101") == 101
  {
    assert "101"[..2] == "10" && "10"[..1] == "1";
  }

  lemma MemLine7To101()
    ensures Parse(MemLine("7", "101")) == Ok(Mem(7, 101))
  {
    Digits7And101();
    ParseMemLine("7", "101");
  }

  lemma MemLine8To0()
    ensures Parse(MemLine("8", "0")) == Ok(Mem(8, 0))
  {
    ParseMemLine("8", "0");
  }

  lemma MaskLine1()
    ensures Parse(MaskLine(PATTERN_1)) == Ok(Mask(PATTERN_1))
  {
    assert IsMaskText(PATTERN_1) by {
      assert forall i :: 0 <= i < |PATTERN_1| ==> PATTERN_1[i] == 'X' || PATTERN_1[i] == '1' || PATTERN_1[i] == '0';
    }
    ParseMaskLine(PATTERN_1);
  }

  lemma Forced1()
    ensures Force(Word(11), 64, 2) == 73
    ensures Force(Word(101), 64, 2) == 101
    ensures Force(Word(0), 64, 2) == 64
  {
  }

  lemma Numbers1()
    ensures Number(73) == 73 && Number(101) == 101 && Number(64) == 64
  {
  }

  lemma Step1Mask(s: ValueDecoder.State)
    ensures ValueDecoder.Step(s, INPUT_1[0]) == Ok(ValueDecoder.State(64, 2, s.memory))
  {
    MaskLine1();
    Pattern1True();
    Pattern1False();
  }

  lemma Step1Write8(memory: Store)
    ensures ValueDecoder.Step(ValueDecoder.State(64, 2, memory), INPUT_1[1]) ==
      Ok(ValueDecoder.State(64, 2, memory[At(8) := 73]))
  {
    Forced1();
    Numbers1();
    MemLine8To11();
  }

  lemma Step1Write7(memory: Store)
    ensures ValueDecoder.Step(ValueDecoder.State(64, 2, memory), INPUT_1[2]) ==
      Ok(ValueDecoder.State(64, 2, memory[At(7) := 101]))
  {
    Forced1();
    Numbers1();
    MemLine7To101();
  }

  lemma Step1Rewrite8(memory: Store)
    ensures ValueDecoder.Step(ValueDecoder.State(64, 2, memory), INPUT_1[3]) ==
      Ok(ValueDecoder.State(64, 2, memory[At(8) := 64]))
  {
    Forced1();
    Numbers1();
    MemLine8To0();
  }

  lemma Run1Mask()
    ensures ValueDecoder.Run(INPUT_1[..1]) == Ok(ValueDecoder.State(64, 2, map[]))
  {
    ValueDecoder.RunStep(INPUT_1, 0);
    assert INPUT_1[..0] == [];
    Step1Mask(ValueDecoder.Initial);
  }

  lemma Run1First()
    ensures ValueDecoder.Run(INPUT_1[..2]) == Ok(ValueDecoder.State(64, 2, map[At(8) := 73]))
  {
    Run1Mask();
    ValueDecoder.RunStep(INPUT_1, 1);
    Step1Write8(map[]);
  }

  lemma Run1Writes()
    ensures ValueDecoder.Run(INPUT_1[..3]) == Ok(ValueDecoder.State(64, 2, map[At(8) := 73, At(7) := 101]))
  {
    Run1First();
    ValueDecoder.RunStep(INPUT_1, 2);
    Step1Write7(map[At(8) := 73]);
  }

  lemma Memory1(memory: Store)
    requires memory == map[At(8) := 73, At(7) := 101]
    ensures memory[At(8) := 64] == map[At(8) := 64, At(7) := 101]
  {
  }

  /** The state after the first input: address 8 rewritten, address 7 kept. */
  lemma Run1()
    ensures ValueDecoder.Run(INPUT_1) == Ok(ValueDecoder.State(64, 2, map[At(8) := 64, At(7) := 101]))
  {
    assert INPUT_1[..4] == INPUT_1;
    Run1Writes();
    ValueDecoder.RunStep(INPUT_1, 3);
    Step1Rewrite8(map[At(8) := 73, At(7) := 101]);
    Memory1(map[At(8) := 73, At(7) := 101]);
  }

  lemma Sum1()
    ensures SumValues(map[At(8) := 64, At(7) := 101]) == 165
  {
    var memory := map[At(8) := 64, At(7) := 101];
    assert At(8) != At(7);
    SumRemove(memory, At(8));
    assert memory - {At(8)} == map[At(7) := 101];
    SumRemove(map[At(7) := 101], At(7));
    assert map[At(7) := 101] - {At(7)} == map[];
  }

  /** The first test: part one answers 165. */
  lemma Example1()
    ensures ValueDecoder.Part1(INPUT_1) == Ok(165)
  {
    Run1();
    Sum1();
  }

  const PATTERN_2: string := "000000000000000000000000000000X1001X"
  const PATTERN_3: string := "00000000000000000000000000000000X0XX"

  /** The second test input, split into its lines. */
  const INPUT_2: seq<string> := [MaskLine(PATTERN_2), MemLine("42", "100"), MaskLine(PATTERN_3), MemLine("26", "1")]

  lemma MaskLine2Spelling()
    ensures MaskLine(PATTERN_2) == "mask = 000000000000000000000000000000X1001X"
  {
  }

  lemma MaskLine3Spelling()
    ensures MaskLine(PATTERN_3) == "mask = 00000000000000000000000000000000X0XX"
  {
  }

  /** The lines of the second input as they are spelled. */
  lemma Input2Spelling()
    ensures INPUT_2 == ["mask = 000000000000000000000000000000X1001X", "mem[42] = 100",
                        "mask = 00000000000000000000000000000000X0XX", "mem[26] = 1"]
  {
    MaskLine2Spelling();
    MaskLine3Spelling();
    assert INPUT_2[1] == "mem[42] = 100";
    assert INPUT_2[3] == "mem[26] = 1";
  }

  /** The second pattern: `X` at indices 30 and 35, `1` at 31 and 34, `0` elsewhere. */
  lemma Pattern2Shape()
    ensures |PATTERN_2| == 36 && PATTERN_2[30] == 'X' && PATTERN_2[31] == '1'
    ensures PATTERN_2[32] == '0' && PATTERN_2[33] == '0' && PATTERN_2[34] == '1' && PATTERN_2[35] == 'X'
    ensures forall idx :: 0 <= idx < 30 ==> PATTERN_2[idx] == '0'
  {
  }

  /** The third pattern: `X` at indices 32, 34 and 35, `0` elsewhere. */
  lemma Pattern3Shape()
    ensures |PATTERN_3| == 36 && PATTERN_3[32] == 'X' && PATTERN_3[33] == '0'
    ensures PATTERN_3[34] == 'X' && PATTERN_3[35] == 'X'
    ensures forall idx :: 0 <= idx < 32 ==> PATTERN_3[idx] == '0'
  {
  }

  lemma Pattern2TrueLeft()
    ensures Fits(PATTERN_2, '1', 32) && SymbolMask(PATTERN_2, '1', 32) == 16
  {
    var p := PATTERN_2;
    Pattern2Shape();
    SymbolMaskSkip(p, '1', 0, 31);
    PositionAt(31, 4);
    assert With(0, 4) == 16;
  }

  lemma Pattern2True()
    ensures Fits(PATTERN_2, '1', 36) && SymbolMask(PATTERN_2, '1', 36) == 18
  {
    var p := PATTERN_2;
    Pattern2Shape();
    Pattern2TrueLeft();
    SymbolMaskSkip(p, '1', 35, 36);
    SymbolMaskSkip(p, '1', 32, 34);
    PositionAt(34, 1);
    assert With(16, 1) == 18;
  }

  lemma Pattern2Floating()
    ensures Fits(PATTERN_2, 'X', 36) && Floating(PATTERN_2, 36) == [5, 0]
  {
    var p := PATTERN_2;
    Pattern2Shape();
    FloatingSkip(p, 31, 35);
    FloatingSkip(p, 0, 30);
    PositionAt(30, 5);
    PositionAt(35, 0);
  }

  lemma Pattern3True()
    ensures Fits(PATTERN_3, '1', 36) && SymbolMask(PATTERN_3, '1', 36) == 0
  {
    Pattern3Shape();
    SymbolMaskSkip(PATTERN_3, '1', 0, 36);
  }

  lemma Pattern3Floating()
    ensures Fits(PATTERN_3, 'X', 36) && Floating(PATTERN_3, 36) == [3, 1, 0]
  {
    var p := PATTERN_3;
    Pattern3Shape();
    FloatingSkip(p, 33, 34);
    FloatingSkip(p, 0, 32);
    PositionAt(32, 3);
    PositionAt(34, 1);
    PositionAt(35, 0);
  }

  lemma MaskLine2()
    ensures Parse(MaskLine(PATTERN_2)) == Ok(Mask(PATTERN_2))
  {
    assert IsMaskText(PATTERN_2) by {
      assert forall i :: 0 <= i < |PATTERN_2| ==> PATTERN_2[i] == 'X' || PATTERN_2[i] == '1' || PATTERN_2[i] == '0';
    }
    ParseMaskLine(PATTERN_2);
  }

  lemma MaskLine3()
    ensures Parse(MaskLine(PATTERN_3)) == Ok(Mask(PATTERN_3))
  {
    assert IsMaskText(PATTERN_3) by {
      assert forall i :: 0 <= i < |PATTERN_3| ==> PATTERN_3[i] == 'X' || PATTERN_3[i] == '1' || PATTERN_3[i] == '0';
    }
    ParseMaskLine(PATTERN_3);
  }

  lemma Digits42And100()
    ensures IsDigits("42") && DecimalValue("42") == 42
    ensures IsDigits("100") && DecimalValue("100") == 100
  {
    assert "42"[..1] == "4";
    assert "100"[..2] == "10" && "10"[..1] == "1";
  }

  lemma MemLine42To100()
    ensures Parse(MemLine("42", "100")) == Ok(Mem(42, 100))
  {
    Digits42And100();
    ParseMemLine("42", "100");
  }

  lemma Digits26And1()
    ensures IsDigits("26") && DecimalValue("26") == 26
    ensures IsDigits("1") && DecimalValue("1") == 1
  {
    assert "26"[..1] == "2";
  }

  lemma MemLine26To1()
    ensures Parse(MemLine("26", "1")) == Ok(Mem(26, 1))
  {
    Digits26And1();
    ParseMemLine("26", "1");
  }

  /** The addresses of the first write: 42 with bits 4 and 1 forced on, bits 5 and 0 floating. */
  const FIRST_TARGETS: set<Address> := {Address(26), Address(58), Address(27), Address(59)}

  lemma Targets2()
    ensures AddressDecoder.Targets(AddressDecoder.State(18, [5, 0], map[]), 42) == FIRST_TARGETS
  {
    assert AddressDecoder.Base(42, 18) == 58;
    assert Pow2(2) == 4;
    assert Decoded(58, [5, 0], 0) == Address(26);
    assert Decoded(58, [5, 0], 1) == Address(58);
    assert Decoded(58, [5, 0], 2) == Address(27);
    assert Decoded(58, [5, 0], 3) == Address(59);
  }

  /** The addresses of the second write: 26 with bits 3, 1 and 0 floating. */
  const SECOND_TARGETS: set<Address> := AddressSet(26, [3, 1, 0], 8)

  lemma Step2Mask(s: AddressDecoder.State)
    ensures AddressDecoder.Step(s, INPUT_2[0]) == Ok(AddressDecoder.State(18, [5, 0], s.memory))
  {
    MaskLine2();
    Pattern2True();
    Pattern2Floating();
  }

  lemma Step2First(memory: Store)
    ensures AddressDecoder.Step(AddressDecoder.State(18, [5, 0], memory), INPUT_2[1]) ==
      Ok(AddressDecoder.State(18, [5, 0], memory + Uniform(FIRST_TARGETS, 100)))
  {
    MemLine42To100();
    Targets2();
  }

  lemma Step2Mask2(s: AddressDecoder.State)
    ensures AddressDecoder.Step(s, INPUT_2[2]) == Ok(AddressDecoder.State(0, [3, 1, 0], s.memory))
  {
    MaskLine3();
    Pattern3True();
    Pattern3Floating();
  }

  lemma Step2Last(memory: Store)
    ensures AddressDecoder.Step(AddressDecoder.State(0, [3, 1, 0], memory), INPUT_2[3]) ==
      Ok(AddressDecoder.State(0, [3, 1, 0], memory + Uniform(SECOND_TARGETS, 1)))
  {
    MemLine26To1();
    assert AddressDecoder.Base(26, 0) == 26 && Pow2(3) == 8;
  }

  lemma Run2Mask()
    ensures AddressDecoder.Run(INPUT_2[..1]) == Ok(AddressDecoder.State(18, [5, 0], map[]))
  {
    AddressDecoder.RunStep(INPUT_2, 0);
    assert INPUT_2[..0] == [];
    Step2Mask(AddressDecoder.Initial);
  }

  lemma Run2First()
    ensures AddressDecoder.Run(INPUT_2[..2]) == Ok(AddressDecoder.State(18, [5, 0], Uniform(FIRST_TARGETS, 100)))
  {
    Run2Mask();
    AddressDecoder.RunStep(INPUT_2, 1);
    Step2First(map[]);
    assert map[] + Uniform(FIRST_TARGETS, 100) == Uniform(FIRST_TARGETS, 100);
  }

  lemma Run2Mask2()
    ensures AddressDecoder.Run(INPUT_2[..3]) == Ok(AddressDecoder.State(0, [3, 1, 0], Uniform(FIRST_TARGETS, 100)))
  {
    Run2First();
    AddressDecoder.RunStep(INPUT_2, 2);
    Step2Mask2(AddressDecoder.State(18, [5, 0], Uniform(FIRST_TARGETS, 100)));
  }

  lemma Run2()
    ensures AddressDecoder.Run(INPUT_2) ==
      Ok(AddressDecoder.State(0, [3, 1, 0], Uniform(FIRST_TARGETS, 100) + Uniform(SECOND_TARGETS, 1)))
  {
    Run2Mask2();
    AddressDecoder.RunStep(INPUT_2, 3);
    Step2Last(Uniform(FIRST_TARGETS, 100));
    assert INPUT_2[..4] == INPUT_2;
  }

  /*
   * The lemmas about the second write's addresses take the base and the
   * floating list as parameters pinned by `requires`, not as literals: with
   * literal arguments the verifier evaluates `AddressSet` eagerly, which is
   * far more expensive than the characterisation by `AddressSetExact`.
   */

  /** The second write reaches eight addresses. */
  lemma SecondCount(base: bv64, fl: seq<BitIndex>)
    requires base == 26 && fl == [3, 1, 0]
    ensures |AddressSet(base, fl, 8)| == 8
  {
    assert Distinct(fl);
    assert Pow2(|fl|) == 8;
    AddressCount(base, fl, 8);
  }

  /** 26 is the base address itself, and 27 differs from it only at the floating bit 0. */
  lemma SecondHas(base: bv64, fl: seq<BitIndex>)
    requires base == 26 && fl == [3, 1, 0]
    ensures Address(26) in AddressSet(base, fl, 8) && Address(27) in AddressSet(base, fl, 8)
  {
    assert Distinct(fl) && Pow2(|fl|) == 8;
    assert Agrees(27, base, fl) by {
      forall k: BitIndex | k !in fl ensures HasBit(27, k) <==> HasBit(base, k) {
        assert k != 0;
      }
    }
    AddressSetExact(base, fl, Address(26));
    AddressSetExact(base, fl, Address(27));
  }

  /** Bit 5 is not floating, and 58 and 59 have it where 26 does not. */
  lemma SecondLacks(base: bv64, fl: seq<BitIndex>)
    requires base == 26 && fl == [3, 1, 0]
    ensures Address(58) !in AddressSet(base, fl, 8) && Address(59) !in AddressSet(base, fl, 8)
  {
    assert Distinct(fl) && Pow2(|fl|) == 8;
    assert 5 !in fl && !HasBit(base, 5) && HasBit(58, 5) && HasBit(59, 5);
    AddressSetExact(base, fl, Address(58));
    AddressSetExact(base, fl, Address(59));
  }

  /** Of the first write, 58 and 59 keep 100; the eight addresses of the second hold 1. */
  lemma SumOverlap(first: set<Address>, second: set<Address>)
    requires first == FIRST_TARGETS && |second| == 8
    requires Address(26) in second && Address(27) in second
    requires Address(58) !in second && Address(59) !in second
    ensures SumValues(Uniform(first, 100) + Uniform(second, 1)) == 208
  {
    SumOverwrite(Uniform(first, 100), second, 1);
    var kept := {Address(58), Address(59)};
    assert Uniform(first, 100) - second == Uniform(kept, 100);
    SumUniform(kept, 100);
  }

  /** The second test: part two answers 208. */
  lemma Example2()
    ensures AddressDecoder.Part2(INPUT_2) == Ok(208)
  {
    Run2();
    SecondCount(26, [3, 1, 0]);
    SecondHas(26, [3, 1, 0]);
    SecondLacks(26, [3, 1, 0]);
    SumOverlap(FIRST_TARGETS, SECOND_TARGETS);
  }
}
