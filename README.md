# Docking-data bitmask decoder, modelled in Dafny

The program reads initialisation lines of two kinds:

- `mask = <pattern>`, the pattern being one or more of `X`, `1`, `0` (the puzzle input has 36)
- `mem[<address>] = <value>`

It runs them through two decoders and answers the sum of the values left in memory.

- **Part one (value decoder).** A mask line resets `true_mask`, the bits of its `1` symbols, and `false_mask`, the bits of its `0` symbols. Symbol `idx` governs bit `35 - idx`. A memory line stores `(value | true_mask) & !false_mask` at the address as given.
- **Part two (address decoder).** A mask line resets `true_mask` and the list of floating positions, one per `X`, left to right. A memory line takes `address | true_mask` and enumerates `2^N` combinations of the `N` floating bits with a counter `i`. Floating entry `j` is set to 1 when bit `j` of `i` is set, and to 0 otherwise. The value is stored at every resulting address.

A line of neither kind aborts the run.

## Modules

| file | module | what it holds |
|---|---|---|
| `bits.dfy` | `Bits` | 64-bit words as `bv64`; bit positions as `bv6`; bit lemmas |
| `instructions.dfy` | `Instructions` | the `Instruction` and `Error` datatypes; a hand-written recogniser for the two line patterns; `Parse` and its soundness and completeness lemmas |
| `masks.dfy` | `Masks` | what a pattern says about each bit: `SymbolMask` (the `1`/`0` masks) and `Floating` (the floating list) |
| `memory.dfy` | `Memory` | the memory as `map<Address, nat>`; its order-independent sum; the summation loop with its `u64` overflow check |
| `floating.dfy` | `FloatingAddresses` | the combinations of part two, the addresses they produce, and a proof that the addresses are exactly the `2^N` words agreeing with the base outside the floating bits |
| `part1.dfy` | `ValueDecoder` | `solve_part_1`: the state, one step, the run, and the loop methods proved against them |
| `part2.dfy` | `AddressDecoder` | `solve_part_2`, the same way, plus the loops that build the combinations and write them |
| `examples.dfy` | `Examples` | the two test inputs; proofs that part one answers 165 and part two answers 208 |

**Overflow.** The program is modelled as compiled with overflow checks, the default for `cargo test`. An overflow is then an abort, and each abort is an `Err` of the run:

- `35 - idx` below zero for a symbol beyond index 35 whose match arm computes it: `PositionOverflow`;
- a decimal field above `u64::MAX` (the `unwrap` of `parse::<u64>`): `BadNumber`;
- a line matching neither pattern (the `panic!`): `BadLine`;
- a sum of the memory values that does not fit in a `u64`: `SumOverflow`.

Which symbols can overflow differs by part:

- In part one, the `1` and `0` arms compute the shift and `X` does not.
- In part two, the `1` and `X` arms compute it and `0` does not.

**Loops and their functions.** Each loop of the source is a `method` with invariants, proved against a function:

| method | loop it models | proved against |
|---|---|---|
| `DecodeMask` | the mask-building loop | `SymbolMask` / `Floating` |
| `Combinations` | the enumeration of the combinations | `ComboTrue` / `ComboFalse` |
| `WriteFloating` | the loop of writes | `AddressSet` |
| `SolvePart1`, `SolvePart2` | the loop over lines | `Run` |
| `Memory.Sum` | the summation | `Answer`, which `FoldAnswer` equates with the checked fold `CheckedSum` in any key order |

## Model

| member | source | states |
|---|---|---|
| Instructions.ParseMaskLine | src/main.rs:7 | every `mask = ` line with a non-empty `[X10]+` pattern is recognised as that pattern |
| Instructions.ParseMaskSound | src/main.rs:7 | a line recognised as a mask line is `mask = ` followed by a non-empty `[X10]+` pattern |
| Instructions.ParseMemLine | src/main.rs:8-9 | every `mem[digits] = digits` line is recognised; it gives the two decimal numbers when both fit in a u64 and is refused with `BadNumber` otherwise |
| Instructions.ParseMemSound | src/main.rs:8-9 | a line recognised as a memory line, or refused only for its numbers, is spelled `mem[d] = d'` with digit strings whose values are the ones read |
| Instructions.ParseRejects | src/main.rs:41-43 | a line is refused as a bad line exactly when it is spelled as neither kind of line (both directions) |
| Instructions.ParseFormat | src/main.rs:7-9 | parsing the written form of any instruction gives that instruction back |
| Instructions.DecimalRoundTrip | src/main.rs:36-37 | the decimal reading of a number's decimal spelling is the number |
| Masks.SymbolMaskBits | src/main.rs:28-33 | bit `k` of the mask built for symbol `c` is set exactly when the symbol governing bit `k` is `c` |
| Masks.SymbolMasksDisjoint | src/main.rs:28-33 | the masks of two different symbols share no bit (`true_mask & false_mask == 0`) |
| Masks.MaskOverflow | src/main.rs:30-31 | a governed symbol beyond index 35 makes the whole pattern unfit (the `35 - idx` underflow) |
| Masks.FloatingExact | src/main.rs:56-62 | the floating list has one entry per `X`; each entry is the bit that `X` governs, every such bit is listed, and the list strictly decreases |
| Memory.SumRemove | src/main.rs:45 | the sum of the memory is the same whichever key is taken first |
| Memory.SumOverwrite | src/main.rs:82 | writing `v` at a set `s` of addresses makes the sum that of the untouched addresses plus `|s|*v` |
| Memory.Sum | src/main.rs:45 | the summation loop answers the sum when it fits in a u64 and `SumOverflow` otherwise |
| Memory.CheckedSumValue | src/main.rs:45 | summing with a checked `u64` `+` from a running total aborts exactly when the plain sum does not fit, and otherwise gives it |
| Memory.KeysSumIsSum | src/main.rs:45 | adding up the values in the order of any listing of the keys gives the sum of the memory |
| Memory.FoldAnswer | src/main.rs:45 | `values().sum()` as a checked fold over any listing of the keys equals `Answer`: the total when it fits in a u64, `SumOverflow` otherwise, whatever the visiting order |
| ValueDecoder.DecodeMask | src/main.rs:26-34 | the loop succeeds exactly when every `1`/`0` stands at index <= 35; it then returns the two masks of the pattern |
| ValueDecoder.SolvePart1 | src/main.rs:20-46 | the method's answer equals that of the model run (`Part1`) on every input |
| ValueDecoder.MaskLineMasks | src/main.rs:25-34 | a mask line succeeds iff its `1`/`0` fit, else it gives `PositionOverflow`; then `true_mask` bits are the `1` positions and `false_mask` bits the `0` positions; the masks are disjoint, `X` bits are in neither, and memory is kept |
| ValueDecoder.MaskForgets | src/main.rs:26-27 | the masks after a mask line do not depend on the state before it |
| ValueDecoder.WriteStores | src/main.rs:35-40 | a memory line keeps the masks, adds its address to the keys, keeps every other address, and stores the forced value at its own address |
| ValueDecoder.ForcedBits | src/main.rs:38-39 | bit `k` of the stored value is 1 under a `1`, 0 under a `0`, and the written value's bit otherwise |
| ValueDecoder.LastWriteWins | src/main.rs:40 | two writes to one address leave what the second write alone would |
| ValueDecoder.ErrorPersists | src/main.rs:42 | once a prefix of the lines aborts, the whole run aborts with the same error |
| ValueDecoder.RejectedLineAborts | src/main.rs:41-43 | a line that does not parse, anywhere in the input, makes the run and the answer abort |
| FloatingAddresses.CounterBitsDiffer | src/main.rs:68-72 | two different counters below 2^n differ at one of the bits 0..n-1 that the inner loop tests |
| FloatingAddresses.ComboAt | src/main.rs:71-77 | combination `i` sets floating entry `j` to 1 exactly when bit `j` of `i` is set, and to 0 exactly when it is not |
| FloatingAddresses.ComboDisjoint | src/main.rs:69-77 | the `(t, f)` masks of a combination share no bit |
| FloatingAddresses.ComboCover | src/main.rs:69-77 | together, the `(t, f)` masks of a combination cover exactly the floating bits |
| FloatingAddresses.FloatUnionBits | src/main.rs:71-77 | the union of the floating bits holds exactly the listed positions |
| FloatingAddresses.DecodedFixed | src/main.rs:81 | outside the floating bits, every produced address has the bits of the base |
| FloatingAddresses.AddressesDistinct | src/main.rs:68-83 | different combinations produce different addresses |
| FloatingAddresses.AddressCount | src/main.rs:68-83 | the first `n <= 2^N` combinations produce `n` distinct addresses |
| FloatingAddresses.AddressSetExact | src/main.rs:66-83 | there are exactly 2^N produced addresses, and a word is one of them iff it agrees with the base outside the floating bits |
| FloatingAddresses.NoFloating | src/main.rs:68-83 | with no floating bit, the only address produced is the base itself |
| AddressDecoder.DecodeMask | src/main.rs:54-62 | the loop succeeds exactly when every `1`/`X` stands at index <= 35; it then returns the `1` mask and the floating list of the pattern |
| AddressDecoder.Combinations | src/main.rs:67-79 | the loop builds 2^N pairs whose i-th pair is combination `i` |
| AddressDecoder.WriteFloating | src/main.rs:66-83 | the writes leave the old memory overwritten with the value at every produced address |
| AddressDecoder.SolvePart2 | src/main.rs:48-89 | the method's answer equals that of the model run (`Part2`) on every input |
| AddressDecoder.RunValid | src/main.rs:55-62 | in every state a run reaches, the floating list is strictly decreasing and has at most 36 entries |
| AddressDecoder.MaskLineMasks | src/main.rs:53-62 | a mask line succeeds iff its `1`/`X` fit, else it gives `PositionOverflow`; then `true_mask` bits are the `1` positions and the floating list has one entry per `X`, exactly the `X` bits, decreasing; memory is kept |
| AddressDecoder.MaskForgets | src/main.rs:54-55 | the mask and floating list after a mask line do not depend on the state before it |
| AddressDecoder.WriteTargets | src/main.rs:63-83 | a memory line keeps the mask, stores the unchanged value at each target, adds the targets to the keys, and keeps every other address |
| AddressDecoder.TargetsExact | src/main.rs:64-83 | there are 2^N targets, and an address is one iff it has `address | true_mask`'s bits outside the floating positions |
| AddressDecoder.PatternTargets | src/main.rs:56-83 | in pattern terms there are 2^(number of X) targets: bit 1 under a `1`, the address bit under a `0` or where the pattern is silent, and any bit under an `X` |
| AddressDecoder.NoFloatingWrite | src/main.rs:64-83 | with no floating position the write goes to exactly `address | true_mask` |
| AddressDecoder.LastWriteWins | src/main.rs:80-83 | two writes to one address under the same mask leave what the second write alone would |
| AddressDecoder.ErrorPersists | src/main.rs:85 | once a prefix of the lines aborts, the whole run aborts with the same error |
| AddressDecoder.RejectedLineAborts | src/main.rs:84-86 | a line that does not parse makes the run and the answer abort |
| Examples.Input1Spelling | src/main.rs:95-96 | the first test input, line by line |
| Examples.Example1 | src/main.rs:99-102 | part one answers 165 on the first test input |
| Examples.Input2Spelling | src/main.rs:97 | the second test input, line by line |
| Examples.Example2 | src/main.rs:105-108 | part two answers 208 on the second test input |

## Left out

- The regular-expression engine. Both line patterns are recognised by hand-written functions (`Parse`, `ParseMem`), anchored as `^…$`.
  - Rust's `\d` also accepts non-ASCII decimal digits; such a field then fails `parse::<u64>` and panics. The model accepts ASCII digits only and refuses such a line as `BadLine`, so the run aborts in both.
- `str::lines()`. The input is given as a sequence of lines without their line terminators.
- `main`, reading `input.txt`, and `println!`. They are I/O.
- The iteration order of `HashMap`. The sum is proved not to depend on it (`SumRemove`).
  - The summation loop picks keys in an arbitrary order. Whether some partial sum overflows does not depend on that order, because the partial sums only grow.
- Release builds, where arithmetic wraps around instead of panicking. Only the checked (debug) behaviour is modelled.
- The counter `i` of part two is an unbounded `nat`, and its bit test is arithmetic (`CounterBit`). `2u64.pow(N)` and the shifts cannot overflow, because a run never holds more than 36 floating positions (`RunValid`).
- Stored memory values are `nat`; each is a `u64` by construction.
- Memory keys are `Address` values wrapping a `bv64`.
