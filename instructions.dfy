/**
 * The instruction lines of the decoder and their recognition.
 *
 * A line is a mask line `mask = ` followed by one or more of `X`, `1`, `0`,
 * or a memory line `mem[<digits>] = <digits>`; anything else aborts the run.
 * The two recognisers are written out by hand over the characters of the line.
 */
module Instructions {

  datatype Instruction =
    | Mask(pattern: string)
    | Mem(address: U64, value: U64)

  /** Why a run aborts. Each abort of the program is one of these. */
  datatype Error =
    | BadLine(line: string)          // the line matches neither pattern
    | BadNumber(line: string)        // a decimal field does not fit in a u64
    | PositionOverflow(line: string) // `35 - idx` underflows on a mask longer than 36 symbols
    | SumOverflow                    // the sum of the memory values does not fit in a u64

  datatype Option<T> = None | Some(value: T)

  datatype Result<T> = Ok(value: T) | Err(error: Error)

  /** 2^64: the u64 values are those below it. */
  const U64_LIMIT: nat := 0x1_0000_0000_0000_0000

  /** A Rust `u64`, as the number it denotes. */
  type U64 = n: nat | n < U64_LIMIT

  predicate IsMaskSymbol(c: char) {
    c == 'X' || c == '1' || c == '0'
  }

  /** The text the mask pattern `[X10]+` accepts. */
  predicate IsMaskText(p: string) {
    |p| > 0 && forall i :: 0 <= i < |p| ==> IsMaskSymbol(p[i])
  }

  predicate IsDigit(c: char) {
    '0' <= c <= '9'
  }

  predicate AllDigits(s: string) {
    forall i :: 0 <= i < |s| ==> IsDigit(s[i])
  }

  /** The text the pattern `\d+` accepts (ASCII digits). */
  predicate IsDigits(s: string) {
    |s| > 0 && AllDigits(s)
  }

  /** The number a string of decimal digits denotes (leading zeros allowed). */
  function DecimalValue(s: string): (n: nat)
    requires AllDigits(s)
    decreases |s|
  {
    if |s| == 0 then 0
    else 10 * DecimalValue(s[..|s| - 1]) + ((s[|s| - 1] as int) - ('0' as int))
  }

  /** The shortest decimal spelling of `n`. */
  function Decimal(n: nat): (s: string)
    ensures IsDigits(s)
    decreases n
  {
    (if n < 10 then [] else Decimal(n / 10)) + [(('0' as int) + n % 10) as char]
  }

  lemma {:induction false} DecimalRoundTrip(n: nat)
    ensures DecimalValue(Decimal(n)) == n
    decreases n
  {
    var s := Decimal(n);
    var front := if n < 10 then [] else Decimal(n / 10);
    assert s[..|s| - 1] == front;
    if n >= 10 {
      DecimalRoundTrip(n / 10);
    }
  }

  /** Rust's `str::parse::<u64>` on a string of digits. */
  function ParseU64(digits: string): (r: Option<U64>)
    requires AllDigits(digits)
  {
    var n := DecimalValue(digits);
    if n < U64_LIMIT then Some(n) else None
  }

  /** The length of the longest run of digits at the start of `s`. */
  function DigitRun(s: string): (n: nat)
    ensures n <= |s| && AllDigits(s[..n])
    ensures n < |s| ==> !IsDigit(s[n])
    decreases |s|
  {
    if |s| > 0 && IsDigit(s[0]) then
      var m := DigitRun(s[1..]);
      assert s[..m + 1] == [s[0]] + s[1..][..m];
      m + 1
    else 0
  }

  function MaskLine(p: string): (line: string) {
    "mask = " + p
  }

  function MemLine(address: string, value: string): (line: string) {
    "mem[" + address + "] = " + value
  }

  /** Recognise one line, as the two anchored regular expressions do. */
  function Parse(line: string): (r: Result<Instruction>)
    ensures r.Err? ==> r.error == BadLine(line) || r.error == BadNumber(line)
  {
    if |line| >= 7 && line[..7] == "mask = " && IsMaskText(line[7..]) then
      Ok(Mask(line[7..]))
    else if |line| >= 4 && line[..4] == "mem[" then
      ParseMem(line)
    else
      Err(BadLine(line))
  }

  function ParseMem(line: string): (r: Result<Instruction>)
    requires |line| >= 4
    ensures r.Ok? ==> r.value.Mem?
    ensures r.Err? ==> r.error == BadLine(line) || r.error == BadNumber(line)
  {
    var rest := line[4..];
    var n := DigitRun(rest);
    if 0 < n && n + 4 < |rest| && rest[n..n + 4] == "] = " && AllDigits(rest[n + 4..]) then
      match (ParseU64(rest[..n]), ParseU64(rest[n + 4..]))
      case (Some(address), Some(value)) => Ok(Mem(address, value))
      case _ => Err(BadNumber(line))
    else
      Err(BadLine(line))
  }

  /** Every well-formed mask line is recognised, with its pattern. */
  lemma ParseMaskLine(p: string)
    requires IsMaskText(p)
    ensures Parse(MaskLine(p)) == Ok(Mask(p))
  {
    var line := MaskLine(p);
    assert line[..7] == "mask = ";
    assert line[7..] == p;
  }

  lemma {:induction false} DigitRunAfterDigits(d: string, s: string)
    requires AllDigits(d)
    requires |s| > 0 && !IsDigit(s[0])
    ensures DigitRun(d + s) == |d|
    decreases |d|
  {
    if |d| > 0 {
      assert (d + s)[1..] == d[1..] + s;
      DigitRunAfterDigits(d[1..], s);
    }
  }

  /** The fields after `mem[` of a memory line, as the recogniser splits them. */
  lemma MemFields(rest: string, address: string, value: string)
    requires IsDigits(address) && IsDigits(value)
    requires rest == address + ("] = " + value)
    ensures DigitRun(rest) == |address| && |address| + 4 < |rest|
    ensures rest[..|address|] == address
    ensures rest[|address|..|address| + 4] == "] = "
    ensures rest[|address| + 4..] == value
  {
    DigitRunAfterDigits(address, "] = " + value);
    var n := |address|;
    assert rest[n..] == "] = " + value;
    assert rest[n..n + 4] == rest[n..][..4];
  }

  /** A memory line starts with `mem[` and is not a mask line. */
  lemma MemLineStart(address: string, value: string)
    ensures |MemLine(address, value)| >= 7 && MemLine(address, value)[..4] == "mem["
    ensures MemLine(address, value)[..7] != "mask = "
    ensures MemLine(address, value)[4..] == address + ("] = " + value)
  {
    var line := MemLine(address, value);
    assert line[1] == 'e';
  }

  /** Every well-formed memory line is recognised; its numbers are read as u64 or the line is refused. */
  lemma ParseMemLine(address: string, value: string)
    requires IsDigits(address) && IsDigits(value)
    ensures Parse(MemLine(address, value)) ==
      if DecimalValue(address) < U64_LIMIT && DecimalValue(value) < U64_LIMIT
      then Ok(Mem(DecimalValue(address), DecimalValue(value)))
      else Err(BadNumber(MemLine(address, value)))
  {
    MemLineStart(address, value);
    MemFields(MemLine(address, value)[4..], address, value);
  }

  /** A recognised mask line is `mask = ` followed by its pattern. */
  lemma ParseMaskSound(line: string)
    requires Parse(line).Ok? && Parse(line).value.Mask?
    ensures IsMaskText(Parse(line).value.pattern)
    ensures line == MaskLine(Parse(line).value.pattern)
  {
    assert line == line[..7] + line[7..];
  }

  /** A line the memory recogniser accepts, or refuses only for its numbers, has the memory fields. */
  lemma MemSplit(line: string) returns (address: string, value: string)
    requires |line| >= 4 && line[..4] == "mem[" && ParseMem(line) != Err(BadLine(line))
    ensures IsDigits(address) && IsDigits(value)
    ensures line == MemLine(address, value)
    ensures ParseMem(line).Ok? ==>
      ParseMem(line).value.address == DecimalValue(address) &&
      ParseMem(line).value.value == DecimalValue(value)
  {
    var rest := line[4..];
    var n := DigitRun(rest);
    address, value := rest[..n], rest[n + 4..];
    assert rest == address + rest[n..n + 4] + value;
    assert line == line[..4] + rest;
  }

  /** A line recognised as a memory line (or refused for its numbers) is spelled as one. */
  lemma ParseMemSound(line: string) returns (address: string, value: string)
    requires Parse(line) == Err(BadNumber(line)) || (Parse(line).Ok? && Parse(line).value.Mem?)
    ensures IsDigits(address) && IsDigits(value)
    ensures line == MemLine(address, value)
    ensures Parse(line).Ok? ==>
      Parse(line).value.address == DecimalValue(address) &&
      Parse(line).value.value == DecimalValue(value)
  {
    assert |line| >= 4 && line[..4] == "mem[" && Parse(line) == ParseMem(line);
    address, value := MemSplit(line);
  }

  ghost predicate IsMaskLineText(line: string) {
    exists p :: IsMaskText(p) && line == MaskLine(p)
  }

  ghost predicate IsMemLineText(line: string) {
    exists address, value :: IsDigits(address) && IsDigits(value) && line == MemLine(address, value)
  }

  /** A line is refused as a bad line exactly when it is spelled as neither kind of line. */
  lemma ParseRejects(line: string)
    ensures Parse(line) == Err(BadLine(line)) <==> !IsMaskLineText(line) && !IsMemLineText(line)
  {
    if IsMaskLineText(line) {
      var p :| IsMaskText(p) && line == MaskLine(p);
      ParseMaskLine(p);
    }
    if IsMemLineText(line) {
      var address, value :| IsDigits(address) && IsDigits(value) && line == MemLine(address, value);
      ParseMemLine(address, value);
    }
    var r := Parse(line);
    if r.Ok? && r.value.Mask? {
      ParseMaskSound(line);
    } else if r != Err(BadLine(line)) {
      var address, value := ParseMemSound(line);
    }
  }

  /** The line an instruction is written as. */
  function Format(i: Instruction): (line: string) {
    match i
    case Mask(p) => MaskLine(p)
    case Mem(address, value) => MemLine(Decimal(address), Decimal(value))
  }

  /** Parsing inverts formatting. */
  lemma ParseFormat(i: Instruction)
    requires i.Mask? ==> IsMaskText(i.pattern)
    ensures Parse(Format(i)) == Ok(i)
  {
    match i
    case Mask(p) =>
      ParseMaskLine(p);
    case Mem(address, value) =>
      DecimalRoundTrip(address as int);
      DecimalRoundTrip(value as int);
      ParseMemLine(Decimal(address), Decimal(value));
  }
}
