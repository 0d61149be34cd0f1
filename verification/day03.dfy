/** Day 3: scan corrupted memory for `mul(a,b)`, `do()` and `don't()`
    instructions and add up the products, either all of them or only those
    not switched off by a preceding `don't()` (day03/src/lib.rs). */
module Day03 {
  import opened Wrappers
  import opened Text

  datatype Instruction = Mul(left: nat, right: nat) | Do | Dont

  datatype InstructionResult = Product(value: nat) | Enable | Disable

  /** What nom's parsers return: the unconsumed rest and the value. */
  type Parsed = Option<(string, Instruction)>

  /** The text a `mul` instruction is written as, with numbers in their
      shortest form. */
  function ShowMul(a: nat, b: nat): string {
    "mul(" + (ShowNat(a) + ("," + (ShowNat(b) + ")")))
  }

  /** `mul_instruction`: the tag `mul(`, a `u64`, the tag `,`, a `u64`, the
      tag `)`. */
  function MulInstruction(s: string): (r: Parsed)
    ensures r.Some? ==> StartsWith(s, "mul(") && r.value.1.Mul?
    ensures r.Some? ==> r.value.1.left <= U64Max && r.value.1.right <= U64Max
    ensures r.Some? ==> |r.value.0| + 8 <= |s|
    ensures r.Some? ==>
              exists d1, d2 :: WrittenMul(s, d1, d2, r.value.0)
                && r.value.1 == Mul(DecimalValue(d1), DecimalValue(d2))
  {
    match Tag(s, "mul(")
    case None => None
    case Some(s1) =>
      match ParseUnsigned(s1, U64Max)
      case None => None
      case Some((a, s2)) =>
        match Tag(s2, ",")
        case None => None
        case Some(s3) =>
          match ParseUnsigned(s3, U64Max)
          case None => None
          case Some((b, s4)) =>
            match Tag(s4, ")")
            case None => None
            case Some(rest) =>
              assert |s1| == |s| - 4 && |s3| == |s2| - 1 && |rest| == |s4| - 1;
              ConsumedThenRest(s1, s2);
              ConsumedThenRest(s3, s4);
              WrittenMulOfPieces(s, s1, s1[..|s1| - |s2|], s3, s3[..|s3| - |s4|], rest);
              Some((rest, Mul(a, b)))
  }

  /** Regrouping a nested concatenation with what follows it. */
  lemma AppendNested<T>(p: seq<T>, x: seq<T>, q: seq<T>, y: seq<T>, r: seq<T>, rest: seq<T>)
    ensures (p + (x + (q + (y + r)))) + rest == p + (x + (q + (y + (r + rest))))
  {
  }

  /** Round trip: a written-out `mul` is read back, whatever follows it. */
  lemma MulInstructionRoundTrip(a: nat, b: nat, rest: string)
    requires a <= U64Max && b <= U64Max
    ensures MulInstruction(ShowMul(a, b) + rest) == Some((rest, Mul(a, b)))
  {
    AppendNested("mul(", ShowNat(a), ",", ShowNat(b), ")", rest);
    MulInstructionAccepts(ShowNat(a), ShowNat(b), rest);
  }

  /** `s` is the text `mul(d1,d2)` followed by `rest`, for non-empty digit
      runs `d1` and `d2`; leading zeros are allowed. */
  predicate WrittenMul(s: string, d1: string, d2: string, rest: string) {
    && 0 < |d1| && 0 < |d2| && AllDigits(d1) && AllDigits(d2)
    && s == "mul(" + (d1 + ("," + (d2 + (")" + rest))))
  }

  /** Every text of the form `mul(d1,d2)` with `u64` values is accepted,
      leading zeros included, and read as the values of the two runs. */
  lemma MulInstructionAccepts(d1: string, d2: string, rest: string)
    requires 0 < |d1| && 0 < |d2| && AllDigits(d1) && AllDigits(d2)
    requires DecimalValue(d1) <= U64Max && DecimalValue(d2) <= U64Max
    ensures MulInstruction("mul(" + (d1 + ("," + (d2 + (")" + rest)))))
            == Some((rest, Mul(DecimalValue(d1), DecimalValue(d2))))
  {
    var s4 := ")" + rest;
    var s3 := d2 + s4;
    var s2 := "," + s3;
    var s1 := d1 + s2;
    TagAppend("mul(", s1);
    DigitRunAppend(d1, s2);
    assert s1[|d1|..] == s2;
    TagAppend(",", s3);
    DigitRunAppend(d2, s4);
    assert s3[|d2|..] == s4;
    TagAppend(")", rest);
  }

  /** The pieces `mul_instruction` takes apart, put back together. */
  lemma WrittenMulOfPieces(s: string, s1: string, d1: string, s3: string, d2: string, rest: string)
    requires 0 < |d1| && 0 < |d2| && AllDigits(d1) && AllDigits(d2)
    requires s == "mul(" + s1 && s1 == d1 + ("," + s3) && s3 == d2 + (")" + rest)
    ensures WrittenMul(s, d1, d2, rest)
  {
  }

  /** `mul_instruction` accepts exactly the texts `mul(d1,d2)` whose two
      digit runs are worth at most `u64::MAX`. */
  lemma MulInstructionGrammar(s: string)
    ensures MulInstruction(s).Some? <==>
              exists d1, d2, rest :: WrittenMul(s, d1, d2, rest)
                && DecimalValue(d1) <= U64Max && DecimalValue(d2) <= U64Max
  {
    if exists d1, d2, rest :: WrittenMul(s, d1, d2, rest)
         && DecimalValue(d1) <= U64Max && DecimalValue(d2) <= U64Max {
      var d1, d2, rest :| WrittenMul(s, d1, d2, rest)
                && DecimalValue(d1) <= U64Max && DecimalValue(d2) <= U64Max;
      MulInstructionAccepts(d1, d2, rest);
    }
  }

  /** Leading zeros are read as nom reads them: `mul(01,2)` is `Mul(1, 2)`. */
  lemma ExampleLeadingZero(s: string)
    requires s == "mul(01,2)"
    ensures MulInstruction(s) == Some(("", Mul(1, 2)))
  {
    var d1, d2 := "01", "2";
    assert DecimalValue(d1) == 1 && DecimalValue(d2) == 2;
    assert s == "mul(" + (d1 + ("," + (d2 + (")" + ""))));
    MulInstructionAccepts(d1, d2, "");
  }

  /** `do_instruction`: exactly the tag `do()`. */
  function DoInstruction(s: string): (r: Parsed)
    ensures r.Some? <==> StartsWith(s, "do()")
    ensures r.Some? ==> r.value.1 == Do && s == "do()" + r.value.0
  {
    match Tag(s, "do()")
    case Some(rest) => Some((rest, Do))
    case None => None
  }

  /** `dont_instruction`: exactly the tag `don't()`. */
  function DontInstruction(s: string): (r: Parsed)
    ensures r.Some? <==> StartsWith(s, "don't()")
    ensures r.Some? ==> r.value.1 == Dont && s == "don't()" + r.value.0
  {
    match Tag(s, "don't()")
    case Some(rest) => Some((rest, Dont))
    case None => None
  }

  /** `alt((mul_instruction, do_instruction, dont_instruction))`. */
  function AnyInstruction(s: string): (r: Parsed)
    ensures r.Some? ==> |r.value.0| < |s|
    ensures r.Some? && r.value.1.Mul? ==> r.value.1.left <= U64Max && r.value.1.right <= U64Max
  {
    match MulInstruction(s)
    case Some(p) => Some(p)
    case None =>
      match DoInstruction(s)
      case Some(p) => Some(p)
      case None => DontInstruction(s)
  }

  /** The three instruction forms never compete for the same text, so the
      order of the alternatives does not matter. */
  lemma AlternativesAreExclusive(s: string)
    ensures !(MulInstruction(s).Some? && DoInstruction(s).Some?)
    ensures !(MulInstruction(s).Some? && DontInstruction(s).Some?)
    ensures !(DoInstruction(s).Some? && DontInstruction(s).Some?)
  {
    if MulInstruction(s).Some? {
      assert s[0] == s[..4][0] == 'm';
    }
    if DoInstruction(s).Some? {
      assert s[2] == s[..4][2] == '(';
    }
  }

  /** The `many1(many_till(anychar, instruction))` scan: at each position
      try an instruction; on success keep it and continue after it,
      otherwise skip one character. */
  function Scan(s: string): seq<Instruction>
    decreases |s|
  {
    if |s| == 0 then []
    else
      match AnyInstruction(s)
      case Some((rest, ins)) => [ins] + Scan(rest)
      case None => Scan(s[1..])
  }

  /** `parse_instructions`; `None` stands for the panic of its `unwrap`
      when the input holds no instruction at all. */
  function ParseInstructions(s: string): (r: Option<seq<Instruction>>)
    ensures r.Some? <==> |Scan(s)| > 0
    ensures r.Some? ==> r.value == Scan(s)
    ensures r.None? <==> forall i | 0 <= i < |s| :: AnyInstruction(s[i..]).None?
    ensures r.Some? ==> FitsU64(r.value)
  {
    ScanFindsNothing(s);
    ScanFits(s);
    var found := Scan(s);
    if |found| == 0 then None else Some(found)
  }

  /** The scan comes back empty exactly when no instruction starts anywhere
      in the text. */
  lemma {:induction false} ScanFindsNothing(s: string)
    ensures |Scan(s)| == 0 <==> forall i | 0 <= i < |s| :: AnyInstruction(s[i..]).None?
    decreases |s|
  {
    if |s| != 0 {
      assert s[0..] == s;
      if AnyInstruction(s).None? {
        ScanFindsNothing(s[1..]);
        forall i | 1 <= i < |s| ensures s[i..] == s[1..][i - 1..] { }
      }
    }
  }

  /** Every number the scan reads fits in a `u64`. */
  lemma {:induction false} ScanFits(s: string)
    ensures FitsU64(Scan(s))
    decreases |s|
  {
    if |s| != 0 {
      match AnyInstruction(s)
      case Some((rest, ins)) =>
        ScanFits(rest);
        FitsCons(ins, Scan(rest));
      case None =>
        ScanFits(s[1..]);
    }
  }

  /** An instruction written out, with numbers in shortest form. */
  function ShowInstruction(ins: Instruction): string {
    match ins
    case Mul(a, b) => ShowMul(a, b)
    case Do => "do()"
    case Dont => "don't()"
  }

  function ShowProgram(program: seq<Instruction>): string {
    if |program| == 0 then "" else ShowInstruction(program[0]) + ShowProgram(program[1..])
  }

  predicate FitsU64(program: seq<Instruction>) {
    forall i | 0 <= i < |program| :: program[i].Mul? ==> program[i].left <= U64Max && program[i].right <= U64Max
  }

  /** Each written-out instruction is recognised by the alternative, and
      nothing after it is consumed. */
  lemma AnyInstructionRoundTrip(ins: Instruction, rest: string)
    requires ins.Mul? ==> ins.left <= U64Max && ins.right <= U64Max
    ensures AnyInstruction(ShowInstruction(ins) + rest) == Some((rest, ins))
  {
    var text := ShowInstruction(ins) + rest;
    match ins
    case Mul(a, b) =>
      MulInstructionRoundTrip(a, b, rest);
    case Do =>
      TagAppend("do()", rest);
      AlternativesAreExclusive(text);
    case Dont =>
      TagAppend("don't()", rest);
      AlternativesAreExclusive(text);
  }

  /** Round trip: the scan recovers a program from its written-out text, in
      order. */
  lemma {:induction false} ScanShowProgram(program: seq<Instruction>)
    requires FitsU64(program)
    ensures Scan(ShowProgram(program)) == program
  {
    if |program| != 0 {
      var rest := ShowProgram(program[1..]);
      AnyInstructionRoundTrip(program[0], rest);
      assert FitsU64(program[1..]) by {
        forall i | 0 <= i < |program[1..]| ensures program[1..][i] == program[i + 1] { }
      }
      ScanShowProgram(program[1..]);
      assert program == [program[0]] + program[1..];
    }
  }

  lemma FitsCons(ins: Instruction, program: seq<Instruction>)
    requires ins.Mul? ==> ins.left <= U64Max && ins.right <= U64Max
    requires FitsU64(program)
    ensures FitsU64([ins] + program)
  {
    var p := [ins] + program;
    forall i | 1 <= i < |p| ensures p[i] == program[i - 1] { }
  }

  /** Round trip: `parse_instructions` reads a written-out program back,
      when it holds at least one instruction. */
  lemma ParseInstructionsShow(program: seq<Instruction>)
    requires 0 < |program| && FitsU64(program)
    ensures ParseInstructions(ShowProgram(program)) == Some(program)
  {
    ScanShowProgram(program);
  }

  /** Characters other than `m` and `d` can start no instruction and are
      skipped. */
  lemma {:induction false} ScanSkipsNoise(noise: string, s: string)
    requires forall i | 0 <= i < |noise| :: noise[i] != 'm' && noise[i] != 'd'
    ensures Scan(noise + s) == Scan(s)
  {
    if |noise| == 0 {
      assert noise + s == s;
    } else {
      var t := noise + s;
      assert t[0] == noise[0];
      assert MulInstruction(t).None?;
      assert t[1..] == noise[1..] + s;
      ScanSkipsNoise(noise[1..], s);
    }
  }

  /** `Instruction::execute`. */
  function Execute(ins: Instruction): (r: InstructionResult)
    ensures ins.Mul? <==> r.Product?
    ensures ins.Mul? ==> r.value == ins.left * ins.right
    ensures ins == Do <==> r == Enable
  {
    match ins
    case Mul(a, b) => Product(a * b)
    case Do => Enable
    case Dont => Disable
  }

  /** `sum_mults`: keep the `Mul`s, execute them, add the products. */
  function SumMults(program: seq<Instruction>): nat {
    if |program| == 0 then 0
    else
      var head := if program[0].Mul? then Execute(program[0]).value else 0;
      head + SumMults(program[1..])
  }

  /** The sum over a program split in two is the sum of the sums: every
      `Mul` counts once, wherever it stands. */
  lemma {:induction false} SumMultsAppend(p: seq<Instruction>, q: seq<Instruction>)
    ensures SumMults(p + q) == SumMults(p) + SumMults(q)
  {
    if |p| == 0 {
      assert p + q == q;
    } else {
      assert (p + q)[1..] == p[1..] + q;
      SumMultsAppend(p[1..], q);
    }
  }

  /** The `for` loop of `sum_mults2` from a given on/off state. */
  function SumEnabled(program: seq<Instruction>, enabled: bool): nat {
    if |program| == 0 then 0
    else
      match Execute(program[0])
      case Product(p) => (if enabled then p else 0) + SumEnabled(program[1..], enabled)
      case Enable => SumEnabled(program[1..], true)
      case Disable => SumEnabled(program[1..], false)
  }

  /** `sum_mults2`: starts enabled. */
  function SumMultsConditional(program: seq<Instruction>): nat {
    SumEnabled(program, true)
  }

  /** Whether products are switched on after running `prefix`: the last
      `do()`/`don't()` in it decides, and "on" when there is none. */
  function EnabledAfter(prefix: seq<Instruction>): bool {
    if |prefix| == 0 then true
    else
      match prefix[|prefix| - 1]
      case Do => true
      case Dont => false
      case Mul(_, _) => EnabledAfter(prefix[..|prefix| - 1])
  }

  /** The conditional sum stated per instruction: the product of each `Mul`
      counts exactly when the last switch before it is not `don't()`. */
  function EnabledProducts(program: seq<Instruction>): nat {
    if |program| == 0 then 0
    else
      var k := |program| - 1;
      var last := program[k];
      EnabledProducts(program[..k])
      + (if last.Mul? && EnabledAfter(program[..k]) then last.left * last.right else 0)
  }

  lemma {:induction false} SumEnabledMeaning(prefix: seq<Instruction>, program: seq<Instruction>)
    ensures EnabledProducts(prefix) + SumEnabled(program, EnabledAfter(prefix)) == EnabledProducts(prefix + program)
    decreases |program|
  {
    if |program| == 0 {
      assert prefix + program == prefix;
    } else {
      var next := prefix + [program[0]];
      assert next[..|next| - 1] == prefix;
      assert next + program[1..] == prefix + program;
      SumEnabledMeaning(next, program[1..]);
    }
  }

  /** `sum_mults2` adds exactly the products that are switched on. */
  lemma SumMultsConditionalMeaning(program: seq<Instruction>)
    ensures SumMultsConditional(program) == EnabledProducts(program)
  {
    SumEnabledMeaning([], program);
    assert [] + program == program;
  }

  /** Without any `don't()`, both sums agree. */
  lemma {:induction false} NoDontSumsAgree(program: seq<Instruction>)
    requires forall i | 0 <= i < |program| :: program[i] != Dont
    ensures SumMultsConditional(program) == SumMults(program)
  {
    if |program| != 0 {
      assert forall i | 0 <= i < |program[1..]| :: program[1..][i] == program[i + 1];
      NoDontSumsAgree(program[1..]);
    }
  }

  /** Switching products off can only lower the sum. */
  lemma {:induction false} ConditionalSumAtMostFullSum(program: seq<Instruction>, enabled: bool)
    ensures SumEnabled(program, enabled) <= SumMults(program)
  {
    if |program| != 0 {
      ConditionalSumAtMostFullSum(program[1..], true);
      ConditionalSumAtMostFullSum(program[1..], false);
    }
  }

  /** The unit test of `mul_instruction`. */
  lemma ExampleMulParser()
    ensures MulInstruction("mul(1,2)q") == Some(("q", Mul(1, 2)))
  {
    ExampleMulText();
    MulInstructionRoundTrip(1, 2, "q");
  }

  /** The unit tests of `do_instruction` and `dont_instruction`. */
  lemma ExampleToggleParsers()
    ensures DoInstruction("do()124") == Some(("124", Do))
    ensures DontInstruction("don't()124") == Some(("124", Dont))
  {
    TagAppend("do()", "124");
    TagAppend("don't()", "124");
    assert "do()124" == "do()" + "124" && "don't()124" == "don't()" + "124";
  }

  lemma ExampleMulText()
    ensures ShowMul(1, 2) + "q" == "mul(1,2)q"
  {
    assert ShowNat(1) == "1" && ShowNat(2) == "2";
  }

  /** The sums of the two example programs: 161 over all four products, and
      48 once the `don't()` has switched off the middle two. */
  lemma ExampleSums()
    ensures SumMults([Mul(2, 4), Mul(5, 5), Mul(11, 8), Mul(8, 5)]) == 161
    ensures SumMultsConditional([Mul(2, 4), Dont, Mul(5, 5), Mul(11, 8), Do, Mul(8, 5)]) == 48
  {
    assert SumEnabled([Mul(8, 5)], true) == 40;
    assert SumEnabled([Do, Mul(8, 5)], false) == 40;
    assert SumEnabled([Mul(11, 8), Do, Mul(8, 5)], false) == 40;
    assert SumEnabled([Mul(5, 5), Mul(11, 8), Do, Mul(8, 5)], false) == 40;
    assert SumEnabled([Dont, Mul(5, 5), Mul(11, 8), Do, Mul(8, 5)], true) == 40;
    assert SumMults([Mul(8, 5)]) == 40;
    assert SumMults([Mul(11, 8), Mul(8, 5)]) == 128;
    assert SumMults([Mul(5, 5), Mul(11, 8), Mul(8, 5)]) == 153;
  }
}
