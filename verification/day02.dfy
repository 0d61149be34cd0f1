/** Day 2: a report is a list of levels; it is safe when the levels move in
    one direction by 1 to 3 at every step, and "dampened" safe when removing
    at most one level makes it safe (day02/src/lib.rs). */
module Day02 {
  import opened Wrappers
  import opened Text

  datatype Direction = Increasing | Decreasing

  datatype Report = Report(levels: seq<int>)

  /** `Report::from_str`: the whitespace-separated tokens that parse as
      `i64`, in order; tokens that do not parse are dropped (see
      `ParseReportOfWords` and `Text.ParsedI64sAppend`). */
  function ParseReport(s: string): (r: Report)
    ensures |r.levels| <= |Words(s)|
    ensures forall i | 0 <= i < |r.levels| :: I64Min <= r.levels[i] <= I64Max
  {
    Report(ParsedI64s(Words(s)))
  }

  /** Tokens written with single spaces between them come back as the
      values of those that read as `i64`, in order. */
  lemma ParseReportOfWords(tokens: seq<string>)
    requires forall i | 0 <= i < |tokens| :: 0 < |tokens[i]| && NoWhitespace(tokens[i])
    ensures ParseReport(Unwords(tokens)).levels == ParsedI64s(tokens)
  {
    WordsUnwords(tokens);
  }

  /** "1 x 3": the token that is not a number is dropped, the others kept. */
  lemma ExampleReportDropsToken()
    ensures ParseReport("1 x 3").levels == [1, 3]
  {
    assert Unwords(["1", "x", "3"]) == "1 x 3";
    ParseReportOfWords(["1", "x", "3"]);
    ExampleTokensFiltered();
  }

  lemma ExampleTokensFiltered()
    ensures ParsedI64s(["1", "x", "3"]) == [1, 3]
  {
    ExampleTokenValues();
    ParsedI64sOne("3");
    assert ["x", "3"][1..] == ["3"];
    assert ParsedI64s(["x", "3"]) == [3];
    assert ["1", "x", "3"][1..] == ["x", "3"];
  }

  lemma ExampleTokenValues()
    ensures ParseI64("1") == Some(1) && ParseI64("3") == Some(3) && ParseI64("x") == None
  {
    assert DecimalValue("1") == 1 && DecimalValue("3") == 3;
    assert !IsDigit('x');
  }

  /** The levels rendered in decimal and separated by spaces. */
  function ShowLevels(levels: seq<int>): string {
    Unwords(seq(|levels|, i requires 0 <= i < |levels| => ShowInt(levels[i])))
  }

  /** Round trip: a report written out with single spaces parses back to the
      same levels. */
  lemma ParseReportRoundTrip(levels: seq<int>)
    requires forall i | 0 <= i < |levels| :: I64Min <= levels[i] <= I64Max
    ensures ParseReport(ShowLevels(levels)).levels == levels
  {
    var tokens := seq(|levels|, i requires 0 <= i < |levels| => ShowInt(levels[i]));
    WordsUnwords(tokens);
    forall i | 0 <= i < |tokens| ensures ParseI64(tokens[i]) == Some(levels[i]) {
      ParseI64ShowInt(levels[i]);
    }
  }

  /** One pass of the `windows(2)` loop in `levels_are_safe`, from window `i`
      on, with the direction of the previous window. */
  function SafeFrom(levels: seq<int>, i: nat, previous: Option<Direction>): bool
    decreases |levels| - i
  {
    if i + 1 >= |levels| then true
    else
      var diff := levels[i + 1] - levels[i];
      var direction := if diff >= 0 then Increasing else Decreasing;
      if !(1 <= Abs(diff) <= 3) then false
      else if previous.Some? && direction != previous.value then false
      else SafeFrom(levels, i + 1, Some(direction))
  }

  /** Every step from window `i` on lies in `lo..=hi`. */
  predicate StepsWithin(levels: seq<int>, i: nat, lo: int, hi: int) {
    forall j | i <= j < |levels| - 1 :: lo <= levels[j + 1] - levels[j] <= hi
  }

  /** The safety rule stated directly: all steps rise by 1 to 3, or all fall
      by 1 to 3. */
  predicate SafeLevels(levels: seq<int>) {
    StepsWithin(levels, 0, 1, 3) || StepsWithin(levels, 0, -3, -1)
  }

  lemma {:induction false} SafeFromMeaning(levels: seq<int>, i: nat, previous: Option<Direction>)
    ensures previous == None ==>
              (SafeFrom(levels, i, previous) <==> StepsWithin(levels, i, 1, 3) || StepsWithin(levels, i, -3, -1))
    ensures previous == Some(Increasing) ==> (SafeFrom(levels, i, previous) <==> StepsWithin(levels, i, 1, 3))
    ensures previous == Some(Decreasing) ==> (SafeFrom(levels, i, previous) <==> StepsWithin(levels, i, -3, -1))
    decreases |levels| - i
  {
    if i + 1 < |levels| {
      var diff := levels[i + 1] - levels[i];
      var direction := if diff >= 0 then Increasing else Decreasing;
      SafeFromMeaning(levels, i + 1, Some(direction));
      StepsWithinFirst(levels, i, 1, 3);
      StepsWithinFirst(levels, i, -3, -1);
    }
  }

  /** The steps from window `i` on lie in `lo..=hi` exactly when step `i`
      does and the steps after it do. */
  lemma StepsWithinFirst(levels: seq<int>, i: nat, lo: int, hi: int)
    requires i + 1 < |levels|
    ensures StepsWithin(levels, i, lo, hi) <==>
              lo <= levels[i + 1] - levels[i] <= hi && StepsWithin(levels, i + 1, lo, hi)
  {
  }

  /** `levels_are_safe`: the loop agrees with the direct rule. */
  function LevelsAreSafe(levels: seq<int>): (safe: bool)
    ensures safe <==> SafeLevels(levels)
  {
    SafeFromMeaning(levels, 0, None);
    SafeFrom(levels, 0, None)
  }

  /** Reports with fewer than two levels are safe. */
  lemma ShortReportsAreSafe(levels: seq<int>)
    requires |levels| <= 1
    ensures LevelsAreSafe(levels)
  {
  }

  /** One step outside 1..=3 in absolute value makes a report unsafe. */
  lemma BadStepIsUnsafe(levels: seq<int>, j: nat)
    requires j + 1 < |levels|
    requires !(1 <= Abs(levels[j + 1] - levels[j]) <= 3)
    ensures !LevelsAreSafe(levels)
  {
  }

  /** A rise followed anywhere later by a fall (or the reverse) makes a
      report unsafe. */
  lemma DirectionChangeIsUnsafe(levels: seq<int>, j: nat, k: nat)
    requires j + 1 < |levels| && k + 1 < |levels|
    requires levels[j + 1] - levels[j] > 0 && levels[k + 1] - levels[k] < 0
    ensures !LevelsAreSafe(levels)
  {
  }

  function Remove(levels: seq<int>, i: nat): (r: seq<int>)
    requires i < |levels|
    ensures |r| == |levels| - 1
  {
    levels[..i] + levels[i + 1..]
  }

  /** The `for i in 0..len` loop of `is_safe_dampened`, from `i` on. */
  function SafeAfterRemovalFrom(levels: seq<int>, i: nat): (found: bool)
    ensures found <==> exists j | i <= j < |levels| :: LevelsAreSafe(Remove(levels, j))
    decreases |levels| - i
  {
    if i >= |levels| then false
    else if LevelsAreSafe(Remove(levels, i)) then true
    else SafeAfterRemovalFrom(levels, i + 1)
  }

  /** `is_safe_dampened`: safe as it is, or safe once some single level is
      removed. */
  function IsSafeDampened(levels: seq<int>): (safe: bool)
    ensures safe <==> LevelsAreSafe(levels) || exists j | 0 <= j < |levels| :: LevelsAreSafe(Remove(levels, j))
  {
    if LevelsAreSafe(levels) then true else SafeAfterRemovalFrom(levels, 0)
  }

  /** The dampener only ever helps: a safe report is a dampened-safe one. */
  lemma SafeIsSafeDampened(levels: seq<int>)
    requires LevelsAreSafe(levels)
    ensures IsSafeDampened(levels)
  {
  }

  /** `count_safe_reports`. */
  function CountSafeReports(reports: seq<Report>): (n: nat)
    ensures n <= |reports|
    ensures n == |reports| <==> forall i | 0 <= i < |reports| :: LevelsAreSafe(reports[i].levels)
    ensures n == 0 <==> forall i | 0 <= i < |reports| :: !LevelsAreSafe(reports[i].levels)
  {
    if |reports| == 0 then 0
    else (if LevelsAreSafe(reports[0].levels) then 1 else 0) + CountSafeReports(reports[1..])
  }

  /** `count_safe_reports2`. */
  function CountSafeReportsDampened(reports: seq<Report>): (n: nat)
    ensures n <= |reports|
    ensures n == |reports| <==> forall i | 0 <= i < |reports| :: IsSafeDampened(reports[i].levels)
    ensures n == 0 <==> forall i | 0 <= i < |reports| :: !IsSafeDampened(reports[i].levels)
  {
    if |reports| == 0 then 0
    else (if IsSafeDampened(reports[0].levels) then 1 else 0) + CountSafeReportsDampened(reports[1..])
  }

  /** Counting a list in two parts adds the two counts: each report
      counts once, on its own. */
  lemma {:induction false} CountSafeReportsAppend(a: seq<Report>, b: seq<Report>)
    ensures CountSafeReports(a + b) == CountSafeReports(a) + CountSafeReports(b)
  {
    if |a| != 0 {
      assert (a + b)[1..] == a[1..] + b;
      CountSafeReportsAppend(a[1..], b);
    } else {
      assert a + b == b;
    }
  }

  /** The dampened count is additive in the same way. */
  lemma {:induction false} CountSafeReportsDampenedAppend(a: seq<Report>, b: seq<Report>)
    ensures CountSafeReportsDampened(a + b) == CountSafeReportsDampened(a) + CountSafeReportsDampened(b)
  {
    if |a| != 0 {
      assert (a + b)[1..] == a[1..] + b;
      CountSafeReportsDampenedAppend(a[1..], b);
    } else {
      assert a + b == b;
    }
  }

  /** The dampened count is never below the plain one. */
  lemma {:induction false} DampenedCountDominates(reports: seq<Report>)
    ensures CountSafeReports(reports) <= CountSafeReportsDampened(reports)
  {
    if |reports| != 0 {
      if LevelsAreSafe(reports[0].levels) {
        SafeIsSafeDampened(reports[0].levels);
      }
      DampenedCountDominates(reports[1..]);
    }
  }

  /** The two reports of the unit test: "7 6 4 2 1" is safe, "1 3 2 4 5" is not. */
  lemma ExampleReports()
    ensures LevelsAreSafe([7, 6, 4, 2, 1])
    ensures !LevelsAreSafe([1, 3, 2, 4, 5])
  {
    DirectionChangeIsUnsafe([1, 3, 2, 4, 5], 0, 1);
  }

  /** The text "7 6 4 2 1" is exactly the written-out form of those levels. */
  lemma ExampleReportText()
    ensures ParseReport("7 6 4 2 1").levels == [7, 6, 4, 2, 1]
  {
    ExampleShowLevels();
    ParseReportRoundTrip([7, 6, 4, 2, 1]);
  }

  lemma ExampleShowLevels()
    ensures ShowLevels([7, 6, 4, 2, 1]) == "7 6 4 2 1"
  {
    var levels := [7, 6, 4, 2, 1];
    var tokens := seq(|levels|, i requires 0 <= i < |levels| => ShowInt(levels[i]));
    forall i | 0 <= i < |levels|
      ensures tokens[i] == [DigitChar(levels[i])]
    {
      ShowSmall(levels[i]);
    }
    assert DigitChar(7) == '7' && DigitChar(6) == '6' && DigitChar(4) == '4';
    assert DigitChar(2) == '2' && DigitChar(1) == '1';
    assert tokens == ["7", "6", "4", "2", "1"];
    ExampleUnwords();
  }

  lemma ShowSmall(d: int)
    requires 0 <= d < 10
    ensures ShowInt(d) == [DigitChar(d)]
  {
  }

  lemma ExampleUnwords()
    ensures Unwords(["7", "6", "4", "2", "1"]) == "7 6 4 2 1"
  {
    assert Unwords(["2", "1"]) == "2 1";
    assert Unwords(["4", "2", "1"]) == "4 2 1";
    assert Unwords(["6", "4", "2", "1"]) == "6 4 2 1";
  }
}
