/** Day 1: two columns of location ids; the total distance pairs the
    smallest with the smallest, the second smallest with the second
    smallest, and so on, and adds up the absolute differences
    (day01/src/lib.rs). */
module Day01 {
  import opened Wrappers
  import opened Text
  import opened Sorting

  /** `parse_input_line`: the first two whitespace-separated tokens, both
      read as `i64`. `None` stands for the index panic the source hits when
      fewer than two of those tokens parse. */
  function ParseInputLine(line: string): (r: Option<(int, int)>)
    ensures r.Some? <==>
              var ws := Words(line);
              |ws| >= 2 && ParseI64(ws[0]).Some? && ParseI64(ws[1]).Some?
    ensures r.Some? ==>
              var ws := Words(line);
              |ws| >= 2 && ParseI64(ws[0]) == Some(r.value.0) && ParseI64(ws[1]) == Some(r.value.1)
  {
    var ws := Words(line);
    var ids := ParsedI64s(ws[..if |ws| < 2 then |ws| else 2]);
    if |ids| < 2 then None else Some((ids[0], ids[1]))
  }

  /** `parse_input`: one pair per line, split into the left and the right
      column (the per-line work is `ParseLines`); `None` when any line panics. */
  function ParseInput(input: string): (r: Option<(seq<int>, seq<int>)>)
    ensures r.Some? ==> |r.value.0| == |r.value.1| == |Lines(input)|
  {
    ParseLines(Lines(input))
  }

  /** The lines, mapped through `parse_input_line` and collected into two
      columns: defined exactly when every line parses, and then column entry
      `i` is the pair of line `i`. */
  function ParseLines(lines: seq<string>): (r: Option<(seq<int>, seq<int>)>)
    ensures r.Some? <==> forall i | 0 <= i < |lines| :: ParseInputLine(lines[i]).Some?
    ensures r.Some? ==> |r.value.0| == |r.value.1| == |lines|
    ensures r.Some? ==> forall i | 0 <= i < |lines| ::
                          ParseInputLine(lines[i]) == Some((r.value.0[i], r.value.1[i]))
  {
    var pairs := seq(|lines|, i requires 0 <= i < |lines| => ParseInputLine(lines[i]));
    assert forall i | 0 <= i < |lines| :: pairs[i] == ParseInputLine(lines[i]);
    Columns(pairs)
  }

  /** The `unzip` of the pairs, when every one of them is present. */
  function Columns(pairs: seq<Option<(int, int)>>): (r: Option<(seq<int>, seq<int>)>)
    ensures r.Some? <==> forall i | 0 <= i < |pairs| :: pairs[i].Some?
    ensures r.Some? ==> |r.value.0| == |r.value.1| == |pairs|
    ensures r.Some? ==> forall i | 0 <= i < |pairs| :: pairs[i] == Some((r.value.0[i], r.value.1[i]))
  {
    if |pairs| == 0 then Some(([], []))
    else
      var tail := Columns(pairs[1..]);
      if pairs[0].None? then None
      else if tail.None? then
        var j :| 0 <= j < |pairs[1..]| && pairs[1..][j].None?;
        assert pairs[j + 1].None?;
        None
      else
        var (a, b) := pairs[0].value;
        var r := ([a] + tail.value.0, [b] + tail.value.1);
        assert forall i | 1 <= i < |pairs| :: pairs[i] == pairs[1..][i - 1];
        Some(r)
  }

  /** Sum of `|left[i] - right[i]|` over the common indices. */
  function PairwiseDistance(left: seq<int>, right: seq<int>): nat
    requires |left| == |right|
  {
    if |left| == 0 then 0
    else Abs(left[0] - right[0]) + PairwiseDistance(left[1..], right[1..])
  }

  /** Two columns of the same length are 0 apart exactly when they are equal. */
  lemma {:induction false} PairwiseDistanceZero(left: seq<int>, right: seq<int>)
    requires |left| == |right|
    ensures PairwiseDistance(left, right) == 0 <==> left == right
  {
    if |left| != 0 {
      PairwiseDistanceZero(left[1..], right[1..]);
      if left[0] == right[0] && left[1..] == right[1..] {
        assert left == [left[0]] + left[1..] && right == [right[0]] + right[1..];
      }
    }
  }

  /** `total_distance` on the parsed columns: sort both, pair them up by
      position, add the absolute differences. The distance is 0 exactly
      when both columns hold the same ids the same number of times. */
  function TotalDistance(left: seq<int>, right: seq<int>): (d: nat)
    requires |left| == |right|
    ensures d == 0 <==> multiset(left) == multiset(right)
  {
    PairwiseDistanceZero(Sort(left), Sort(right));
    SameIdsSameSort(left, right);
    PairwiseDistance(Sort(left), Sort(right))
  }

  /** Two columns sort to the same list exactly when they hold the same ids. */
  lemma SameIdsSameSort(left: seq<int>, right: seq<int>)
    ensures Sort(left) == Sort(right) <==> multiset(left) == multiset(right)
  {
    if multiset(left) == multiset(right) {
      SortPermutationInvariant(left, right);
    }
  }

  /** Reordering either column does not change the total distance. */
  lemma TotalDistanceIgnoresOrder(left: seq<int>, right: seq<int>, left': seq<int>, right': seq<int>)
    requires |left| == |right|
    requires multiset(left) == multiset(left') && multiset(right) == multiset(right')
    ensures |left'| == |right'|
    ensures TotalDistance(left, right) == TotalDistance(left', right')
  {
    assert |left'| == |multiset(left')| == |multiset(left)| == |left|;
    assert |right'| == |multiset(right')| == |multiset(right)| == |right|;
    SortPermutationInvariant(left, left');
    SortPermutationInvariant(right, right');
  }

  /** `total_distance` on the input text; `None` when parsing panics. */
  function TotalDistanceOfInput(input: string): (r: Option<int>)
    ensures r.Some? <==> ParseInput(input).Some?
    ensures r.Some? ==> r.value >= 0
  {
    match ParseInput(input)
    case None => None
    case Some((left, right)) => Some(TotalDistance(left, right))
  }

  /** The example columns 3 4 2 1 3 3 and 4 3 5 3 9 3, in this or any other
      order, are 11 apart. */
  lemma ExampleTotalDistance(left: seq<int>, right: seq<int>)
    requires multiset(left) == multiset{3, 4, 2, 1, 3, 3}
    requires multiset(right) == multiset{4, 3, 5, 3, 9, 3}
    ensures |left| == |right|
    ensures TotalDistance(left, right) == 11
  {
    ExampleLeftColumn(left);
    ExampleRightColumn(right);
    ExamplePairwiseDistance();
  }

  lemma ExampleLeftColumn(left: seq<int>)
    requires multiset(left) == multiset{3, 4, 2, 1, 3, 3}
    ensures |left| == 6 && Sort(left) == [1, 2, 3, 3, 3, 4]
  {
    assert |left| == |multiset(left)|;
    ExampleLeftSorted();
    SortIsTheSortedPermutation(left, [1, 2, 3, 3, 3, 4]);
  }

  lemma ExampleLeftSorted()
    ensures Sorted([1, 2, 3, 3, 3, 4]) && multiset([1, 2, 3, 3, 3, 4]) == multiset{3, 4, 2, 1, 3, 3}
  {
    var s := [1, 2, 3, 3, 3, 4];
    assert forall i | 0 <= i < |s| - 1 :: s[i] <= s[i + 1];
    ConsecutiveSorted(s);
  }

  lemma ExampleRightColumn(right: seq<int>)
    requires multiset(right) == multiset{4, 3, 5, 3, 9, 3}
    ensures |right| == 6 && Sort(right) == [3, 3, 3, 4, 5, 9]
  {
    assert |right| == |multiset(right)|;
    ExampleRightSorted();
    SortIsTheSortedPermutation(right, [3, 3, 3, 4, 5, 9]);
  }

  lemma ExampleRightSorted()
    ensures Sorted([3, 3, 3, 4, 5, 9]) && multiset([3, 3, 3, 4, 5, 9]) == multiset{4, 3, 5, 3, 9, 3}
  {
    var s := [3, 3, 3, 4, 5, 9];
    assert forall i | 0 <= i < |s| - 1 :: s[i] <= s[i + 1];
    ConsecutiveSorted(s);
  }

  lemma ExamplePairwiseDistance()
    ensures PairwiseDistance([1, 2, 3, 3, 3, 4], [3, 3, 3, 4, 5, 9]) == 11
  {
    assert PairwiseDistance([4], [9]) == 5;
    assert PairwiseDistance([3, 4], [5, 9]) == 7;
    assert PairwiseDistance([3, 3, 4], [4, 5, 9]) == 8;
    assert PairwiseDistance([3, 3, 3, 4], [3, 4, 5, 9]) == 8;
    assert PairwiseDistance([2, 3, 3, 3, 4], [3, 3, 4, 5, 9]) == 9;
  }

  /** A line holding two rendered ids, whatever whitespace separates them,
      reads back as that pair. */
  lemma ParseInputLineRoundTrip(a: int, b: int, gap: string)
    requires I64Min <= a <= I64Max && I64Min <= b <= I64Max
    requires 0 < |gap| && forall i | 0 <= i < |gap| :: IsWhitespace(gap[i])
    ensures ParseInputLine(ShowInt(a) + gap + ShowInt(b)) == Some((a, b))
  {
    var line := ShowInt(a) + gap + ShowInt(b);
    WordsOfWordThenRest(ShowInt(a), gap + ShowInt(b));
    WordsAfterWhitespace(gap, ShowInt(b));
    WordsOfWordThenRest(ShowInt(b), "");
    assert ShowInt(b) + "" == ShowInt(b);
    assert line == ShowInt(a) + (gap + ShowInt(b));
    assert Words(line) == [ShowInt(a), ShowInt(b)];
    ParseI64ShowInt(a);
    ParseI64ShowInt(b);
  }

  /** Leading whitespace contributes no words. */
  lemma {:induction false} WordsAfterWhitespace(gap: string, s: string)
    requires forall i | 0 <= i < |gap| :: IsWhitespace(gap[i])
    ensures Words(gap + s) == Words(s)
  {
    if |gap| != 0 {
      assert (gap + s)[1..] == gap[1..] + s;
      WordsAfterWhitespace(gap[1..], s);
    } else {
      assert gap + s == s;
    }
  }
}
