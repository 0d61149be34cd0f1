/** Day 7: an equation is a target value and a list of inputs; it is possible
    when some choice of `+` and `*` between the inputs, evaluated strictly left
    to right, hits the target. The candidate operator vectors come from the
    hand-written `OpPermutator` iterator (day07/src/lib.rs). */
module Day07 {
  import opened Wrappers
  import opened Text

  datatype Operator = Add | Mul

  /** `Operator::next`: with two operators, the other one. */
  function NextOperator(op: Operator): (r: Operator)
    ensures r != op
  {
    match op
    case Add => Mul
    case Mul => Add
  }

  /** `Operator::prev`: also the other one. */
  function PrevOperator(op: Operator): (r: Operator)
    ensures r != op
  {
    match op
    case Add => Mul
    case Mul => Add
  }

  /** `next` and `prev` undo each other, and each is its own inverse. */
  lemma NextPrevInverse(op: Operator)
    ensures PrevOperator(NextOperator(op)) == op && NextOperator(PrevOperator(op)) == op
    ensures NextOperator(NextOperator(op)) == op && PrevOperator(PrevOperator(op)) == op
  {
  }

  function Pow2(n: nat): (r: nat)
    ensures 1 <= r
  {
    if n == 0 then 1 else 2 * Pow2(n - 1)
  }

  // ---------------------------------------------------------------------------
  // OpPermutator
  // ---------------------------------------------------------------------------

  /** The iterator's state: the current vector, how many vectors it may
      yield (`Operator::COUNT` to the power of the length), how many it has
      yielded, the index held in place and the index to flip next. */
  datatype Permutator = Permutator(
    operators: seq<Operator>,
    permutationMax: nat,
    permutationCount: nat,
    holdIdx: nat,
    incIdx: nat)

  /** What every state reachable from `OpPermutator::new` satisfies: an empty
      vector is yielded at most once, and otherwise the held index lies
      before the index to flip, which is at most the length. In particular
      `holdIdx <= len - 1`, so the `dbg!` branch of `next` is never taken. */
  predicate WellFormed(p: Permutator) {
    if |p.operators| == 0 then p.permutationMax <= 1
    else p.holdIdx < p.incIdx <= |p.operators|
  }

  /** `OpPermutator::new(size)`: `size` additions, nothing yielded yet. */
  function NewPermutator(size: nat): (p: Permutator)
    ensures WellFormed(p) && p.permutationCount == 0 && p.permutationMax == Pow2(size)
    ensures |p.operators| == size && forall i | 0 <= i < size :: p.operators[i] == Add
  {
    Permutator(seq(size, _ => Add), Pow2(size), 0, 0, 1)
  }

  /** `fully_mutated`. */
  predicate FullyMutated(p: Permutator) {
    p.permutationCount >= p.permutationMax
  }

  /** `update_operator_next`. */
  function UpdateNext(ops: seq<Operator>, i: nat): (r: seq<Operator>)
    requires i < |ops|
    ensures |r| == |ops| && r[i] != ops[i]
    ensures forall j | 0 <= j < |ops| && j != i :: r[j] == ops[j]
  {
    ops[i := NextOperator(ops[i])]
  }

  /** `update_operator_prev`. */
  function UpdatePrev(ops: seq<Operator>, i: nat): (r: seq<Operator>)
    requires i < |ops|
    ensures |r| == |ops| && r[i] != ops[i]
    ensures forall j | 0 <= j < |ops| && j != i :: r[j] == ops[j]
  {
    ops[i := PrevOperator(ops[i])]
  }

  /** `Iterator::next` for `OpPermutator`: the item and the new state. Once
      fully mutated it yields nothing and changes nothing; otherwise it
      yields a vector of the same length and counts it. */
  function Advance(p: Permutator): (r: (Option<seq<Operator>>, Permutator))
    requires WellFormed(p)
    ensures WellFormed(r.1)
    ensures r.0.Some? <==> !FullyMutated(p)
    ensures r.0.None? ==> r.1 == p
    ensures r.0.Some? ==>
              && r.0.value == r.1.operators
              && |r.1.operators| == |p.operators|
              && r.1.permutationMax == p.permutationMax
              && r.1.permutationCount == p.permutationCount + 1
  {
    if FullyMutated(p) then (None, p)
    else if p.permutationCount == 0 then
      var q := p.(permutationCount := 1);
      (Some(q.operators), q)
    else
      var n := |p.operators|;
      var q :=
        if p.holdIdx < n - 1 then
          if p.incIdx >= n then
            var ops := UpdatePrev(UpdatePrev(p.operators, n - 1), p.holdIdx);
            p.(operators := ops, holdIdx := p.holdIdx + 1, incIdx := p.holdIdx + 2)
          else
            var ops := if p.incIdx > p.holdIdx + 1 then UpdatePrev(p.operators, p.incIdx - 1) else p.operators;
            p.(operators := UpdateNext(ops, p.incIdx), incIdx := p.incIdx + 1)
        else
          p.(operators := UpdateNext(p.operators, p.holdIdx));
      var q' := q.(permutationCount := p.permutationCount + 1);
      (Some(q'.operators), q')
  }

  /** Everything the iterator yields from state `p` on, in order: as many
      vectors as it has left to count, each as long as the state's vector. */
  function Yields(p: Permutator): (items: seq<seq<Operator>>)
    requires WellFormed(p)
    ensures |items| == if p.permutationCount <= p.permutationMax then p.permutationMax - p.permutationCount else 0
    ensures forall k | 0 <= k < |items| :: |items[k]| == |p.operators|
    decreases p.permutationMax - p.permutationCount
  {
    var (item, q) := Advance(p);
    if item.None? then [] else [item.value] + Yields(q)
  }

  /** A state that yields an item has that item first, and the next state
      yields the rest. */
  lemma YieldsFirst(p: Permutator, all: seq<seq<Operator>>, k: nat)
    requires WellFormed(p) && Advance(p).0.Some?
    requires k <= |all| && Yields(p) == all[k..]
    ensures k < |all| && all[k] == Advance(p).0.value
    ensures Yields(Advance(p).1) == all[k + 1..]
  {
    assert Yields(p) == [Advance(p).0.value] + Yields(Advance(p).1);
    assert all[k..][0] == all[k] && all[k..][1..] == all[k + 1..];
  }

  /** A fresh iterator over `n` operators yields exactly 2^n vectors of
      length `n`, the first of them all additions. */
  lemma NewPermutatorYields(n: nat)
    ensures var items := Yields(NewPermutator(n));
            && |items| == Pow2(n)
            && (forall k | 0 <= k < |items| :: |items[k]| == n)
            && items[0] == seq(n, _ => Add)
  {
  }

  // ---------------------------------------------------------------------------
  // The vectors the iterator is meant to enumerate
  // ---------------------------------------------------------------------------

  /** Every operator vector of length `n`, once each: those starting with an
      addition, then those starting with a multiplication. */
  function AllOperatorVectors(n: nat): (vs: seq<seq<Operator>>)
    ensures |vs| == Pow2(n)
    ensures forall k | 0 <= k < |vs| :: |vs[k]| == n
  {
    if n == 0 then [[]]
    else
      var rest := AllOperatorVectors(n - 1);
      Prefixed(Add, rest) + Prefixed(Mul, rest)
  }

  /** `op` put in front of each vector. */
  function Prefixed(op: Operator, vs: seq<seq<Operator>>): (r: seq<seq<Operator>>)
    ensures |r| == |vs|
    ensures forall k | 0 <= k < |vs| :: r[k] == [op] + vs[k]
  {
    seq(|vs|, k requires 0 <= k < |vs| => [op] + vs[k])
  }

  /** Where a vector sits in the enumeration of its length: read as a binary
      number, most significant operator first, with `Mul` as the one. */
  function VectorIndex(ops: seq<Operator>): (k: nat)
    ensures k < Pow2(|ops|)
  {
    if |ops| == 0 then 0
    else (if ops[0] == Add then 0 else Pow2(|ops| - 1)) + VectorIndex(ops[1..])
  }

  /** The enumeration holds every vector, at its `VectorIndex`. */
  lemma {:induction false} AllOperatorVectorsAt(ops: seq<Operator>)
    ensures AllOperatorVectors(|ops|)[VectorIndex(ops)] == ops
  {
    if |ops| != 0 {
      AllOperatorVectorsAt(ops[1..]);
      VectorAtFromTail(ops, AllOperatorVectors(|ops| - 1), VectorIndex(ops[1..]));
    }
  }

  /** The inductive step: where the tail sits among the shorter vectors
      decides where `ops` sits. */
  lemma VectorAtFromTail(ops: seq<Operator>, rest: seq<seq<Operator>>, k: nat)
    requires 0 < |ops| && rest == AllOperatorVectors(|ops| - 1)
    requires k == VectorIndex(ops[1..]) && k < |rest| && rest[k] == ops[1..]
    ensures AllOperatorVectors(|ops|)[VectorIndex(ops)] == ops
  {
    VectorIndexUnfold(ops, |rest|);
    AllOperatorVectorsUnfold(ops);
    PickPrefixed(ops, rest, k);
  }

  lemma VectorIndexUnfold(ops: seq<Operator>, half: nat)
    requires 0 < |ops| && half == Pow2(|ops| - 1)
    ensures VectorIndex(ops) == (if ops[0] == Add then 0 else half) + VectorIndex(ops[1..])
  {
  }

  /** The vector `ops` sits in the half its first operator selects, at the
      place its tail has in `rest`. */
  lemma PickPrefixed(ops: seq<Operator>, rest: seq<seq<Operator>>, k: nat)
    requires 0 < |ops| && k < |rest| && rest[k] == ops[1..]
    ensures (Prefixed(Add, rest) + Prefixed(Mul, rest))[(if ops[0] == Add then 0 else |rest|) + k] == ops
  {
    ConsTail(ops);
    var adds, muls := Prefixed(Add, rest), Prefixed(Mul, rest);
    if ops[0] == Add {
      InAppend(adds, muls, k);
    } else {
      InAppend(adds, muls, |rest| + k);
    }
  }

  /** Every vector appears in the enumeration of its length. */
  lemma AllOperatorVectorsComplete(ops: seq<Operator>)
    ensures ops in AllOperatorVectors(|ops|)
  {
    AllOperatorVectorsAt(ops);
  }

  lemma AllOperatorVectorsUnfold(ops: seq<Operator>)
    requires 0 < |ops|
    ensures var rest := AllOperatorVectors(|ops[1..]|);
            AllOperatorVectors(|ops|) == Prefixed(Add, rest) + Prefixed(Mul, rest)
  {
  }

  lemma InAppend<T>(a: seq<T>, b: seq<T>, k: nat)
    requires k < |a| + |b|
    ensures (a + b)[k] == (if k < |a| then a[k] else b[k - |a|])
  {
  }

  predicate Distinct<T(==)>(xs: seq<T>) {
    forall j, k | 0 <= j < k < |xs| :: xs[j] != xs[k]
  }

  /** No vector appears twice. */
  lemma {:induction false} AllOperatorVectorsDistinct(n: nat)
    ensures Distinct(AllOperatorVectors(n))
  {
    if n != 0 {
      AllOperatorVectorsDistinct(n - 1);
      DistinctHalves(AllOperatorVectors(n - 1));
    }
  }

  /** Prefixing distinct vectors with `Add` and then with `Mul` keeps them
      distinct. */
  lemma DistinctHalves(rest: seq<seq<Operator>>)
    requires Distinct(rest)
    ensures Distinct(Prefixed(Add, rest) + Prefixed(Mul, rest))
  {
    var adds, muls := Prefixed(Add, rest), Prefixed(Mul, rest);
    var vs := adds + muls;
    var m := |rest|;
    forall j, k | 0 <= j < k < |vs|
      ensures vs[j] != vs[k]
    {
      InAppend(adds, muls, j);
      InAppend(adds, muls, k);
      if k < m {
        ConsInjective(Add, rest[j], rest[k]);
      } else if m <= j {
        ConsInjective(Mul, rest[j - m], rest[k - m]);
      } else {
        assert vs[j][0] == Add && vs[k][0] == Mul;
      }
    }
  }

  lemma ConsInjective<T>(x: T, a: seq<T>, b: seq<T>)
    requires a != b
    ensures [x] + a != [x] + b
  {
    assert ([x] + a)[1..] == a && ([x] + b)[1..] == b;
  }

  // ---------------------------------------------------------------------------
  // Equations
  // ---------------------------------------------------------------------------

  datatype Equation = Equation(expectedResult: nat, inputs: seq<nat>)

  function Apply(op: Operator, acc: nat, x: nat): nat {
    match op
    case Add => acc + x
    case Mul => acc * x
  }

  /** The value of `inputs` with `ops` between them and no precedence: the
      last operator is applied last, to the value of everything before it. */
  function Evaluate(inputs: seq<nat>, ops: seq<Operator>): nat
    requires 0 < |inputs| && |ops| == |inputs| - 1
  {
    if |inputs| == 1 then inputs[0]
    else Apply(ops[|ops| - 1], Evaluate(inputs[..|inputs| - 1], ops[..|ops| - 1]), inputs[|inputs| - 1])
  }

  function Sum(xs: seq<nat>): nat {
    if |xs| == 0 then 0 else Sum(xs[..|xs| - 1]) + xs[|xs| - 1]
  }

  /** The first vector the iterator yields, all additions, sums the inputs. */
  lemma {:induction false} EvaluateAllAdd(inputs: seq<nat>)
    requires 0 < |inputs|
    ensures Evaluate(inputs, seq(|inputs| - 1, _ => Add)) == Sum(inputs)
  {
    if |inputs| > 1 {
      var n := |inputs|;
      var ops := seq(n - 1, _ => Add);
      assert ops[..n - 2] == seq(n - 2, _ => Add);
      EvaluateAllAdd(inputs[..n - 1]);
      assert inputs[..n - 1][..n - 2] == inputs[..n - 2];
      assert Sum(inputs[..1]) == inputs[0];
    }
  }

  /** What `is_possible` decides: some vector the iterator yields, applied
      left to right, produces the expected result. */
  predicate PossibleAsWritten(eq: Equation)
    requires 0 < |eq.inputs|
  {
    var items := Yields(NewPermutator(|eq.inputs| - 1));
    exists k | 0 <= k < |items| :: Evaluate(eq.inputs, items[k]) == eq.expectedResult
  }

  /** `Equation::is_possible`: run the iterator, fold each vector over the
      inputs from the left, stop at the first hit. */
  method IsPossible(eq: Equation) returns (possible: bool)
    requires 0 < |eq.inputs|
    ensures possible <==> PossibleAsWritten(eq)
  {
    var p := NewPermutator(|eq.inputs| - 1);
    ghost var all := Yields(p);
    ghost var k := 0;
    while true
      invariant WellFormed(p) && |p.operators| == |eq.inputs| - 1
      invariant 0 <= k <= |all| && Yields(p) == all[k..]
      invariant forall j | 0 <= j < k :: Evaluate(eq.inputs, all[j]) != eq.expectedResult
      decreases p.permutationMax - p.permutationCount
    {
      var step := Advance(p);
      if step.0.None? {
        return false;
      }
      var permutation := step.0.value;
      YieldsFirst(p, all, k);
      var result := FoldInputs(eq.inputs, permutation);
      if result == eq.expectedResult {
        return true;
      }
      p := step.1;
      k := k + 1;
    }
  }

  /** The inner loop of `is_possible`: start from the first input and apply
      operator `i` to the running result and input `i + 1`. */
  method FoldInputs(inputs: seq<nat>, permutation: seq<Operator>) returns (result: nat)
    requires 0 < |inputs| && |permutation| == |inputs| - 1
    ensures result == Evaluate(inputs, permutation)
  {
    result := inputs[0];
    var i := 0;
    while i < |permutation|
      invariant 0 <= i <= |permutation|
      invariant result == Evaluate(inputs[..i + 1], permutation[..i])
    {
      EvaluateStep(inputs, permutation, i);
      match permutation[i] {
        case Add => result := result + inputs[i + 1];
        case Mul => result := result * inputs[i + 1];
      }
      i := i + 1;
    }
    assert inputs[..i + 1] == inputs && permutation[..i] == permutation;
  }

  /** Evaluating one more input applies one more operator to the result so
      far. */
  lemma EvaluateStep(inputs: seq<nat>, ops: seq<Operator>, i: nat)
    requires i + 1 < |inputs| && |ops| == |inputs| - 1
    ensures Evaluate(inputs[..i + 2], ops[..i + 1]) == Apply(ops[i], Evaluate(inputs[..i + 1], ops[..i]), inputs[i + 1])
  {
    assert inputs[..i + 2][..i + 1] == inputs[..i + 1];
    assert ops[..i + 1][..i] == ops[..i];
  }

  /** `is_possible` as intended: some operator vector of the right length,
      applied left to right, produces the expected result. */
  function IsPossibleCorrected(eq: Equation): (possible: bool)
    requires 0 < |eq.inputs|
    ensures possible <==>
              exists ops: seq<Operator> | |ops| == |eq.inputs| - 1 :: Evaluate(eq.inputs, ops) == eq.expectedResult
  {
    var n := |eq.inputs| - 1;
    var vs := AllOperatorVectors(n);
    if exists ops | ops in vs :: Evaluate(eq.inputs, ops) == eq.expectedResult then true
    else
      assert forall ops: seq<Operator> | |ops| == n :: Evaluate(eq.inputs, ops) != eq.expectedResult by {
        forall ops: seq<Operator> | |ops| == n
          ensures Evaluate(eq.inputs, ops) != eq.expectedResult
        {
          AllOperatorVectorsComplete(ops);
        }
      }
      false
  }

  /** Whatever the as-written search finds, the intended one finds too. */
  lemma PossibleAsWrittenIsPossible(eq: Equation)
    requires 0 < |eq.inputs|
    requires PossibleAsWritten(eq)
    ensures IsPossibleCorrected(eq)
  {
    var items := Yields(NewPermutator(|eq.inputs| - 1));
    var k :| 0 <= k < |items| && Evaluate(eq.inputs, items[k]) == eq.expectedResult;
    assert |items[k]| == |eq.inputs| - 1;
  }

  // ---------------------------------------------------------------------------
  // The iterator over three operators
  // ---------------------------------------------------------------------------

  /** For three operators the iterator yields `[Mul, Mul, Add]` twice and
      never `[Add, Mul, Mul]`. */
  lemma PermutatorOfThree()
    ensures Yields(NewPermutator(3)) == [
              [Add, Add, Add], [Add, Mul, Add], [Add, Add, Mul], [Mul, Add, Add],
              [Mul, Add, Mul], [Mul, Mul, Add], [Mul, Mul, Mul], [Mul, Mul, Add]]
    ensures [Add, Mul, Mul] !in Yields(NewPermutator(3))
  {
    ThreeEarlierYields();
    ThreeLaterYields();
    AppendFours([Add, Add, Add], [Add, Mul, Add], [Add, Add, Mul], [Mul, Add, Add],
                [Mul, Add, Mul], [Mul, Mul, Add], [Mul, Mul, Mul], [Mul, Mul, Add]);
    var ys := Yields(NewPermutator(3));
    forall k | 0 <= k < |ys| ensures ys[k] != [Add, Mul, Mul] {
      if k < 4 {
        assert ys[k][0] == Add ==> ys[k][2] == Add || ys[k][1] == Add;
      } else {
        assert ys[k][0] == Mul;
      }
    }
  }

  lemma AppendFours<T>(a: T, b: T, c: T, d: T, e: T, f: T, g: T, h: T)
    ensures [a, b, c, d] + [e, f, g, h] == [a, b, c, d, e, f, g, h]
  {
  }

  /** The first four vectors the iterator over three operators yields. */
  lemma ThreeEarlierYields()
    ensures Yields(NewPermutator(3)) ==
              [[Add, Add, Add], [Add, Mul, Add], [Add, Add, Mul], [Mul, Add, Add]]
              + Yields(Permutator([Mul, Add, Add], 8, 4, 1, 2))
  {
    var p0 := Permutator([Add, Add, Add], 8, 0, 0, 1);
    var p1 := Permutator([Add, Add, Add], 8, 1, 0, 1);
    var p2 := Permutator([Add, Mul, Add], 8, 2, 0, 2);
    var p3 := Permutator([Add, Add, Mul], 8, 3, 0, 3);
    var p4 := Permutator([Mul, Add, Add], 8, 4, 1, 2);
    AdvanceThreeEarly();
    YieldsCons(p3, p4);
    YieldsCons(p2, p3);
    YieldsCons(p1, p2);
    YieldsCons(p0, p1);
    ConsFour(p1.operators, p2.operators, p3.operators, p4.operators, Yields(p4));
    NewPermutatorOfThree();
  }

  lemma AdvanceThreeEarly()
    ensures Advance(Permutator([Add, Add, Add], 8, 0, 0, 1))
            == (Some([Add, Add, Add]), Permutator([Add, Add, Add], 8, 1, 0, 1))
    ensures Advance(Permutator([Add, Add, Add], 8, 1, 0, 1))
            == (Some([Add, Mul, Add]), Permutator([Add, Mul, Add], 8, 2, 0, 2))
    ensures Advance(Permutator([Add, Mul, Add], 8, 2, 0, 2))
            == (Some([Add, Add, Mul]), Permutator([Add, Add, Mul], 8, 3, 0, 3))
    ensures Advance(Permutator([Add, Add, Mul], 8, 3, 0, 3))
            == (Some([Mul, Add, Add]), Permutator([Mul, Add, Add], 8, 4, 1, 2))
  {
    ThreeOperatorUpdates();
  }

  lemma AdvanceThreeLate()
    ensures Advance(Permutator([Mul, Add, Add], 8, 4, 1, 2))
            == (Some([Mul, Add, Mul]), Permutator([Mul, Add, Mul], 8, 5, 1, 3))
    ensures Advance(Permutator([Mul, Add, Mul], 8, 5, 1, 3))
            == (Some([Mul, Mul, Add]), Permutator([Mul, Mul, Add], 8, 6, 2, 3))
    ensures Advance(Permutator([Mul, Mul, Add], 8, 6, 2, 3))
            == (Some([Mul, Mul, Mul]), Permutator([Mul, Mul, Mul], 8, 7, 2, 3))
    ensures Advance(Permutator([Mul, Mul, Mul], 8, 7, 2, 3))
            == (Some([Mul, Mul, Add]), Permutator([Mul, Mul, Add], 8, 8, 2, 3))
    ensures Advance(Permutator([Mul, Mul, Add], 8, 8, 2, 3)).0.None?
  {
    ThreeOperatorUpdates();
  }

  lemma ConsFour<T>(a: T, b: T, c: T, d: T, rest: seq<T>)
    ensures [a] + ([b] + ([c] + ([d] + rest))) == [a, b, c, d] + rest
  {
  }

  lemma NewPermutatorOfThree()
    ensures NewPermutator(3) == Permutator([Add, Add, Add], 8, 0, 0, 1)
  {
    assert Pow2(3) == 8;
    assert NewPermutator(3).operators == [Add, Add, Add];
  }

  /** The last four vectors the iterator over three operators yields. */
  lemma ThreeLaterYields()
    ensures Yields(Permutator([Mul, Add, Add], 8, 4, 1, 2))
            == [[Mul, Add, Mul], [Mul, Mul, Add], [Mul, Mul, Mul], [Mul, Mul, Add]]
  {
    var p4 := Permutator([Mul, Add, Add], 8, 4, 1, 2);
    var p5 := Permutator([Mul, Add, Mul], 8, 5, 1, 3);
    var p6 := Permutator([Mul, Mul, Add], 8, 6, 2, 3);
    var p7 := Permutator([Mul, Mul, Mul], 8, 7, 2, 3);
    var p8 := Permutator([Mul, Mul, Add], 8, 8, 2, 3);
    AdvanceThreeLate();
    assert Yields(p8) == [];
    YieldsCons(p7, p8);
    YieldsCons(p6, p7);
    YieldsCons(p5, p6);
    YieldsCons(p4, p5);
    ConsFour(p5.operators, p6.operators, p7.operators, p8.operators, []);
  }

  lemma YieldsCons(p: Permutator, q: Permutator)
    requires WellFormed(p) && WellFormed(q) && Advance(p) == (Some(q.operators), q)
    ensures Yields(p) == [q.operators] + Yields(q)
  {
  }

  lemma ThreeOperatorUpdates()
    ensures UpdateNext([Add, Add, Add], 1) == [Add, Mul, Add]
    ensures UpdatePrev([Add, Mul, Add], 1) == [Add, Add, Add] && UpdateNext([Add, Add, Add], 2) == [Add, Add, Mul]
    ensures UpdatePrev([Add, Add, Mul], 2) == [Add, Add, Add] && UpdatePrev([Add, Add, Add], 0) == [Mul, Add, Add]
    ensures UpdateNext([Mul, Add, Add], 2) == [Mul, Add, Mul]
    ensures UpdatePrev([Mul, Add, Mul], 2) == [Mul, Add, Add] && UpdatePrev([Mul, Add, Add], 1) == [Mul, Mul, Add]
    ensures UpdateNext([Mul, Mul, Add], 2) == [Mul, Mul, Mul] && UpdateNext([Mul, Mul, Mul], 2) == [Mul, Mul, Add]
  {
  }

  /** Evaluation of four inputs, spelled out left to right. */
  lemma EvaluateFour(a: nat, b: nat, c: nat, d: nat, ops: seq<Operator>)
    requires |ops| == 3
    ensures Evaluate([a, b, c, d], ops) == Apply(ops[2], Apply(ops[1], Apply(ops[0], a, b), c), d)
  {
    assert [a, b, c, d][..3] == [a, b, c] && [a, b, c][..2] == [a, b] && [a, b][..1] == [a];
    assert ops[..2][..1] == [ops[0]];
    assert Evaluate([a, b], [ops[0]]) == Apply(ops[0], a, b);
    assert Evaluate([a, b, c], ops[..2]) == Apply(ops[1], Apply(ops[0], a, b), c);
  }

  /** `175: 2 3 5 7` is reachable only as `(2 + 3) * 5 * 7`, the vector the
      iterator skips: the source rejects an equation that can be made true. */
  lemma SkippedVectorLosesSolution()
    ensures !PossibleAsWritten(Equation(175, [2, 3, 5, 7]))
  {
    PermutatorOfThree();
    var items := Yields(NewPermutator(3));
    forall k | 0 <= k < |items|
      ensures Evaluate([2, 3, 5, 7], items[k]) != 175
    {
      EvaluateFour(2, 3, 5, 7, items[k]);
    }
  }

  /** The full enumeration finds `(2 + 3) * 5 * 7 = 175`. */
  lemma CorrectedFindsSolution()
    ensures IsPossibleCorrected(Equation(175, [2, 3, 5, 7]))
  {
    EvaluateFour(2, 3, 5, 7, [Add, Mul, Mul]);
    AllOperatorVectorsComplete([Add, Mul, Mul]);
  }

  // ---------------------------------------------------------------------------
  // Parsing
  // ---------------------------------------------------------------------------

  /** What separates two inputs: nom's `multispace1` (spaces, tabs, carriage
      returns and line feeds), as written, or `space1` (spaces and tabs). */
  datatype Separator = Multispace | Space

  predicate IsSeparatorChar(sep: Separator, c: char) {
    match sep
    case Multispace => c == ' ' || c == '\t' || c == '\r' || c == '\n'
    case Space => c == ' ' || c == '\t'
  }

  /** Length of the longest prefix of separator characters. */
  function SeparatorLength(sep: Separator, s: string): (n: nat)
    ensures n <= |s| && forall i | 0 <= i < n :: IsSeparatorChar(sep, s[i])
    ensures n < |s| ==> !IsSeparatorChar(sep, s[n])
  {
    if |s| == 0 || !IsSeparatorChar(sep, s[0]) then 0
    else 1 + SeparatorLength(sep, s[1..])
  }

  /** The loop of `separated_list1` after its first element: while a
      separator followed by a number comes next, take the number; otherwise
      stop before the separator. */
  function InputsAfter(sep: Separator, s: string): (r: (seq<nat>, string))
    ensures |r.1| <= |s|
    ensures forall i | 0 <= i < |r.0| :: r.0[i] <= U64Max
    decreases |s|
  {
    var n := SeparatorLength(sep, s);
    if n == 0 then ([], s)
    else
      match ParseUnsigned(s[n..], U64Max)
      case None => ([], s)
      case Some((x, rest)) =>
        var (xs, r) := InputsAfter(sep, rest);
        ([x] + xs, r)
  }

  /** `separated_list1(sep, u64)`: one number, then the numbers that
      `InputsAfter` takes. */
  function ParseInputs(sep: Separator, s: string): (r: Option<(seq<nat>, string)>)
    ensures r.Some? ==> 0 < |r.value.0| && |r.value.1| < |s|
    ensures r.Some? ==> forall i | 0 <= i < |r.value.0| :: r.value.0[i] <= U64Max
  {
    match ParseUnsigned(s, U64Max)
    case None => None
    case Some((first, s1)) =>
      var (more, rest) := InputsAfter(sep, s1);
      Some(([first] + more, rest))
  }

  /** `parse::equation` with the given separator between inputs: a number,
      `": "`, then one or more numbers. */
  function ParseEquationWith(sep: Separator, s: string): (r: Option<(Equation, string)>)
    ensures r.Some? ==> 0 < |r.value.0.inputs| && |r.value.1| < |s|
    ensures r.Some? ==> r.value.0.expectedResult <= U64Max
    ensures r.Some? ==> forall i | 0 <= i < |r.value.0.inputs| :: r.value.0.inputs[i] <= U64Max
  {
    match ParseUnsigned(s, U64Max)
    case None => None
    case Some((expected, s1)) =>
      match Tag(s1, ": ")
      case None => None
      case Some(s2) =>
        match ParseInputs(sep, s2)
        case None => None
        case Some((inputs, rest)) => Some((Equation(expected, inputs), rest))
  }

  /** `parse::equation` as written, with `multispace1` between inputs. */
  function ParseEquation(s: string): Option<(Equation, string)> {
    ParseEquationWith(Multispace, s)
  }

  /** `Equation::from_str`: the equation, whatever follows it; `None` stands
      for the `unwrap` panic. */
  function EquationFromStr(s: string): (r: Option<Equation>)
    ensures r.Some? <==> ParseEquation(s).Some?
    ensures r.Some? ==> r.value == ParseEquation(s).value.0
    ensures r.Some? ==> 0 < |r.value.inputs| && r.value.expectedResult <= U64Max
    ensures r.Some? ==> forall i | 0 <= i < |r.value.inputs| :: r.value.inputs[i] <= U64Max
  {
    match ParseEquation(s)
    case None => None
    case Some((eq, _)) => Some(eq)
  }

  /** Round trip: `from_str` reads a written-out equation back, when the text
      after it starts with neither a digit nor a `multispace1` character. */
  lemma EquationFromStrShow(eq: Equation, rest: string)
    requires 0 < |eq.inputs| && eq.expectedResult <= U64Max
    requires forall i | 0 <= i < |eq.inputs| :: eq.inputs[i] <= U64Max
    requires NoLeadingDigit(rest) && (|rest| == 0 || !IsSeparatorChar(Multispace, rest[0]))
    ensures EquationFromStr(ShowEquation(eq) + rest) == Some(eq)
  {
    ParseEquationShow(Multispace, eq, rest);
    InputsAfterEnd(Multispace, rest);
    assert eq.inputs + [] == eq.inputs;
  }

  /** The inputs after the first, each written as a space and a number. */
  function ShowTail(xs: seq<nat>): string {
    if |xs| == 0 then "" else " " + ShowNat(xs[0]) + ShowTail(xs[1..])
  }

  /** An equation as the puzzle writes it: `target: a b c`. */
  function ShowEquation(eq: Equation): string
    requires 0 < |eq.inputs|
  {
    ShowNat(eq.expectedResult) + ": " + ShowNat(eq.inputs[0]) + ShowTail(eq.inputs[1..])
  }

  predicate NoLeadingDigit(s: string) {
    |s| == 0 || !IsDigit(s[0])
  }

  lemma {:induction false} SeparatorLengthAppend(sep: Separator, gap: string, t: string)
    requires forall i | 0 <= i < |gap| :: IsSeparatorChar(sep, gap[i])
    requires |t| == 0 || !IsSeparatorChar(sep, t[0])
    ensures SeparatorLength(sep, gap + t) == |gap|
  {
    if |gap| == 0 {
      assert gap + t == t;
    } else {
      assert (gap + t)[1..] == gap[1..] + t;
      SeparatorLengthAppend(sep, gap[1..], t);
    }
  }

  /** A run of separators followed by a number is taken as one more input. */
  lemma InputsAfterStep(sep: Separator, gap: string, x: nat, tail: string)
    requires 0 < |gap| && forall i | 0 <= i < |gap| :: IsSeparatorChar(sep, gap[i])
    requires x <= U64Max && NoLeadingDigit(tail)
    ensures InputsAfter(sep, gap + ShowNat(x) + tail) == ([x] + InputsAfter(sep, tail).0, InputsAfter(sep, tail).1)
  {
    var s := gap + (ShowNat(x) + tail);
    assert gap + ShowNat(x) + tail == s;
    assert (ShowNat(x) + tail)[0] == ShowNat(x)[0];
    SeparatorLengthAppend(sep, gap, ShowNat(x) + tail);
    assert s[|gap|..] == ShowNat(x) + tail;
    ParseUnsignedShowNat(x, U64Max, tail);
  }

  /** Text that does not start with a separator adds no input. */
  lemma InputsAfterEnd(sep: Separator, s: string)
    requires |s| == 0 || !IsSeparatorChar(sep, s[0])
    ensures InputsAfter(sep, s) == ([], s)
  {
  }

  /** Written-out inputs are read back, followed by whatever the rest of the
      text adds. */
  lemma InputsAfterShowTail(sep: Separator, xs: seq<nat>, rest: string)
    requires forall i | 0 <= i < |xs| :: xs[i] <= U64Max
    requires NoLeadingDigit(rest)
    ensures InputsAfter(sep, ShowTail(xs) + rest) == (xs + InputsAfter(sep, rest).0, InputsAfter(sep, rest).1)
  {
    ShowTailThen(xs, rest);
    InputsAfterShowTailThen(sep, xs, rest);
  }

  /** `ShowTail(xs) + rest`, built so that each input is a prefix of the text
      after it. */
  function ShowTailBefore(xs: seq<nat>, rest: string): string {
    if |xs| == 0 then rest else " " + ShowNat(xs[0]) + ShowTailBefore(xs[1..], rest)
  }

  lemma {:induction false} ShowTailThen(xs: seq<nat>, rest: string)
    ensures ShowTailBefore(xs, rest) == ShowTail(xs) + rest
  {
    if |xs| == 0 {
      assert ShowTail(xs) + rest == rest;
    } else {
      ShowTailThen(xs[1..], rest);
      assert " " + ShowNat(xs[0]) + ShowTail(xs[1..]) + rest == " " + ShowNat(xs[0]) + (ShowTail(xs[1..]) + rest);
    }
  }

  lemma {:induction false} InputsAfterShowTailThen(sep: Separator, xs: seq<nat>, rest: string)
    requires forall i | 0 <= i < |xs| :: xs[i] <= U64Max
    requires NoLeadingDigit(rest)
    ensures InputsAfter(sep, ShowTailBefore(xs, rest)) == (xs + InputsAfter(sep, rest).0, InputsAfter(sep, rest).1)
  {
    var more := InputsAfter(sep, rest).0;
    if |xs| == 0 {
      assert xs + more == more;
    } else {
      var tail := ShowTailBefore(xs[1..], rest);
      assert NoLeadingDigit(tail) by {
        if |xs[1..]| != 0 {
          assert tail[0] == ' ';
        }
      }
      InputsAfterStep(sep, " ", xs[0], tail);
      InputsAfterShowTailThen(sep, xs[1..], rest);
      ConsAppend(xs, more);
    }
  }

  lemma ConsAppend(xs: seq<nat>, more: seq<nat>)
    requires 0 < |xs|
    ensures [xs[0]] + (xs[1..] + more) == xs + more
  {
    assert xs == [xs[0]] + xs[1..];
  }

  /** Written-out inputs followed by text that starts with no digit start
      with no digit either. */
  lemma ShowTailThenRest(xs: seq<nat>, rest: string)
    requires NoLeadingDigit(rest)
    ensures NoLeadingDigit(ShowTail(xs) + rest)
  {
    if |xs| != 0 {
      assert (ShowTail(xs) + rest)[0] == ' ';
    } else {
      assert ShowTail(xs) + rest == rest;
    }
  }

  /** Parsing a written-out equation gives it back, plus any further inputs
      the separator lets the rest of the text contribute. */
  lemma ParseEquationShow(sep: Separator, eq: Equation, rest: string)
    requires 0 < |eq.inputs| && eq.expectedResult <= U64Max
    requires forall i | 0 <= i < |eq.inputs| :: eq.inputs[i] <= U64Max
    requires NoLeadingDigit(rest)
    ensures var (more, after) := InputsAfter(sep, rest);
            ParseEquationWith(sep, ShowEquation(eq) + rest) == Some((Equation(eq.expectedResult, eq.inputs + more), after))
  {
    var tail := eq.inputs[1..];
    var (more, after) := InputsAfter(sep, rest);
    InputsAfterShowTail(sep, tail, rest);
    ConsAppend(eq.inputs, more);
    assert InputsAfter(sep, ShowTail(tail) + rest) == (tail + more, after);
    ShowTailThenRest(tail, rest);
    ParseEquationOfParts(sep, eq.expectedResult, eq.inputs[0], ShowTail(tail) + rest);
    ShowEquationThen(eq, rest);
  }

  /** The target, the `: ` tag and the first input, then whatever inputs
      follow. */
  lemma ParseEquationOfParts(sep: Separator, expected: nat, first: nat, s: string)
    requires expected <= U64Max && first <= U64Max && NoLeadingDigit(s)
    ensures var (more, after) := InputsAfter(sep, s);
            ParseEquationWith(sep, ShowNat(expected) + (": " + (ShowNat(first) + s)))
            == Some((Equation(expected, [first] + more), after))
  {
    ParseUnsignedShowNat(expected, U64Max, ": " + (ShowNat(first) + s));
    TagAppend(": ", ShowNat(first) + s);
    ParseUnsignedShowNat(first, U64Max, s);
  }

  lemma ShowEquationThen(eq: Equation, rest: string)
    requires 0 < |eq.inputs|
    ensures ShowEquation(eq) + rest
            == ShowNat(eq.expectedResult) + (": " + (ShowNat(eq.inputs[0]) + (ShowTail(eq.inputs[1..]) + rest)))
  {
  }

  /** As written, `multispace1` crosses the line break: the number that
      starts the next line is read as one more input of this equation, and
      parsing stops at that line's `:`. */
  lemma MultispaceJoinsNextLine(eq: Equation, next: nat, rest: string)
    requires 0 < |eq.inputs| && eq.expectedResult <= U64Max && next <= U64Max
    requires forall i | 0 <= i < |eq.inputs| :: eq.inputs[i] <= U64Max
    requires |rest| == 0 || (!IsDigit(rest[0]) && !IsSeparatorChar(Multispace, rest[0]))
    ensures ParseEquation(ShowEquation(eq) + ("\n" + ShowNat(next) + rest))
            == Some((Equation(eq.expectedResult, eq.inputs + [next]), rest))
  {
    var after := "\n" + ShowNat(next) + rest;
    InputsAfterStep(Multispace, "\n", next, rest);
    InputsAfterEnd(Multispace, rest);
    AppendNothing([next]);
    assert InputsAfter(Multispace, after) == ([next], rest);
    ParseEquationShow(Multispace, eq, after);
  }

  /** With `space1` between inputs an equation ends at its line break. */
  lemma SpaceStopsAtLineEnd(eq: Equation, rest: string)
    requires 0 < |eq.inputs| && eq.expectedResult <= U64Max
    requires forall i | 0 <= i < |eq.inputs| :: eq.inputs[i] <= U64Max
    ensures ParseEquationWith(Space, ShowEquation(eq) + ("\n" + rest)) == Some((eq, "\n" + rest))
  {
    var after := "\n" + rest;
    InputsAfterEnd(Space, after);
    ParseEquationStops(Space, eq, after);
  }

  /** An equation followed by text where no further input starts reads back
      as itself. */
  lemma ParseEquationStops(sep: Separator, eq: Equation, rest: string)
    requires 0 < |eq.inputs| && eq.expectedResult <= U64Max
    requires forall i | 0 <= i < |eq.inputs| :: eq.inputs[i] <= U64Max
    requires NoLeadingDigit(rest) && InputsAfter(sep, rest) == ([], rest)
    ensures ParseEquationWith(sep, ShowEquation(eq) + rest) == Some((eq, rest))
  {
    ParseEquationShow(sep, eq, rest);
    AppendNothing(eq.inputs);
  }

  lemma AppendNothing(xs: seq<nat>)
    ensures xs + [] == xs
  {
  }

  /** The two lines `7290: 6 8 6 15` and `190: 10 19`: as written, 190 joins
      the first equation's inputs. */
  lemma ExampleTwoLines()
    ensures ParseEquation("7290: 6 8 6 15" + ("\n" + "190" + ": 10 19"))
            == Some((Equation(7290, [6, 8, 6, 15, 190]), ": 10 19"))
  {
    ExampleShowEquation();
    assert ShowNat(190) == "190" by {
      ExampleNumbers();
    }
    MultispaceJoinsNextLine(Equation(7290, [6, 8, 6, 15]), 190, ": 10 19");
    ExampleInputs();
  }

  lemma ExampleInputs()
    ensures [6, 8, 6, 15] + [190] == [6, 8, 6, 15, 190]
  {
  }

  /** With `space1` the first of those lines parses alone. */
  lemma ExampleTwoLinesCorrected()
    ensures ParseEquationWith(Space, "7290: 6 8 6 15" + ("\n" + "190: 10 19"))
            == Some((Equation(7290, [6, 8, 6, 15]), "\n" + "190: 10 19"))
  {
    ExampleShowEquation();
    SpaceStopsAtLineEnd(Equation(7290, [6, 8, 6, 15]), "190: 10 19");
  }

  /** `7290: 6 8 6 15` on its own parses to that equation with nothing left. */
  lemma ExampleEquation()
    ensures ParseEquation("7290: 6 8 6 15") == Some((Equation(7290, [6, 8, 6, 15]), ""))
  {
    var eq := Equation(7290, [6, 8, 6, 15]);
    ExampleShowEquation();
    ParseEquationShow(Multispace, eq, "");
    assert "7290: 6 8 6 15" + "" == "7290: 6 8 6 15";
    AppendNothing(eq.inputs);
  }

  lemma ExampleShowEquation()
    ensures ShowEquation(Equation(7290, [6, 8, 6, 15])) == "7290: 6 8 6 15"
  {
    ExampleNumbers();
    assert ShowTail([]) == "";
    assert ShowTail([15]) == " 15";
    assert ShowTail([6, 15]) == " 6 15";
    assert ShowTail([8, 6, 15]) == " 8 6 15";
  }

  lemma ExampleNumbers()
    ensures ShowNat(6) == "6" && ShowNat(8) == "8" && ShowNat(15) == "15"
    ensures ShowNat(7290) == "7290" && ShowNat(190) == "190"
  {
    assert ShowNat(1) == "1" && ShowNat(5) == "5";
    assert ShowNat(19) == "19";
    assert ShowNat(7) == "7";
    assert ShowNat(72) == "72";
    assert ShowNat(729) == "729";
  }

  // ---------------------------------------------------------------------------
  // All equations
  // ---------------------------------------------------------------------------

  /** nom's `line_ending`: `\n` or `\r\n`. */
  function LineEnding(s: string): (r: Option<string>)
    ensures r.Some? ==> |r.value| < |s|
  {
    if StartsWith(s, "\n") then Tag(s, "\n")
    else Tag(s, "\r\n")
  }

  /** The loop of `separated_list0(alt((line_ending, eof)), equation)` after
      its first element. At the end of the text `eof` matches without
      consuming anything, which nom's `separated_list0` reports as an error
      (`None`); a separator not followed by an equation ends the list before
      the separator. */
  function MoreEquations(sep: Separator, s: string): (r: Option<(seq<Equation>, string)>)
    decreases |s|
  {
    if |s| == 0 then None
    else
      match LineEnding(s)
      case None => Some(([], s))
      case Some(s1) =>
        match ParseEquationWith(sep, s1)
        case None => Some(([], s))
        case Some((eq, s2)) =>
          match MoreEquations(sep, s2)
          case None => None
          case Some((eqs, rest)) => Some(([eq] + eqs, rest))
  }

  /** `parse::all_equations` with the given separator between inputs. */
  function AllEquationsWith(sep: Separator, s: string): Option<(seq<Equation>, string)> {
    match ParseEquationWith(sep, s)
    case None => Some(([], s))
    case Some((eq, rest)) =>
      match MoreEquations(sep, rest)
      case None => None
      case Some((eqs, r)) => Some(([eq] + eqs, r))
  }

  /** `parse::all_equations` as written. */
  function AllEquations(s: string): Option<(seq<Equation>, string)> {
    AllEquationsWith(Multispace, s)
  }

  /** An equation that runs to the very end of the text makes the whole list
      fail: the `eof` separator consumes nothing. */
  lemma EquationAtEndFails(sep: Separator, s: string)
    requires ParseEquationWith(sep, s).Some? && ParseEquationWith(sep, s).value.1 == ""
    ensures AllEquationsWith(sep, s).None?
  {
  }

  /** The lines of a list of equations, each ending in a line feed. */
  function ShowLines(eqs: seq<Equation>): string
    requires forall k | 0 <= k < |eqs| :: 0 < |eqs[k].inputs|
  {
    if |eqs| == 0 then "" else ShowEquation(eqs[0]) + ("\n" + ShowLines(eqs[1..]))
  }

  predicate Printable(eqs: seq<Equation>) {
    forall k | 0 <= k < |eqs| ::
      && 0 < |eqs[k].inputs| && eqs[k].expectedResult <= U64Max
      && forall i | 0 <= i < |eqs[k].inputs| :: eqs[k].inputs[i] <= U64Max
  }

  lemma {:induction false} MoreEquationsShowLines(eqs: seq<Equation>)
    requires Printable(eqs)
    ensures MoreEquations(Space, "\n" + ShowLines(eqs)) == Some((eqs, "\n"))
  {
    if |eqs| == 0 {
      assert ParseUnsigned("", U64Max).None?;
      assert "\n" + ShowLines(eqs) == "\n";
      assert LineEnding("\n") == Some("");
    } else {
      var tail := eqs[1..];
      PrintableCons(eqs);
      var after := "\n" + ShowLines(tail);
      assert ShowLines(eqs) == ShowEquation(eqs[0]) + after;
      SpaceStopsAtLineEnd(eqs[0], ShowLines(tail));
      MoreEquationsShowLines(tail);
      MoreEquationsStep(Space, ShowLines(eqs), eqs[0], after);
      ConsTail(eqs);
    }
  }

  lemma PrintableCons(eqs: seq<Equation>)
    requires 0 < |eqs| && Printable(eqs)
    ensures Printable(eqs[1..])
    ensures 0 < |eqs[0].inputs| && eqs[0].expectedResult <= U64Max
    ensures forall i | 0 <= i < |eqs[0].inputs| :: eqs[0].inputs[i] <= U64Max
  {
    assert forall k | 1 <= k < |eqs| :: eqs[1..][k - 1] == eqs[k];
  }

  /** A line feed followed by an equation continues the list. */
  lemma MoreEquationsStep(sep: Separator, s: string, eq: Equation, after: string)
    requires ParseEquationWith(sep, s) == Some((eq, after))
    ensures MoreEquations(sep, "\n" + s) ==
              match MoreEquations(sep, after)
              case None => None
              case Some((eqs, rest)) => Some(([eq] + eqs, rest))
  {
    TagAppend("\n", s);
  }

  /** With `space1` between inputs, equations written one per line, each
      line ending in a line feed, read back in order; only the final line
      feed is left, since nothing follows it. */
  lemma AllEquationsShowLines(eqs: seq<Equation>)
    requires 0 < |eqs| && Printable(eqs)
    ensures AllEquationsWith(Space, ShowLines(eqs)) == Some((eqs, "\n"))
  {
    PrintableCons(eqs);
    SpaceStopsAtLineEnd(eqs[0], ShowLines(eqs[1..]));
    MoreEquationsShowLines(eqs[1..]);
    ConsTail(eqs);
  }

  lemma ConsTail<T>(xs: seq<T>)
    requires 0 < |xs|
    ensures xs == [xs[0]] + xs[1..]
  {
  }
}
