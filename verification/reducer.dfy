/** The evaluator behind `=`: two left-to-right passes over the aligned
    operand and operator lists, the first for `*` and `/`, the second for `+`
    and `-`, each splicing an evaluated operator and its right operand out of
    the lists. */
module Reducer {
  import opened Numbers

  /** What a pass leaves behind: the reduced lists, or the lists as they were
      when a division by zero stopped it. */
  datatype Reduction =
    | Reduced(nums: seq<string>, ops: seq<string>)
    | DivByZero(nums: seq<string>, ops: seq<string>)

  predicate IsOperator(op: string) { op == "+" || op == "-" || op == "*" || op == "/" }

  predicate AllOperators(ops: seq<string>) { forall k :: 0 <= k < |ops| ==> IsOperator(ops[k]) }

  predicate AllNumeral(nums: seq<string>) { forall k :: 0 <= k < |nums| ==> NumeralText(nums[k]) }

  /** Exact arithmetic for one operator; an unknown operator yields 0. */
  function Apply(op: string, a: real, b: real): real
    requires op == "/" ==> b != 0.0
  {
    if op == "*" then a * b
    else if op == "/" then a / b
    else if op == "+" then a + b
    else if op == "-" then a - b
    else 0.0
  }

  predicate DividesByZero(op: string, y: string) { op == "/" && ToNum(y) == 0.0 }

  /** Parse both operands, apply the operator, print the result. */
  function Combine(op: string, x: string, y: string): string
    requires !DividesByZero(op, y)
  {
    ToString(Apply(op, ToNum(x), ToNum(y)))
  }

  /** True for the two operators a pass evaluates. */
  predicate Picks(op: string, op1: string, op2: string) { op == op1 || op == op2 }

  /** The operators a pass leaves alone, in order. */
  function Without(ops: seq<string>, op1: string, op2: string): seq<string>
  {
    if ops == [] then []
    else (if Picks(ops[0], op1, op2) then [] else [ops[0]]) + Without(ops[1..], op1, op2)
  }

  /** One pass, resumed at operator index i: every op1/op2 from i on is
      evaluated left to right; the operator and its right operand leave the
      lists and the left operand is replaced by the result, and the scan
      looks at the same index again. */
  function SolveFor(nums: seq<string>, ops: seq<string>, op1: string, op2: string, i: nat): (r: Reduction)
    requires |nums| == |ops| + 1 && i <= |ops|
    ensures |r.nums| == |r.ops| + 1
    ensures r.Reduced? ==> r.ops == ops[..i] + Without(ops[i..], op1, op2)
    ensures AllNumeral(nums) ==> AllNumeral(r.nums)
    decreases |ops| - i
  {
    if i == |ops| then
      Reduced(nums, ops)
    else if Picks(ops[i], op1, op2) then
      var op, x, y := ops[i], nums[i], nums[i + 1];
      var ops' := ops[..i] + ops[i + 1..];
      var nums' := nums[..i + 1] + nums[i + 2..];
      DropOperator(ops, i, op1, op2);
      if DividesByZero(op, y) then
        DropNumber(nums, i, x);
        DivByZero(nums', ops')
      else
        var z := Combine(op, x, y);
        DropNumber(nums, i, z);
        SolveFor(nums'[i := z], ops', op1, op2, i)
    else
      KeepOperator(ops, i, op1, op2);
      SolveFor(nums, ops, op1, op2, i + 1)
  }

  /** Removing an evaluated operator leaves the operators still to come. */
  lemma DropOperator(ops: seq<string>, i: nat, op1: string, op2: string)
    requires i < |ops| && Picks(ops[i], op1, op2)
    ensures var ops' := ops[..i] + ops[i + 1..];
      |ops'| == |ops| - 1 &&
      ops'[..i] + Without(ops'[i..], op1, op2) == ops[..i] + Without(ops[i..], op1, op2)
  {
    var ops' := ops[..i] + ops[i + 1..];
    assert ops'[..i] == ops[..i] && ops'[i..] == ops[i + 1..];
  }

  /** Skipping an operator the pass leaves alone moves it before the scan. */
  lemma KeepOperator(ops: seq<string>, i: nat, op1: string, op2: string)
    requires i < |ops| && !Picks(ops[i], op1, op2)
    ensures ops[..i + 1] + Without(ops[i + 1..], op1, op2) == ops[..i] + Without(ops[i..], op1, op2)
  {
    assert ops[..i + 1] == ops[..i] + [ops[i]];
    assert ops[i..] == [ops[i]] + ops[i + 1..];
  }

  /** Folding the right operand into the left keeps the numbers numerals. */
  lemma DropNumber(nums: seq<string>, i: nat, z: string)
    requires i + 1 < |nums|
    ensures var nums' := nums[..i + 1] + nums[i + 2..];
      |nums'| == |nums| - 1 &&
      (AllNumeral(nums) ==> AllNumeral(nums')) &&
      (AllNumeral(nums) && NumeralText(z) ==> AllNumeral(nums'[i := z]))
  {
    var nums' := nums[..i + 1] + nums[i + 2..];
    assert forall k :: 0 <= k < |nums'| ==> nums'[k] == if k <= i then nums[k] else nums[k + 1];
  }

  /** Reference definition of a pass, by recursion on the last operator:
      reduce everything before it, then extend that result by the last
      operator and its right operand. */
  function Reduce(nums: seq<string>, ops: seq<string>, op1: string, op2: string): (r: Reduction)
    requires |nums| == |ops| + 1
    ensures r.Reduced? ==> |r.nums| == |r.ops| + 1
    decreases |ops|
  {
    if ops == [] then
      Reduced(nums, [])
    else
      var n := |ops| - 1;
      Extend(Reduce(nums[..n + 1], ops[..n], op1, op2), ops[n], nums[n + 1], op1, op2)
  }

  /** One more operator and operand after an already reduced prefix: an
      operator the pass does not evaluate is appended with its operand;
      one it evaluates folds the operand into the last value. */
  function Extend(prev: Reduction, op: string, y: string, op1: string, op2: string): (r: Reduction)
    requires prev.Reduced? ==> |prev.nums| == |prev.ops| + 1
    ensures r.Reduced? ==> |r.nums| == |r.ops| + 1
  {
    if prev.DivByZero? then prev
    else if !Picks(op, op1, op2) then Reduced(prev.nums + [y], prev.ops + [op])
    else if DividesByZero(op, y) then DivByZero(prev.nums, prev.ops)
    else
      var last := |prev.nums| - 1;
      Reduced(prev.nums[..last] + [Combine(op, prev.nums[last], y)], prev.ops)
  }

  /** Unfolding the reference definition at the (j+1)-th operator. */
  lemma ReducePrefix(nums: seq<string>, ops: seq<string>, op1: string, op2: string, j: nat)
    requires |nums| == |ops| + 1 && j < |ops|
    ensures Reduce(nums[..j + 2], ops[..j + 1], op1, op2)
         == Extend(Reduce(nums[..j + 1], ops[..j], op1, op2), ops[j], nums[j + 1], op1, op2)
  {
    assert nums[..j + 2][..j + 1] == nums[..j + 1];
    assert ops[..j + 1][..j] == ops[..j];
  }

  /** The pass fails at operator k: it evaluates it and its right operand is zero. */
  predicate FailsAt(nums: seq<string>, ops: seq<string>, op1: string, op2: string, k: int)
    requires |nums| == |ops| + 1
  {
    0 <= k < |ops| && Picks(ops[k], op1, op2) && DividesByZero(ops[k], nums[k + 1])
  }

  /** A pass stops with a division by zero exactly when some evaluated `/`
      has a zero right operand in the original lists: right operands are
      never results of earlier steps. */
  lemma {:induction false} SolveForFails(nums: seq<string>, ops: seq<string>, op1: string, op2: string, i: nat)
    requires |nums| == |ops| + 1 && i <= |ops|
    ensures SolveFor(nums, ops, op1, op2, i).DivByZero? <==>
      exists k :: i <= k && FailsAt(nums, ops, op1, op2, k)
    decreases |ops| - i
  {
    if i < |ops| {
      assert !FailsAt(nums, ops, op1, op2, i) ==>
        ((exists k :: i <= k && FailsAt(nums, ops, op1, op2, k)) <==>
         (exists k :: i + 1 <= k && FailsAt(nums, ops, op1, op2, k)));
      if !Picks(ops[i], op1, op2) {
        SolveForFails(nums, ops, op1, op2, i + 1);
      } else if !DividesByZero(ops[i], nums[i + 1]) {
        var op, x, y := ops[i], nums[i], nums[i + 1];
        var ops' := ops[..i] + ops[i + 1..];
        var nums' := (nums[..i + 1] + nums[i + 2..])[i := Combine(op, x, y)];
        SolveForFails(nums', ops', op1, op2, i);
        SplicedFailures(nums, ops, op1, op2, i, nums', ops');
      }
    }
  }

  /** After splicing operator i out, operator k of the shortened lists is
      operator k + 1 of the original ones, with the same right operand. */
  lemma SplicedFailures(nums: seq<string>, ops: seq<string>, op1: string, op2: string, i: nat,
                        nums': seq<string>, ops': seq<string>)
    requires |nums| == |ops| + 1 && i < |ops|
    requires ops' == ops[..i] + ops[i + 1..]
    requires |nums'| == |nums| - 1 && nums'[i + 1..] == nums[i + 2..]
    ensures (exists k :: i <= k && FailsAt(nums', ops', op1, op2, k)) <==>
            (exists k :: i + 1 <= k && FailsAt(nums, ops, op1, op2, k))
  {
    forall k | i <= k ensures FailsAt(nums', ops', op1, op2, k) <==> FailsAt(nums, ops, op1, op2, k + 1) {
      if k < |ops'| {
        assert ops'[k] == ops[k + 1];
        assert nums'[k + 1] == nums'[i + 1..][k - i] == nums[i + 2..][k - i] == nums[k + 2];
      }
    }
    if exists k :: i + 1 <= k && FailsAt(nums, ops, op1, op2, k) {
      var k :| i + 1 <= k && FailsAt(nums, ops, op1, op2, k);
      assert FailsAt(nums', ops', op1, op2, k - 1);
    }
  }

  /** Once a prefix of the lists fails, the whole pass fails. */
  lemma {:induction false} ReduceStaysFailed(nums: seq<string>, ops: seq<string>, op1: string, op2: string, j: nat)
    requires |nums| == |ops| + 1 && j <= |ops|
    requires Reduce(nums[..j + 1], ops[..j], op1, op2).DivByZero?
    ensures Reduce(nums, ops, op1, op2).DivByZero?
    decreases |ops|
  {
    if j < |ops| {
      var n := |ops| - 1;
      assert nums[..n + 1][..j + 1] == nums[..j + 1];
      assert ops[..n][..j] == ops[..j];
      ReduceStaysFailed(nums[..n + 1], ops[..n], op1, op2, j);
    } else {
      assert nums[..j + 1] == nums && ops[..j] == ops;
    }
  }

  /** The splicing loop, resumed at index i after the first j original
      operators were reduced, agrees with the reference definition. */
  lemma {:induction false} SolveForFollowsReduce(
    nums0: seq<string>, ops0: seq<string>, op1: string, op2: string,
    nums: seq<string>, ops: seq<string>, i: nat, j: nat)
    requires |nums0| == |ops0| + 1 && j <= |ops0|
    requires |nums| == |ops| + 1 && i <= |ops|
    requires Reduce(nums0[..j + 1], ops0[..j], op1, op2) == Reduced(nums[..i + 1], ops[..i])
    requires ops[i..] == ops0[j..] && nums[i + 1..] == nums0[j + 1..]
    ensures SolveFor(nums, ops, op1, op2, i).Reduced? == Reduce(nums0, ops0, op1, op2).Reduced?
    ensures SolveFor(nums, ops, op1, op2, i).Reduced? ==> SolveFor(nums, ops, op1, op2, i) == Reduce(nums0, ops0, op1, op2)
    decreases |ops| - i
  {
    if i == |ops| {
      assert |ops0[j..]| == 0;
      assert nums0[..j + 1] == nums0 && ops0[..j] == ops0;
      assert nums[..i + 1] == nums && ops[..i] == ops;
    } else {
      var op, y := ops[i], nums[i + 1];
      assert op == ops0[j] by { assert ops[i..][0] == ops0[j..][0]; }
      assert y == nums0[j + 1] by { assert nums[i + 1..][0] == nums0[j + 1..][0]; }
      ReducePrefix(nums0, ops0, op1, op2, j);
      if !Picks(op, op1, op2) {
        SkipStep(nums, ops, i);
        assert ops[i + 1..] == ops0[j + 1..] by { assert ops[i + 1..] == ops[i..][1..]; }
        assert nums[i + 2..] == nums0[j + 2..] by { assert nums[i + 2..] == nums[i + 1..][1..]; }
        SolveForFollowsReduce(nums0, ops0, op1, op2, nums, ops, i + 1, j + 1);
      } else if DividesByZero(op, y) {
        ReduceStaysFailed(nums0, ops0, op1, op2, j + 1);
      } else {
        var c := Combine(op, nums[i], y);
        var ops' := ops[..i] + ops[i + 1..];
        var nums' := (nums[..i + 1] + nums[i + 2..])[i := c];
        CombineStep(nums, ops, i, c);
        assert ops'[i..] == ops0[j + 1..] by { assert ops[i + 1..] == ops[i..][1..]; }
        assert nums'[i + 1..] == nums0[j + 2..] by { assert nums[i + 2..] == nums[i + 1..][1..]; }
        SolveForFollowsReduce(nums0, ops0, op1, op2, nums', ops', i, j + 1);
      }
    }
  }

  /** Skipping operator i extends the reduced prefix by it and its right operand. */
  lemma SkipStep(nums: seq<string>, ops: seq<string>, i: nat)
    requires |nums| == |ops| + 1 && i < |ops|
    ensures nums[..i + 2] == nums[..i + 1] + [nums[i + 1]]
    ensures ops[..i + 1] == ops[..i] + [ops[i]]
  {
  }

  /** Evaluating operator i replaces the last value of the reduced prefix and
      leaves the unreduced suffix one shorter. */
  lemma CombineStep(nums: seq<string>, ops: seq<string>, i: nat, c: string)
    requires |nums| == |ops| + 1 && i < |ops|
    ensures var nums' := (nums[..i + 1] + nums[i + 2..])[i := c];
      && nums'[..i + 1] == nums[..i + 1][..i] + [c]
      && nums'[i + 1..] == nums[i + 2..]
    ensures var ops' := ops[..i] + ops[i + 1..];
      ops'[..i] == ops[..i] && ops'[i..] == ops[i + 1..]
  {
  }

  /** A whole pass agrees with the reference definition: both fail together,
      and otherwise leave the same lists. */
  lemma SolveForIsReduce(nums: seq<string>, ops: seq<string>, op1: string, op2: string)
    requires |nums| == |ops| + 1
    ensures SolveFor(nums, ops, op1, op2, 0).Reduced? == Reduce(nums, ops, op1, op2).Reduced?
    ensures SolveFor(nums, ops, op1, op2, 0).Reduced? ==> SolveFor(nums, ops, op1, op2, 0) == Reduce(nums, ops, op1, op2)
  {
    assert ops[0..] == ops && nums[1..] == nums[1..];
    SolveForFollowsReduce(nums, ops, op1, op2, nums, ops, 0, 0);
  }

  /** The operators a pass leaves alone come from its input and are ones it
      does not evaluate, and every operator it does not evaluate is left. */
  lemma {:induction false} WithoutKeeps(ops: seq<string>, op1: string, op2: string)
    ensures forall k :: 0 <= k < |Without(ops, op1, op2)| ==>
      Without(ops, op1, op2)[k] in ops && !Picks(Without(ops, op1, op2)[k], op1, op2)
    ensures forall k :: 0 <= k < |ops| && !Picks(ops[k], op1, op2) ==> ops[k] in Without(ops, op1, op2)
    decreases |ops|
  {
    if ops != [] {
      WithoutKeeps(ops[1..], op1, op2);
      var w := Without(ops, op1, op2);
      var rest := Without(ops[1..], op1, op2);
      forall k | 0 <= k < |w| ensures w[k] in ops && !Picks(w[k], op1, op2) {
        if !Picks(ops[0], op1, op2) && k == 0 {
          assert w[k] == ops[0];
        } else {
          var k' := if Picks(ops[0], op1, op2) then k else k - 1;
          assert w[k] == rest[k'];
          assert rest[k'] in ops[1..];
        }
      }
      forall k | 0 <= k < |ops| && !Picks(ops[k], op1, op2) ensures ops[k] in w {
        if k == 0 {
          assert w[0] == ops[0];
        } else {
          assert ops[k] == ops[1..][k - 1];
          assert ops[k] in rest;
        }
      }
    }
  }

  /** A pass over operators it all evaluates leaves none. */
  lemma {:induction false} WithoutNone(ops: seq<string>, op1: string, op2: string)
    ensures (forall k :: 0 <= k < |ops| ==> Picks(ops[k], op1, op2)) ==> Without(ops, op1, op2) == []
    decreases |ops|
  {
    if ops != [] && Picks(ops[0], op1, op2) {
      WithoutNone(ops[1..], op1, op2);
    }
  }

  /** The whole evaluation behind `=`: `*` and `/` first, then `+` and `-`;
      a division by zero in the first pass stops it before the second. */
  function Evaluate(nums: seq<string>, ops: seq<string>): (r: Reduction)
    requires |nums| == |ops| + 1
    ensures |r.nums| == |r.ops| + 1
    ensures r.DivByZero? <==> exists k :: 0 <= k < |ops| && DividesByZero(ops[k], nums[k + 1])
    ensures r.Reduced? && AllOperators(ops) ==> r.ops == [] && |r.nums| == 1
    ensures AllNumeral(nums) ==> AllNumeral(r.nums)
  {
    var first := SolveFor(nums, ops, "*", "/", 0);
    SolveForFails(nums, ops, "*", "/", 0);
    assert forall k :: FailsAt(nums, ops, "*", "/", k) <==> 0 <= k < |ops| && DividesByZero(ops[k], nums[k + 1]);
    if first.DivByZero? then
      first
    else
      var second := SolveFor(first.nums, first.ops, "+", "-", 0);
      SolveForFails(first.nums, first.ops, "+", "-", 0);
      assert forall k :: !FailsAt(first.nums, first.ops, "+", "-", k);
      assert ops[..0] == [] && ops[0..] == ops;
      assert first.ops[..0] == [] && first.ops[0..] == first.ops;
      WithoutKeeps(ops, "*", "/");
      WithoutNone(first.ops, "+", "-");
      Reduced(second.nums, second.ops)
  }

  /** An equation of one operator between two numbers evaluates to that
      operator applied to them, whichever pass picks it. */
  lemma EvaluateSingle(op: string, x: string, y: string)
    requires IsOperator(op) && !DividesByZero(op, y)
    ensures Evaluate([x, y], [op]) == Reduced([Combine(op, x, y)], [])
  {
    var nums, ops, z := [x, y], [op], Combine(op, x, y);
    assert (nums[..1] + nums[2..])[0 := z] == [z];
    assert ops[..0] + ops[1..] == [];
    if Picks(op, "*", "/") {
      assert SolveFor(nums, ops, "*", "/", 0) == SolveFor([z], [], "*", "/", 0);
      assert SolveFor([z], [], "+", "-", 0) == Reduced([z], []);
    } else {
      assert SolveFor(nums, ops, "*", "/", 0) == Reduced(nums, ops);
      assert SolveFor(nums, ops, "+", "-", 0) == SolveFor([z], [], "+", "-", 0);
    }
  }

  /** Every evaluated operator step, division included, reads back as its
      exact result rounded to six decimals, so within half a millionth of
      it. */
  lemma CombineValue(op: string, x: string, y: string)
    requires !DividesByZero(op, y)
    ensures ToNum(Combine(op, x, y)) == RoundedValue(Apply(op, ToNum(x), ToNum(y)))
    ensures -0.0000005 <= ToNum(Combine(op, x, y)) - Apply(op, ToNum(x), ToNum(y)) <= 0.0000005
  {
    ToStringValue(Apply(op, ToNum(x), ToNum(y)));
  }

  /** Reference evaluation: the reference pass for `*` and `/`, then the one
      for `+` and `-`. */
  function Evaluation(nums: seq<string>, ops: seq<string>): Reduction
    requires |nums| == |ops| + 1
  {
    var first := Reduce(nums, ops, "*", "/");
    if first.DivByZero? then first else Reduce(first.nums, first.ops, "+", "-")
  }

  /** The splicing evaluator agrees with the reference evaluation. */
  lemma EvaluateIsEvaluation(nums: seq<string>, ops: seq<string>)
    requires |nums| == |ops| + 1
    ensures Evaluate(nums, ops).DivByZero? == Evaluation(nums, ops).DivByZero?
    ensures Evaluate(nums, ops).Reduced? ==> Evaluate(nums, ops) == Evaluation(nums, ops)
  {
    SolveForIsReduce(nums, ops, "*", "/");
    var first := SolveFor(nums, ops, "*", "/", 0);
    if first.Reduced? {
      SolveForIsReduce(first.nums, first.ops, "+", "-");
      SolveForFails(first.nums, first.ops, "+", "-", 0);
      assert forall k :: !FailsAt(first.nums, first.ops, "+", "-", k);
    }
  }

  // ---------------------------------------------------------------------
  // Precedence, stated on integer operands
  // ---------------------------------------------------------------------

  predicate IsIntOperator(op: string) { op == "+" || op == "-" || op == "*" }

  predicate AllIntOperators(ops: seq<string>) { forall k :: 0 <= k < |ops| ==> IsIntOperator(ops[k]) }

  predicate IsAdditive(op: string) { op == "+" || op == "-" }

  /** One operator on integers. `/` is used only where it divides exactly
      (see `Exact`), and there Dafny's division is the true quotient. */
  function IntApply(op: string, a: int, b: int): int
  {
    if op == "*" then a * b
    else if op == "/" then (if b == 0 then 0 else a / b)
    else if op == "+" then a + b
    else if op == "-" then a - b
    else 0
  }

  /** A step that stays whole: a `/` divides exactly by a nonzero divisor. */
  predicate Exact(op: string, a: int, b: int) { op == "/" ==> b != 0 && a % b == 0 }

  function IntStrings(xs: seq<int>): (s: seq<string>)
    ensures |s| == |xs| && forall k :: 0 <= k < |xs| ==> s[k] == IntToString(xs[k])
  {
    seq(|xs|, k requires 0 <= k < |xs| => IntToString(xs[k]))
  }

  /** Left-to-right product of a chain of factors. */
  function Product(xs: seq<int>): int
    requires |xs| >= 1
  {
    if |xs| == 1 then xs[0] else Product(xs[..|xs| - 1]) * xs[|xs| - 1]
  }

  /** Index of the last `+` or `-`, or -1 when there is none. */
  function LastAdditive(ops: seq<string>): (k: int)
    ensures -1 <= k < |ops|
    ensures k >= 0 ==> IsAdditive(ops[k])
    ensures forall j :: k < j < |ops| ==> !IsAdditive(ops[j])
  {
    if ops == [] then -1
    else if IsAdditive(ops[|ops| - 1]) then |ops| - 1
    else LastAdditive(ops[..|ops| - 1])
  }

  /** The textbook value of `x0 op0 x1 op1 ... xn` when `*` binds tighter
      than `+` and `-` and equal operators associate to the left: the sum
      before the last `+`/`-`, plus or minus the product chain after it. */
  function Value(xs: seq<int>, ops: seq<string>): int
    requires |xs| == |ops| + 1
    decreases |ops|
  {
    var k := LastAdditive(ops);
    if k < 0 then Product(xs)
    else
      var left := Value(xs[..k + 1], ops[..k]);
      var right := Product(xs[k + 1..]);
      if ops[k] == "+" then left + right else left - right
  }

  /** On integers, a step that stays whole is exact: nothing divides by 0,
      and the printed result is the integer result. */
  lemma CombineIntegers(op: string, a: int, b: int)
    requires IsOperator(op) && Exact(op, a, b)
    ensures !DividesByZero(op, IntToString(b))
    ensures Combine(op, IntToString(a), IntToString(b)) == IntToString(IntApply(op, a, b))
  {
    IntegerText(a);
    IntegerText(b);
    ApplyIntegers(op, a, b);
    IntegerText(IntApply(op, a, b));
  }

  lemma ApplyIntegers(op: string, a: int, b: int)
    requires IsOperator(op) && Exact(op, a, b)
    ensures Apply(op, a as real, b as real) == IntApply(op, a, b) as real
  {
    if op == "/" {
      var q := a / b;
      assert a == b * q;
      CastMul(b, q);
    } else {
      CastMul(a, b);
    }
  }

  lemma IntStringsPrefix(xs: seq<int>, n: nat)
    requires n <= |xs|
    ensures IntStrings(xs)[..n] == IntStrings(xs[..n])
  {
  }

  /** The reference pass on integer values; it is used only where no `/`
      occurs, so it never fails. */
  function IntReduce(xs: seq<int>, ops: seq<string>, op1: string, op2: string): (r: (seq<int>, seq<string>))
    requires |xs| == |ops| + 1
    ensures |r.0| == |r.1| + 1
    decreases |ops|
  {
    if ops == [] then
      (xs, [])
    else
      var n := |ops| - 1;
      IntExtend(IntReduce(xs[..n + 1], ops[..n], op1, op2), ops[n], xs[n + 1], op1, op2)
  }

  function IntExtend(prev: (seq<int>, seq<string>), op: string, y: int, op1: string, op2: string): (r: (seq<int>, seq<string>))
    requires |prev.0| == |prev.1| + 1
    ensures |r.0| == |r.1| + 1
  {
    if !Picks(op, op1, op2) then
      (prev.0 + [y], prev.1 + [op])
    else
      var last := |prev.0| - 1;
      (prev.0[..last] + [IntApply(op, prev.0[last], y)], prev.1)
  }

  /** One step of the reference pass on printed integers is the printed
      integer step. */
  lemma ExtendIntegers(ys: seq<int>, yops: seq<string>, op: string, y: int, op1: string, op2: string)
    requires |ys| == |yops| + 1 && IsOperator(op)
    requires Picks(op, op1, op2) ==> Exact(op, ys[|ys| - 1], y)
    ensures var r := IntExtend((ys, yops), op, y, op1, op2);
      Extend(Reduced(IntStrings(ys), yops), op, IntToString(y), op1, op2) == Reduced(IntStrings(r.0), r.1)
  {
    var last := |ys| - 1;
    if Picks(op, op1, op2) {
      CombineIntegers(op, ys[last], y);
      IntStringsPrefix(ys, last);
      IntStringsLast(ys[..last], IntApply(op, ys[last], y));
    } else {
      IntStringsLast(ys, y);
    }
  }

  lemma IntStringsLast(xs: seq<int>, y: int)
    ensures IntStrings(xs + [y]) == IntStrings(xs) + [IntToString(y)]
  {
  }

  /** Every step a pass performs stays whole. */
  predicate ExactPass(xs: seq<int>, ops: seq<string>, op1: string, op2: string)
    requires |xs| == |ops| + 1
    decreases |ops|
  {
    ops == [] ||
    var n := |ops| - 1;
    var p := IntReduce(xs[..n + 1], ops[..n], op1, op2);
    && ExactPass(xs[..n + 1], ops[..n], op1, op2)
    && (Picks(ops[n], op1, op2) ==> Exact(ops[n], p.0[|p.0| - 1], xs[n + 1]))
  }

  /** Without `/`, every step stays whole. */
  lemma {:induction false} IntOperatorsExact(xs: seq<int>, ops: seq<string>, op1: string, op2: string)
    requires |xs| == |ops| + 1 && AllIntOperators(ops)
    ensures AllOperators(ops) && ExactPass(xs, ops, op1, op2)
    decreases |ops|
  {
    if ops != [] {
      IntOperatorsExact(xs[..|ops|], ops[..|ops| - 1], op1, op2);
    }
  }

  /** The `+`/`-` pass never divides, so its steps stay whole. */
  lemma {:induction false} AdditiveExact(xs: seq<int>, ops: seq<string>)
    requires |xs| == |ops| + 1
    ensures ExactPass(xs, ops, "+", "-")
    decreases |ops|
  {
    if ops != [] {
      AdditiveExact(xs[..|ops|], ops[..|ops| - 1]);
    }
  }

  /** The reference pass over printed integers mirrors the pass over the
      integers themselves, as long as every step stays whole. */
  lemma {:induction false} ReduceIntegers(xs: seq<int>, ops: seq<string>, op1: string, op2: string)
    requires |xs| == |ops| + 1 && AllOperators(ops) && ExactPass(xs, ops, op1, op2)
    ensures var r := IntReduce(xs, ops, op1, op2);
      Reduce(IntStrings(xs), ops, op1, op2) == Reduced(IntStrings(r.0), r.1)
    decreases |ops|
  {
    if ops != [] {
      var n := |ops| - 1;
      ReduceIntegers(xs[..n + 1], ops[..n], op1, op2);
      IntStringsPrefix(xs, n + 1);
      var prev := IntReduce(xs[..n + 1], ops[..n], op1, op2);
      ExtendIntegers(prev.0, prev.1, ops[n], xs[n + 1], op1, op2);
    }
  }

  /** What the first integer pass leaves: the first pass over everything
      before the last `+`/`-`, that operator, and the product chain after it. */
  function Terms(xs: seq<int>, ops: seq<string>): (seq<int>, seq<string>)
    requires |xs| == |ops| + 1
  {
    var k := LastAdditive(ops);
    if k < 0 then
      ([Product(xs)], [])
    else
      var p := IntReduce(xs[..k + 1], ops[..k], "*", "/");
      (p.0 + [Product(xs[k + 1..])], p.1 + [ops[k]])
  }

  /** A trailing `*` extends the last product chain by one factor. */
  lemma TermsMultiply(xs: seq<int>, ops: seq<string>)
    requires |xs| == |ops| + 1 && |ops| >= 1 && ops[|ops| - 1] == "*"
    ensures var n := |ops| - 1;
      Terms(xs, ops) == IntExtend(Terms(xs[..n + 1], ops[..n]), "*", xs[n + 1], "*", "/")
  {
    var n := |ops| - 1;
    var xs', ops' := xs[..n + 1], ops[..n];
    var k := LastAdditive(ops');
    assert LastAdditive(ops) == k;
    ProductLast(xs, k + 1);
    assert xs[k + 1..|xs| - 1] == xs'[k + 1..];
    if k >= 0 {
      assert xs'[..k + 1] == xs[..k + 1];
      assert ops'[..k] == ops[..k];
    } else {
      assert xs'[k + 1..] == xs';
      assert xs[k + 1..] == xs;
      assert Product(xs) == Product(xs') * xs[n + 1];
      var r := IntExtend(Terms(xs', ops'), "*", xs[n + 1], "*", "/");
      assert r.0 == Terms(xs, ops).0 && r.1 == Terms(xs, ops).1;
    }
  }

  /** A trailing `+` or `-` starts a new chain of one factor. */
  lemma TermsAdditive(xs: seq<int>, ops: seq<string>)
    requires |xs| == |ops| + 1 && |ops| >= 1 && IsAdditive(ops[|ops| - 1])
    ensures var n := |ops| - 1;
      Terms(xs, ops) == IntExtend(IntReduce(xs[..n + 1], ops[..n], "*", "/"), ops[n], xs[n + 1], "*", "/")
  {
    var n := |ops| - 1;
    assert LastAdditive(ops) == n;
    assert xs[n + 1..] == [xs[n + 1]];
  }

  /** The first integer pass leaves the shape `Terms` describes. */
  lemma {:induction false} IntTerms(xs: seq<int>, ops: seq<string>)
    requires |xs| == |ops| + 1 && AllIntOperators(ops)
    ensures IntReduce(xs, ops, "*", "/") == Terms(xs, ops)
    decreases |ops|
  {
    if ops != [] {
      var n := |ops| - 1;
      if IsAdditive(ops[n]) {
        TermsAdditive(xs, ops);
      } else {
        assert ops[n] == "*";
        IntTerms(xs[..n + 1], ops[..n]);
        TermsMultiply(xs, ops);
      }
    } else {
      assert xs == [Product(xs)];
    }
  }

  /** The last factor of a chain multiplies the product of the others. */
  lemma ProductLast(xs: seq<int>, from: nat)
    requires from < |xs| - 1
    ensures Product(xs[from..]) == Product(xs[from..|xs| - 1]) * xs[|xs| - 1]
  {
    var tail := xs[from..];
    assert tail[..|tail| - 1] == xs[from..|xs| - 1];
  }

  /** The second integer pass over the first one's result is the textbook value. */
  lemma {:induction false} IntValue(xs: seq<int>, ops: seq<string>)
    requires |xs| == |ops| + 1 && AllIntOperators(ops)
    ensures var r := IntReduce(xs, ops, "*", "/");
      var s := IntReduce(r.0, r.1, "+", "-");
      s.0 == [Value(xs, ops)] && s.1 == []
    decreases |ops|
  {
    IntTerms(xs, ops);
    var k := LastAdditive(ops);
    if k >= 0 {
      assert IsAdditive(ops[k]);
      var xs', ops' := xs[..k + 1], ops[..k];
      IntValue(xs', ops');
      var p := IntReduce(xs', ops', "*", "/");
      var t := Product(xs[k + 1..]);
      assert IntReduce(xs, ops, "*", "/") == (p.0 + [t], p.1 + [ops[k]]);
      SumStep(p.0, p.1, ops[k], t, Value(xs', ops'));
      assert IntApply(ops[k], Value(xs', ops'), t) == Value(xs, ops);
    } else {
      assert IntReduce(xs, ops, "*", "/") == ([Product(xs)], []);
    }
  }

  /** A trailing `+`/`-` term adds to or subtracts from the sum so far. */
  lemma SumStep(ys: seq<int>, yops: seq<string>, op: string, t: int, v: int)
    requires |ys| == |yops| + 1 && IsAdditive(op)
    requires IntReduce(ys, yops, "+", "-").0 == [v] && IntReduce(ys, yops, "+", "-").1 == []
    ensures var s := IntReduce(ys + [t], yops + [op], "+", "-");
      s.0 == [IntApply(op, v, t)] && s.1 == []
  {
    var zs, zops := ys + [t], yops + [op];
    assert zs[..|yops| + 1] == ys && zops[..|yops|] == yops;
  }

  /** With integer operands and `+`, `-`, `*`, the two reference passes
      produce exactly the textbook value. */
  lemma ReferenceValue(xs: seq<int>, ops: seq<string>)
    requires |xs| == |ops| + 1 && AllIntOperators(ops)
    ensures Evaluation(IntStrings(xs), ops) == Reduced([IntToString(Value(xs, ops))], [])
  {
    IntOperatorsExact(xs, ops, "*", "/");
    ReduceIntegers(xs, ops, "*", "/");
    var r := IntReduce(xs, ops, "*", "/");
    WithoutKeepsInts(xs, ops);
    IntOperatorsExact(r.0, r.1, "+", "-");
    ReduceIntegers(r.0, r.1, "+", "-");
    IntValue(xs, ops);
    assert IntStrings([Value(xs, ops)]) == [IntToString(Value(xs, ops))];
  }

  /** The operators left by an integer pass are still integer operators. */
  lemma {:induction false} WithoutKeepsInts(xs: seq<int>, ops: seq<string>)
    requires |xs| == |ops| + 1 && AllIntOperators(ops)
    ensures AllIntOperators(IntReduce(xs, ops, "*", "/").1)
    decreases |ops|
  {
    if ops != [] {
      WithoutKeepsInts(xs[..|ops|], ops[..|ops| - 1]);
    }
  }

  /** Precedence: the evaluator, run on integer operands with `+`, `-` and
      `*`, prints the textbook value of the expression. */
  lemma EvaluateIntegers(xs: seq<int>, ops: seq<string>)
    requires |xs| == |ops| + 1 && AllIntOperators(ops)
    ensures Evaluate(IntStrings(xs), ops) == Reduced([IntToString(Value(xs, ops))], [])
  {
    ReferenceValue(xs, ops);
    EvaluateIsEvaluation(IntStrings(xs), ops);
  }

  /** The operators left by a pass are operators. */
  lemma {:induction false} KeepsOperators(xs: seq<int>, ops: seq<string>, op1: string, op2: string)
    requires |xs| == |ops| + 1 && AllOperators(ops)
    ensures AllOperators(IntReduce(xs, ops, op1, op2).1)
    decreases |ops|
  {
    if ops != [] {
      KeepsOperators(xs[..|ops|], ops[..|ops| - 1], op1, op2);
    }
  }

  /** Both integer passes, `*` and `/` first, then `+` and `-`. */
  function IntEvaluation(xs: seq<int>, ops: seq<string>): (seq<int>, seq<string>)
    requires |xs| == |ops| + 1
  {
    var r := IntReduce(xs, ops, "*", "/");
    IntReduce(r.0, r.1, "+", "-")
  }

  /** Round trip: whole numbers with all four operators, where every
      division divides exactly, evaluate to the plain text of one integer,
      the result of the same passes on the integers; nothing is lost or
      added by printing and reading back the intermediate results. */
  lemma EvaluateExact(xs: seq<int>, ops: seq<string>)
    requires |xs| == |ops| + 1 && AllOperators(ops) && ExactPass(xs, ops, "*", "/")
    ensures var s := IntEvaluation(xs, ops);
      |s.0| == 1 && Evaluate(IntStrings(xs), ops) == Reduced([IntToString(s.0[0])], [])
  {
    var r := IntReduce(xs, ops, "*", "/");
    ReduceIntegers(xs, ops, "*", "/");
    KeepsOperators(xs, ops, "*", "/");
    AdditiveExact(r.0, r.1);
    ReduceIntegers(r.0, r.1, "+", "-");
    var s := IntReduce(r.0, r.1, "+", "-");
    EvaluateIsEvaluation(IntStrings(xs), ops);
    assert |IntStrings(s.0)| == 1;
    assert IntStrings(s.0) == [IntToString(s.0[0])];
  }
}
