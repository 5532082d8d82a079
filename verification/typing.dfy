/** A whole equation typed on a fresh calculator: positive whole numbers,
    digit by digit, joined by operators, then `=`. With `+`, `-` and `*` the
    display ends up showing the textbook value of the equation, with `*`
    binding tighter than `+` and `-`; with `/` as well, as long as every
    division is exact, it shows a plain integer. */
module Typing {
  import opened Numbers
  import opened Reducer
  import opened Calculator
  import opened Keys

  predicate Positive(xs: seq<int>) { forall k :: 0 <= k < |xs| ==> xs[k] >= 1 }

  /** The keys typed before the last number: every earlier number followed
      by its operator. */
  function LeadKeys(xs: seq<int>, ops: seq<string>): string
    requires |xs| == |ops| + 1
    decreases |ops|
  {
    if ops == [] then ""
    else
      var n := |ops| - 1;
      LeadKeys(xs[..n + 1], ops[..n]) + IntToString(xs[n]) + ops[n]
  }

  /** The keys of the whole equation, without the `=`. */
  function EquationKeys(xs: seq<int>, ops: seq<string>): string
    requires |xs| == |ops| + 1
  {
    LeadKeys(xs, ops) + IntToString(xs[|ops|])
  }

  /** The digits of a positive number: no sign, no leading zero. */
  lemma PositiveText(x: int)
    requires x >= 1
    ensures var s := IntToString(x);
      AllDigits(s) && |s| >= 1 && s[0] != '0' && s != "0" && NumeralText(s)
  {
    var s := IntToString(x);
  }

  /** Typing a positive number over a plain 0 shows the number. */
  lemma TypingNumber(c: Calc, x: int)
    requires Open(c) && !c.lastWasOp && c.short == "0" && x >= 1
    ensures Run(c, IntToString(x)) == c.(short := IntToString(x))
  {
    var s := IntToString(x);
    PositiveText(x);
    var c' := c.(short := [s[0]]);
    TypingStart(c, s);
    TypingDigits(c', s[1..]);
    assert [s[0]] + s[1..] == s;
  }

  lemma TypingStart(c: Calc, s: string)
    requires Open(c) && !c.lastWasOp && c.short == "0"
    requires AllDigits(s) && |s| >= 1 && s[0] != '0'
    ensures Run(c, s) == Run(c.(short := [s[0]]), s[1..])
    ensures EditingNumber(c.(short := [s[0]]))
  {
    DigitKey(c, s[0]);
    AppendNumeral("", s[0]);
    assert [] + [s[0]] == [s[0]];
  }

  /** Typing a positive number after an operator closes the operator and
      shows the number. */
  lemma NumberAfterOperatorKey(c: Calc, x: int)
    requires Open(c) && c.lastWasOp && x >= 1
    ensures Run(c, IntToString(x)) ==
      c.(ops := c.ops + [c.short], long := c.long + c.short, short := IntToString(x), lastWasOp := false)
  {
    var s := IntToString(x);
    PositiveText(x);
    var c' := c.(ops := c.ops + [c.short], long := c.long + c.short, short := [s[0]], lastWasOp := false);
    AfterOperatorStart(c, s);
    TypingDigits(c', s[1..]);
    assert [s[0]] + s[1..] == s;
  }

  lemma AfterOperatorStart(c: Calc, s: string)
    requires Open(c) && c.lastWasOp
    requires AllDigits(s) && |s| >= 1 && s[0] != '0'
    ensures var c' := c.(ops := c.ops + [c.short], long := c.long + c.short, short := [s[0]], lastWasOp := false);
      Run(c, s) == Run(c', s[1..]) && EditingNumber(c')
  {
    NumberAfterOperator(c, s[0]);
    AppendNumeral("", s[0]);
    assert [] + [s[0]] == [s[0]];
  }

  /** An operator after a positive number. */
  lemma OperatorKey(c: Calc, x: int, op: string)
    requires Open(c) && !c.lastWasOp && x >= 1 && c.short == IntToString(x)
    requires IsOperator(op)
    ensures Run(c, op) ==
      c.(nums := c.nums + [IntToString(x)], long := c.long + IntToString(x), short := op, lastWasOp := true)
  {
    PositiveText(x);
    var s := IntToString(x);
    assert |op| == 1 && op == [op[0]];
    OperatorAfterNumber(c, op[0]);
    assert IsDigit(s[|s| - 1]);
  }

  /** The state after typing an equation without its `=`: the last number
      is being edited, every earlier number and every operator has been
      collected. */
  function Typed(xs: seq<int>, ops: seq<string>): Calc
    requires |xs| == |ops| + 1
  {
    var n := |ops|;
    Calc(IntToString(xs[n]), LeadKeys(xs, ops), false, IntStrings(xs[..n]), ops)
  }

  /** A typed equation is an equation being entered. */
  lemma TypedOpen(xs: seq<int>, ops: seq<string>)
    requires |xs| == |ops| + 1 && AllOperators(ops) && Positive(xs)
    ensures Open(Typed(xs, ops))
  {
    var n := |ops|;
    var c := Typed(xs, ops);
    PositiveText(xs[n]);
    forall k | 0 <= k < n
      ensures NumeralText(c.nums[k])
    {
      PositiveText(xs[k]);
    }
    if ops != [] {
      var l := LeadKeys(xs, ops);
      assert l[|l| - 1] == ops[n - 1][0];
    }
  }

  /** The typed state of one more operator and number, on top of the typed
      state before them. */
  lemma TypedNext(xs: seq<int>, ops: seq<string>)
    requires |xs| == |ops| + 1 && |ops| >= 1
    ensures var n := |ops| - 1;
      var s := Typed(xs[..n + 1], ops[..n]);
      var x, num := IntToString(xs[n]), IntToString(xs[n + 1]);
      && s.short == x
      && EquationKeys(xs, ops) == EquationKeys(xs[..n + 1], ops[..n]) + ops[n] + num
      && Typed(xs, ops) == Calc(num, s.long + x + ops[n], false, s.nums + [x], s.ops + [ops[n]])
  {
    var n := |ops| - 1;
    var xs' := xs[..n + 1];
    assert xs'[..n] == xs[..n] && xs'[n] == xs[n];
    assert IntStrings(xs[..n]) + [IntToString(xs[n])] == IntStrings(xs[..n + 1]);
    assert ops[..n] + [ops[n]] == ops;
  }

  lemma TypedPrefix(xs: seq<int>, ops: seq<string>)
    requires |xs| == |ops| + 1 && |ops| >= 1 && AllOperators(ops) && Positive(xs)
    ensures var n := |ops| - 1;
      AllOperators(ops[..n]) && Positive(xs[..n + 1])
  {
  }

  /** A single number typed on a fresh calculator. */
  lemma TypedFirst(xs: seq<int>)
    requires |xs| == 1 && xs[0] >= 1
    ensures Run(Init, EquationKeys(xs, [])) == Typed(xs, [])
  {
    TypedOne(xs);
    InitOpen();
    TypingNumber(Init, xs[0]);
  }

  lemma InitOpen()
    ensures Open(Init) && !Init.lastWasOp && Init.short == "0"
  {
  }

  lemma TypedOne(xs: seq<int>)
    requires |xs| == 1
    ensures EquationKeys(xs, []) == IntToString(xs[0])
    ensures Typed(xs, []) == Init.(short := IntToString(xs[0]))
  {
    assert xs[..0] == [];
  }

  /** Typing an equation of positive whole numbers without its `=` reaches
      the typed state. */
  lemma {:induction false} TypedState(xs: seq<int>, ops: seq<string>)
    requires |xs| == |ops| + 1 && AllOperators(ops) && Positive(xs)
    ensures Run(Init, EquationKeys(xs, ops)) == Typed(xs, ops)
    decreases |ops|
  {
    if ops == [] {
      TypedFirst(xs);
    } else {
      var n := |ops| - 1;
      TypedPrefix(xs, ops);
      TypedState(xs[..n + 1], ops[..n]);
      TypedAgain(xs, ops);
    }
  }

  /** The induction step: from the typed state of all but the last operator
      and number to the typed state of the whole equation. */
  lemma TypedAgain(xs: seq<int>, ops: seq<string>)
    requires |xs| == |ops| + 1 && |ops| >= 1 && AllOperators(ops) && Positive(xs)
    requires var n := |ops| - 1;
      Run(Init, EquationKeys(xs[..n + 1], ops[..n])) == Typed(xs[..n + 1], ops[..n])
    ensures Run(Init, EquationKeys(xs, ops)) == Typed(xs, ops)
  {
    var n := |ops| - 1;
    var xs', ops' := xs[..n + 1], ops[..n];
    TypedPrefix(xs, ops);
    TypedOpen(xs', ops');
    TypedNext(xs, ops);
    TypedStep(Typed(xs', ops'), EquationKeys(xs', ops'), xs[n], ops[n], xs[n + 1]);
  }

  /** One more operator and number after the keys `keys`, which lead to a
      number being edited. */
  lemma TypedStep(s: Calc, keys: string, x: int, op: string, y: int)
    requires Run(Init, keys) == s
    requires Open(s) && !s.lastWasOp && x >= 1 && y >= 1 && s.short == IntToString(x)
    requires IsOperator(op)
    ensures Run(Init, keys + op + IntToString(y)) ==
      Calc(IntToString(y), s.long + IntToString(x) + op, false, s.nums + [IntToString(x)], s.ops + [op])
  {
    var num := IntToString(y);
    RunAppend(Init, keys + op, num);
    RunAppend(Init, keys, op);
    OperatorKey(s, x, op);
    var t := Run(s, op);
    NumberAfterOperatorKey(t, y);
  }

  /** Typing an equation of positive whole numbers with `+`, `-` and `*`
      and then `=` shows its textbook value and leaves the equation, closed
      by `=`, in the long output. */
  lemma EquationResult(xs: seq<int>, ops: seq<string>)
    requires |xs| == |ops| + 1 && AllIntOperators(ops) && Positive(xs)
    ensures Run(Init, EquationKeys(xs, ops) + "=") ==
      Calc(IntToString(Value(xs, ops)), EquationKeys(xs, ops) + "=", true, [], [])
  {
    InitOpen();
    var s := Typed(xs, ops);
    TypedState(xs, ops);
    TypedOpen(xs, ops);
    RunAppend(Init, EquationKeys(xs, ops), "=");
    RunSingle(s, '=');
    TypedEquals(xs, ops);
  }

  /** `=` on a typed equation, however it was reached, shows the textbook
      value and closes the equation in the long output. */
  lemma TypedEquals(xs: seq<int>, ops: seq<string>)
    requires |xs| == |ops| + 1 && AllIntOperators(ops) && Positive(xs)
    ensures Inv(Typed(xs, ops))
    ensures Step(Typed(xs, ops), '=') ==
      Calc(IntToString(Value(xs, ops)), EquationKeys(xs, ops) + "=", true, [], [])
  {
    var s := Typed(xs, ops);
    TypedClosed(xs, ops);
    EqualsKey(s);
    EvaluateIntegers(xs, ops);
  }

  /** Round trip at the keys: typing whole numbers with any of the four
      operators, where every division divides exactly, and then `=` shows
      the plain text of one integer, the result of the same two passes on
      the integers, and closes the equation in the long output. */
  lemma ExactEquationResult(xs: seq<int>, ops: seq<string>)
    requires |xs| == |ops| + 1 && AllOperators(ops) && Positive(xs) && ExactPass(xs, ops, "*", "/")
    ensures var s := IntEvaluation(xs, ops);
      |s.0| == 1 &&
      Run(Init, EquationKeys(xs, ops) + "=") == Calc(IntToString(s.0[0]), EquationKeys(xs, ops) + "=", true, [], [])
  {
    InitOpen();
    var s := Typed(xs, ops);
    TypedState(xs, ops);
    TypedOpen(xs, ops);
    RunAppend(Init, EquationKeys(xs, ops), "=");
    RunSingle(s, '=');
    TypedExactEquals(xs, ops);
  }

  /** `=` on a typed equation whose divisions are exact shows the integer
      result of the two passes. */
  lemma TypedExactEquals(xs: seq<int>, ops: seq<string>)
    requires |xs| == |ops| + 1 && AllOperators(ops) && Positive(xs) && ExactPass(xs, ops, "*", "/")
    ensures Inv(Typed(xs, ops))
    ensures var s := IntEvaluation(xs, ops);
      |s.0| == 1 &&
      Step(Typed(xs, ops), '=') == Calc(IntToString(s.0[0]), EquationKeys(xs, ops) + "=", true, [], [])
  {
    var s := Typed(xs, ops);
    TypedClosed(xs, ops);
    EqualsKey(s);
    EvaluateExact(xs, ops);
  }

  /** What `=` closes in a typed state: the whole equation, with the last
      number as typed. */
  lemma TypedClosed(xs: seq<int>, ops: seq<string>)
    requires |xs| == |ops| + 1 && AllOperators(ops) && Positive(xs)
    ensures var c := Typed(xs, ops);
      && Open(c) && !Completed(c) && c.short != DivByZeroErr
      && TrimPoint(c.short) == c.short
      && c.nums + [c.short] == IntStrings(xs)
      && c.long + c.short == EquationKeys(xs, ops)
  {
    var n := |ops|;
    var last := IntToString(xs[n]);
    TypedOpen(xs, ops);
    PositiveText(xs[n]);
    ErrorNotNumeral();
    assert IsDigit(last[|last| - 1]);
    assert IntStrings(xs[..n]) + [last] == IntStrings(xs);
  }

  /** An operator typed between an equation and `=` is dropped: the display
      and the long output are those of the equation closed by `=`. */
  lemma TrailingOperatorIgnored(xs: seq<int>, ops: seq<string>, op: string)
    requires |xs| == |ops| + 1 && AllOperators(ops) && Positive(xs)
    requires IsOperator(op)
    ensures Run(Init, EquationKeys(xs, ops) + op + "=") == Run(Init, EquationKeys(xs, ops) + "=")
  {
    InitOpen();
    var keys := EquationKeys(xs, ops);
    var s := Typed(xs, ops);
    TypedState(xs, ops);
    TypedClosed(xs, ops);
    PositiveText(xs[|ops|]);
    assert keys + op + "=" == keys + (op + "=");
    RunAppend(Init, keys, op + "=");
    RunAppend(Init, keys, "=");
    OperatorBeforeEqualsRun(s, op);
  }
}
