/** What each kind of key press does to a calculator, and what a whole
    typed equation produces. */
module Keys {
  import opened Numbers
  import opened Reducer
  import opened Calculator

  predicate IsOperatorKey(r: char) { r == '+' || r == '-' || r == '*' || r == '/' }

  /** A digit, point or operator key that none of the special cases catches
      goes to `Enter`. */
  lemma StepEnters(c: Calc, r: char)
    requires Inv(c) && c.short != DivByZeroErr && (IsDigit(r) || r == '.' || IsOp(r))
    requires !((r == '+' || r == '*' || r == '/') && c.short == "0" && c.long == "")
    requires !(c.short == "0" && r == '-')
    ensures Step(c, r) == Enter(c, r)
  {
    KeyValid(r);
  }

  // ---------------------------------------------------------------------
  // Keys that do not edit
  // ---------------------------------------------------------------------

  /** A key outside the accepted set changes nothing. */
  lemma InvalidKeyIgnored(c: Calc, r: char)
    requires Inv(c) && r !in ValidInputs
    ensures Step(c, r) == c
  {
  }

  /** `C` always returns to the fresh calculator. */
  lemma ClearResets(c: Calc)
    requires Inv(c)
    ensures Step(c, 'C') == Init
  {
    KeyValid('C');
  }

  /** The division-by-zero error clears itself: the next accepted key acts as
      on a fresh calculator. */
  lemma ErrorSelfClears(c: Calc, r: char)
    requires Inv(c) && c.short == DivByZeroErr && r in ValidInputs
    ensures Step(c, r) == Step(Init, r)
  {
  }

  /** After the error, a session that starts with an accepted key runs as
      on a fresh calculator. */
  lemma ErrorForgotten(c: Calc, keys: string)
    requires Inv(c) && c.short == DivByZeroErr && keys != [] && keys[0] in ValidInputs
    ensures Run(c, keys) == Run(Init, keys)
  {
    ErrorSelfClears(c, keys[0]);
  }

  /** On a fresh display, `+`, `*` and `/` are ignored. */
  lemma PristineOperatorIgnored(c: Calc, r: char)
    requires Inv(c) && c.short == "0" && c.long == "" && (r == '+' || r == '*' || r == '/')
    ensures Step(c, r) == c
  {
  }

  /** A `-` on a plain 0 starts a negative number instead of subtracting. */
  lemma MinusOnZeroIsSign(c: Calc)
    requires Inv(c) && c.short == "0"
    ensures Step(c, '-') == c.(short := "-")
  {
    KeyValid('-');
  }

  // ---------------------------------------------------------------------
  // Editing a number
  // ---------------------------------------------------------------------

  /** A digit extends the number being edited; a plain 0 is replaced by it. */
  lemma DigitKey(c: Calc, r: char)
    requires Open(c) && !c.lastWasOp && IsDigit(r)
    ensures Step(c, r) == c.(short := if c.short == "0" then [r] else c.short + [r])
  {
    ErrorNotNumeral();
    StepEnters(c, r);
    EnterDigit(c, r);
  }

  lemma EnterDigit(c: Calc, r: char)
    requires Open(c) && !c.lastWasOp && IsDigit(r)
    ensures Enter(c, r) == c.(short := if c.short == "0" then [r] else c.short + [r])
  {
    var e := Edit(c, r);
    assert e.short == (if c.short == "0" then [r] else c.short + [r]);
    assert e.short[|e.short| - 1] == r;
  }

  /** A point is added at most once, and a number that starts with a point
      starts as `0.`. */
  lemma PointKey(c: Calc)
    requires Open(c) && !c.lastWasOp
    ensures var d := Step(c, '.');
      && d.short == (if c.short == "0" || c.short == "" || c.short == "." then "0."
                     else if '.' in c.short then c.short
                     else c.short + ".")
      && d.long == c.long && d.nums == c.nums && d.ops == c.ops && !d.lastWasOp
      && NumeralText(d.short)
  {
    ErrorNotNumeral();
    StepEnters(c, '.');
    EnterPoint(c);
  }

  lemma EnterPoint(c: Calc)
    requires Open(c) && !c.lastWasOp
    ensures var d := Enter(c, '.');
      && d.short == (if c.short == "0" || c.short == "" || c.short == "." then "0."
                     else if '.' in c.short then c.short
                     else c.short + ".")
      && d.long == c.long && d.nums == c.nums && d.ops == c.ops && !d.lastWasOp
  {
    var e := Edit(c, '.');
    if c.short == "0" || c.short == "" {
      assert e.short == ".";
    } else if '.' in c.short {
      assert e.short == c.short;
    } else {
      assert e.short == c.short + ".";
      assert |e.short| >= 2;
    }
  }

  /** A number is being edited that is neither empty nor a plain 0. */
  predicate EditingNumber(c: Calc)
  {
    Open(c) && !c.lastWasOp && |c.short| >= 1 && c.short != "0"
  }

  /** One more digit keeps a number being edited. */
  lemma DigitKeepsEditing(c: Calc, r: char)
    requires EditingNumber(c) && IsDigit(r)
    ensures EditingNumber(c.(short := c.short + [r]))
  {
    AppendNumeral(c.short, r);
  }

  /** Typing the first of several digits appends it. */
  lemma RunFirstDigit(c: Calc, ds: string)
    requires EditingNumber(c) && AllDigits(ds) && ds != []
    ensures EditingNumber(c.(short := c.short + [ds[0]]))
    ensures Run(c, ds) == Run(c.(short := c.short + [ds[0]]), ds[1..])
  {
    DigitKey(c, ds[0]);
    AppendNumeral(c.short, ds[0]);
  }

  // Sequence facts kept apart from the `Run` terms, where they are cheap.

  lemma ShiftFirst(s: string, ds: string)
    requires ds != []
    ensures s + [ds[0]] + ds[1..] == s + ds
  {
    assert [ds[0]] + ds[1..] == ds;
  }

  lemma SplitFirst(a: string, b: string)
    requires a != []
    ensures (a + b)[0] == a[0] && (a + b)[1..] == a[1..] + b
  {
  }

  /** Typing digits after a number that is neither empty nor a plain 0
      appends them all. */
  lemma {:induction false} TypingDigits(c: Calc, ds: string)
    requires EditingNumber(c) && AllDigits(ds)
    ensures Run(c, ds) == c.(short := c.short + ds)
    decreases |ds|
  {
    if ds == [] {
      assert c.short + ds == c.short;
    } else {
      DigitKeepsEditing(c, ds[0]);
      TypingDigits(c.(short := c.short + [ds[0]]), ds[1..]);
      RunFirstDigit(c, ds);
      ShiftFirst(c.short, ds);
    }
  }

  lemma RunSingle(c: Calc, r: char)
    requires Inv(c)
    ensures Run(c, [r]) == Step(c, r)
  {
    assert [r][1..] == [];
  }

  /** Pressing keys `a` and then keys `b` is pressing `a + b`. */
  lemma {:induction false} RunAppend(c: Calc, a: string, b: string)
    requires Inv(c)
    ensures Run(c, a + b) == Run(Run(c, a), b)
    decreases |a|
  {
    if a == [] {
      assert a + b == b;
    } else {
      SplitFirst(a, b);
      RunAppend(Step(c, a[0]), a[1..], b);
    }
  }

  // ---------------------------------------------------------------------
  // Operators
  // ---------------------------------------------------------------------

  /** An operator after a number closes the number: a trailing point is
      dropped and the number joins the collected numbers and the equation. */
  lemma OperatorAfterNumber(c: Calc, r: char)
    requires Open(c) && !c.lastWasOp && IsOperatorKey(r)
    requires !(c.short == "0" && (r == '-' || c.long == ""))
    ensures var d := Step(c, r);
      |d.nums| == |c.nums| + 1 &&
      var n := d.nums[|c.nums|];
      && d.nums == c.nums + [n] && d.long == c.long + n && d.ops == c.ops
      && (c.short == n || c.short == n + ".")
      && (|n| == 0 || n[|n| - 1] != '.')
      && d.short == [r] && d.lastWasOp
      && |d.nums| == |d.ops| + 1
  {
    ErrorNotNumeral();
    StepEnters(c, r);
    EnterOperatorAfterNumber(c, r);
    TrimmedNumber(c.short);
  }

  lemma EnterOperatorAfterNumber(c: Calc, r: char)
    requires Open(c) && !c.lastWasOp && IsOperatorKey(r)
    ensures var n := TrimPoint(c.short);
      Enter(c, r) == c.(nums := c.nums + [n], long := c.long + n, short := [r], lastWasOp := true)
  {
  }

  /** Dropping a trailing point leaves no trailing point behind. */
  lemma TrimmedNumber(s: string)
    requires NumeralText(s)
    ensures var n := TrimPoint(s);
      (s == n || s == n + ".") && (|n| == 0 || n[|n| - 1] != '.')
  {
    var n := TrimPoint(s);
    if |s| > 0 && s[|s| - 1] == '.' {
      assert s == n + ".";
    }
  }

  /** A digit or point after an operator closes the operator: it joins the
      collected operators and the equation, and a new number starts. */
  lemma NumberAfterOperator(c: Calc, r: char)
    requires Open(c) && c.lastWasOp && (IsDigit(r) || r == '.')
    ensures var d := Step(c, r);
      && d.ops == c.ops + [c.short] && d.long == c.long + c.short && d.nums == c.nums
      && d.short == (if r == '.' then "0." else [r]) && !d.lastWasOp
      && |d.nums| == |d.ops|
  {
    StepEnters(c, r);
  }

  /** Of several operators in a row, the last one wins. */
  lemma LastOperatorWins(c: Calc, r1: char, r2: char)
    requires Inv(c) && c.short != DivByZeroErr && c.short != "0"
    requires IsOperatorKey(r1) && IsOperatorKey(r2)
    ensures Step(Step(c, r1), r2) == Step(c, r2)
  {
    StepEnters(c, r1);
    StepEnters(c, r2);
    var d := Step(c, r1);
    EnterOperatorTwice(c, r1, r2);
    StepEnters(d, r2);
  }

  lemma EnterOperatorTwice(c: Calc, r1: char, r2: char)
    requires Open(c) || Completed(c)
    requires IsOperatorKey(r1) && IsOperatorKey(r2)
    ensures var d := Enter(c, r1);
      && Open(d) && d.short == [r1] && d.short != "0"
      && Enter(d, r2) == Enter(c, r2)
  {
  }

  // ---------------------------------------------------------------------
  // After a completed equation
  // ---------------------------------------------------------------------

  /** An operator continues with the result as the first number. */
  lemma OperatorAfterResult(c: Calc, r: char)
    requires Completed(c) && IsOperatorKey(r) && !(c.short == "0" && r == '-')
    ensures var d := Step(c, r);
      d == Calc([r], c.short, true, [c.short], [])
  {
    ErrorNotNumeral();
    StepEnters(c, r);
  }

  /** A digit or point forgets the result and starts a new equation. */
  lemma NumberAfterResult(c: Calc, r: char)
    requires Completed(c) && (IsDigit(r) || r == '.')
    ensures var d := Step(c, r);
      d == Calc(if r == '.' then "0." else [r], "", false, [], [])
  {
    ErrorNotNumeral();
    StepEnters(c, r);
  }

  /** After a result, a session that starts with a digit or a point runs as
      on a fresh calculator: the finished equation is forgotten. */
  lemma ResultForgotten(c: Calc, keys: string)
    requires Completed(c) && keys != [] && (IsDigit(keys[0]) || keys[0] == '.')
    ensures Run(c, keys) == Run(Init, keys)
  {
    var r := keys[0];
    NumberAfterResult(c, r);
    assert Open(Init) && !Init.lastWasOp && Init.short == "0";
    if r == '.' {
      PointKey(Init);
    } else {
      DigitKey(Init, r);
    }
    assert Step(c, r) == Step(Init, r);
  }

  /** `N` forgets the equation and negates the result, unless it is 0. */
  lemma NegateAfterResult(c: Calc)
    requires Completed(c)
    ensures var d := Step(c, 'N');
      d == Calc(if c.short == "0" then "0" else Negate(c.short), "", false, [], [])
  {
    ErrorNotNumeral();
    KeyValid('N');
  }

  /** While an equation is being entered, `N` negates the number being
      edited unless it is a plain 0, and does nothing to an operator. */
  lemma NegateWhileEditing(c: Calc)
    requires Open(c) && c.short != DivByZeroErr
    ensures Step(c, 'N') == (if c.lastWasOp || c.short == "0" then c else c.(short := Negate(c.short)))
  {
    KeyValid('N');
  }

  /** Negating twice restores the text, unless it starts with two minus
      signs (the second is then lost). */
  lemma NegateTwice(s: string)
    requires !(|s| >= 2 && s[0] == '-' && s[1] == '-')
    ensures Negate(Negate(s)) == s
  {
    if |s| > 0 && s[0] == '-' {
      assert "-" + s[1..] == s;
    } else {
      assert ("-" + s)[1..] == s;
    }
  }

  // ---------------------------------------------------------------------
  // `=`
  // ---------------------------------------------------------------------

  /** `=` closes the equation with the number being edited (an operator
      being edited is dropped) and evaluates the collected lists. */
  lemma EqualsKey(c: Calc)
    requires Inv(c) && c.short != DivByZeroErr
    ensures var nums :=
        if Completed(c) then [c.short]
        else if c.lastWasOp then c.nums else c.nums + [TrimPoint(c.short)];
      var ops := if Completed(c) then [] else c.ops;
      var long :=
        if Completed(c) then c.short
        else if c.lastWasOp then c.long else c.long + TrimPoint(c.short);
      |nums| == |ops| + 1 &&
      var d := Step(c, '=');
      && d.long == long + "=" && d.lastWasOp
      && (match Evaluate(nums, ops)
          case DivByZero(n, o) => d == Calc(DivByZeroErr, long + "=", true, n, o)
          case Reduced(n, _) => d == Calc(n[0], long + "=", true, [], []))
  {
    ErrorNotNumeral();
    StepEnters(c, '=');
    if !Completed(c) {
      assert Open(c);
    }
  }

  /** `=` after a number, on an equation whose lists reduce to a single
      value, shows that value and closes the equation in the long output. */
  lemma EqualsShowsValue(c: Calc, nums: seq<string>, long: string, z: string)
    requires Open(c) && !c.lastWasOp
    requires nums == c.nums + [TrimPoint(c.short)] && long == c.long + TrimPoint(c.short)
    ensures Evaluate(nums, c.ops) == Reduced([z], []) ==> Step(c, '=') == Calc(z, long + "=", true, [], [])
  {
    ErrorNotNumeral();
    EqualsKey(c);
  }

  /** `=` after a lone number shows that number, without a trailing point. */
  lemma LoneNumberEquals(c: Calc)
    requires Open(c) && !c.lastWasOp && c.nums == []
    ensures var n := TrimPoint(c.short);
      Step(c, '=') == Calc(n, c.long + n + "=", true, [], [])
  {
    ErrorNotNumeral();
    EqualsKey(c);
    assert [] + [TrimPoint(c.short)] == [TrimPoint(c.short)];
  }

  /** `=` after a number closes the number and solves the equation. */
  lemma EqualsAfterNumber(c: Calc)
    requires Open(c) && !c.lastWasOp
    ensures var n := TrimPoint(c.short);
      var c2 := c.(nums := c.nums + [n], long := c.long + n, short := "=");
      && |c2.nums| == |c2.ops| + 1 && AllNumeral(c2.nums) && AllOperators(c2.ops)
      && Step(c, '=') == Solve(c2).(lastWasOp := true)
  {
    ErrorNotNumeral();
    StepEnters(c, '=');
    var n := TrimPoint(c.short);
    TrimPointNumeral(c.short);
    assert Edit(c, '=') == c.(nums := c.nums + [n], long := c.long + n, short := "=");
  }

  /** `=` when the number after the last `/` reads as 0 shows the error. */
  lemma ZeroDivisorEquals(c: Calc)
    requires Open(c) && !c.lastWasOp && |c.ops| >= 1 && c.ops[|c.ops| - 1] == "/"
    requires ToNum(TrimPoint(c.short)) == 0.0
    ensures Step(c, '=').short == DivByZeroErr
    ensures Step(c, '=').long == c.long + TrimPoint(c.short) + "="
  {
    var n := TrimPoint(c.short);
    var c2 := c.(nums := c.nums + [n], long := c.long + n, short := "=");
    EqualsAfterNumber(c);
    var k := |c.ops| - 1;
    assert c2.nums[k + 1] == n;
    assert DividesByZero(c2.ops[k], c2.nums[k + 1]);
    SolveOutcome(c2);
  }

  /** `=` right after an operator key drops that operator: the equation is
      solved as if `=` had come straight after the number. */
  lemma OperatorBeforeEqualsIgnored(c: Calc, r: char)
    requires Open(c) && !c.lastWasOp && IsOperatorKey(r)
    requires !(c.short == "0" && (r == '-' || c.long == ""))
    ensures Step(Step(c, r), '=') == Step(c, '=')
  {
    var n := TrimPoint(c.short);
    var d := c.(nums := c.nums + [n], long := c.long + n, short := [r], lastWasOp := true);
    OperatorStepsTo(c, r, d);
    EqualsAfterOperator(d);
    EqualsAfterNumber(c);
  }

  lemma OperatorStepsTo(c: Calc, r: char, d: Calc)
    requires Open(c) && !c.lastWasOp && IsOperatorKey(r)
    requires !(c.short == "0" && (r == '-' || c.long == ""))
    requires d == c.(nums := c.nums + [TrimPoint(c.short)], long := c.long + TrimPoint(c.short), short := [r], lastWasOp := true)
    ensures Step(c, r) == d && Open(d)
  {
    ErrorNotNumeral();
    StepEnters(c, r);
    EnterOperatorAfterNumber(c, r);
    EnterInv(c, r);
  }

  /** `=` after an operator replaces the operator and solves the equation. */
  lemma EqualsAfterOperator(d: Calc)
    requires Open(d) && d.lastWasOp
    ensures |d.nums| == |d.ops| + 1
    ensures Step(d, '=') == Solve(d.(short := "=")).(lastWasOp := true)
  {
    ErrorNotNumeral();
    StepEnters(d, '=');
    assert Edit(d, '=') == d.(short := "=");
  }

  /** The same, as keys run on the calculator. */
  lemma OperatorBeforeEqualsRun(c: Calc, op: string)
    requires Open(c) && !c.lastWasOp && |op| == 1 && IsOperatorKey(op[0])
    requires !(c.short == "0" && (op[0] == '-' || c.long == ""))
    ensures Run(c, op + "=") == Run(c, "=")
  {
    assert op == [op[0]];
    RunAppend(c, op, "=");
    RunSingle(c, op[0]);
    RunSingle(Step(c, op[0]), '=');
    RunSingle(c, '=');
    OperatorBeforeEqualsIgnored(c, op[0]);
  }
}
