/** Sessions from the calculator's own test file, derived from the general
    theorems. Each literal fact about the keys and values is proved on its
    own, away from the sessions, and the session lemma only assembles. */
module Examples {
  import opened Numbers
  import opened Reducer
  import opened Calculator
  import opened Keys
  import opened Typing

  /** A whole-number equation typed on a fresh calculator, then `=`. */
  lemma TypedExample(xs: seq<int>, ops: seq<string>, keys: string, shown: string)
    requires |xs| == |ops| + 1 && AllIntOperators(ops) && Positive(xs)
    requires EquationKeys(xs, ops) + "=" == keys && IntToString(Value(xs, ops)) == shown
    ensures Run(Init, keys) == Calc(shown, keys, true, [], [])
  {
    EquationResult(xs, ops);
  }

  // ---------------------------------------------------------------------
  // Whole-number equations
  // ---------------------------------------------------------------------

  // The lemmas with literal parameters (the `...Keys`, `...Joins`,
  // `...Steps` and `...Facts` lemmas) prove ground facts about literal
  // sequences on their own. A session lemma that unfolds `Run` on a literal
  // key string then only combines them, and never has to prove those facts
  // in the same, much larger, context.
  lemma AddKeys(xs: seq<int>, ops: seq<string>)
    requires xs == [1, 2] && ops == ["+"]
    ensures |xs| == |ops| + 1 && AllIntOperators(ops) && Positive(xs)
    ensures EquationKeys(xs, ops) + "=" == "1+2="
    ensures IntToString(Value(xs, ops)) == "3"
  {
    assert xs[..1] == [1] && xs[1..] == [2] && ops[..0] == [];
    assert LeadKeys(xs, ops) == "1+";
    assert Value(xs, ops) == 3;
  }

  /** `1+2=` shows 3. */
  lemma TwoNumbersCanBeAdded()
    ensures Run(Init, "1+2=") == Calc("3", "1+2=", true, [], [])
  {
    var xs, ops := [1, 2], ["+"];
    AddKeys(xs, ops);
    TypedExample(xs, ops, "1+2=", "3");
  }

  /** `1+2+=` shows 3, and the dangling `+` leaves no trace in the long
      output. */
  lemma LastOperatorIsIgnoredIfNotFollowedByNumber()
    ensures Run(Init, "1+2+=") == Calc("3", "1+2=", true, [], [])
  {
    InitOpen();
    DanglingPlus("1+2+=", "1+2=");
    TwoNumbersCanBeAdded();
  }

  lemma DanglingPlus(k1: string, k2: string)
    requires k1 == "1+2+=" && k2 == "1+2="
    ensures Run(Init, k1) == Run(Init, k2)
  {
    var xs, ops := [1, 2], ["+"];
    AddKeys(xs, ops);
    DanglingKeys(xs, ops, "+", k1);
    DanglingSession(xs, ops, "+", k1, k2);
  }

  lemma DanglingSession(xs: seq<int>, ops: seq<string>, op: string, k1: string, k2: string)
    requires |xs| == |ops| + 1 && AllIntOperators(ops) && Positive(xs) && IsIntOperator(op)
    requires EquationKeys(xs, ops) + op + "=" == k1 && EquationKeys(xs, ops) + "=" == k2
    ensures Run(Init, k1) == Run(Init, k2)
  {
    TrailingOperatorIgnored(xs, ops, op);
  }

  lemma DanglingKeys(xs: seq<int>, ops: seq<string>, op: string, keys: string)
    requires xs == [1, 2] && ops == ["+"] && op == "+" && keys == "1+2+="
    ensures IsIntOperator(op) && EquationKeys(xs, ops) + op + "=" == keys
  {
    assert xs[..1] == [1] && ops[..0] == [];
    assert LeadKeys(xs, ops) == "1+";
  }

  lemma SumKeys(xs: seq<int>, ops: seq<string>)
    requires xs == [3, 4] && ops == ["+"]
    ensures |xs| == |ops| + 1 && AllIntOperators(ops) && Positive(xs)
    ensures EquationKeys(xs, ops) + "=" == "3+4="
    ensures IntToString(Value(xs, ops)) == "7"
  {
    assert xs[..1] == [3] && xs[1..] == [4] && ops[..0] == [];
    assert LeadKeys(xs, ops) == "3+";
    assert LastAdditive(ops) == 0;
    assert Value(xs, ops) == 7;
  }

  /** `3+4=` shows 7. */
  lemma PlusWorks()
    ensures Run(Init, "3+4=") == Calc("7", "3+4=", true, [], [])
  {
    var xs, ops := [3, 4], ["+"];
    SumKeys(xs, ops);
    TypedExample(xs, ops, "3+4=", "7");
  }

  lemma OneKeys(xs: seq<int>, ops: seq<string>, n: int)
    requires xs == [n] && ops == [] && 1 <= n <= 9
    ensures |xs| == |ops| + 1 && AllIntOperators(ops) && Positive(xs)
    ensures EquationKeys(xs, ops) + "=" == IntToString(n) + "=" && Value(xs, ops) == n
    ensures IntToString(n) == [DigitChar(n)]
  {
    assert LeadKeys(xs, ops) == "";
  }

  /** `1=` shows 1. */
  lemma EqualsAfterOneDigit()
    ensures Run(Init, "1=") == Calc("1", "1=", true, [], [])
  {
    var xs, ops: seq<string> := [1], [];
    OneKeys(xs, ops, 1);
    TypedExample(xs, ops, "1=", "1");
  }

  lemma PrecedenceKeys(xs: seq<int>, ops: seq<string>)
    requires xs == [1, 2, 3] && ops == ["+", "*"]
    ensures |xs| == |ops| + 1 && AllIntOperators(ops) && Positive(xs)
    ensures EquationKeys(xs, ops) + "=" == "1+2*3="
    ensures IntToString(Value(xs, ops)) == "7"
  {
    assert xs[..2] == [1, 2] && xs[..2][..1] == [1] && ops[..1] == ["+"] && ops[..1][..0] == [];
    assert LeadKeys(xs[..2], ops[..1]) == "1+";
    assert IntToString(xs[1]) == "2";
    assert LeadKeys(xs, ops) == "1+2*";
    assert xs[..1] == [1] && xs[1..] == [2, 3] && [2, 3][..1] == [2];
    assert LastAdditive(ops) == 0;
    assert Value(xs, ops) == 7;
  }

  /** `1+2*3=` shows 7: the product is taken first. */
  lemma MulAndDivComeBeforePlusAndMinus()
    ensures Run(Init, "1+2*3=") == Calc("7", "1+2*3=", true, [], [])
  {
    var xs, ops := [1, 2, 3], ["+", "*"];
    PrecedenceKeys(xs, ops);
    TypedExample(xs, ops, "1+2*3=", "7");
  }

  lemma QuotientKeys(xs: seq<int>, ops: seq<string>)
    requires xs == [9, 3, 8, 2] && ops == ["/", "+", "/"]
    ensures |xs| == |ops| + 1 && AllOperators(ops) && Positive(xs)
    ensures EquationKeys(xs, ops) + "=" == "9/3+8/2="
  {
    assert xs[..3] == [9, 3, 8] && xs[..3][..2] == [9, 3] && xs[..3][..2][..1] == [9];
    assert ops[..2] == ["/", "+"] && ops[..2][..1] == ["/"] && ops[..2][..1][..0] == [];
    assert LeadKeys(xs[..3][..2], ops[..2][..1]) == "9/";
    assert LeadKeys(xs[..3], ops[..2]) == "9/3+";
    assert LeadKeys(xs, ops) == "9/3+8/";
  }

  /** Both divisions in `9/3+8/2` are exact, and the passes give 7. */
  lemma QuotientPasses(xs: seq<int>, ops: seq<string>)
    requires xs == [9, 3, 8, 2] && ops == ["/", "+", "/"]
    ensures ExactPass(xs, ops, "*", "/")
    ensures IntEvaluation(xs, ops).0 == [7] && IntToString(7) == "7"
  {
    var x3, o2 := xs[..3], ops[..2];
    QuotientPrefix(x3[..2], o2[..1], x3, o2);
    assert IntReduce(xs, ops, "*", "/") == IntExtend(([3, 8], ["+"]), "/", 2, "*", "/");
    assert [3, 8][..1] + [IntApply("/", 8, 2)] == [3, 4];
    assert IntReduce(xs, ops, "*", "/") == ([3, 4], ["+"]);
    QuotientSum([3, 4], ["+"]);
  }

  /** The first pass over `9/3+8`. */
  lemma QuotientPrefix(x2: seq<int>, o1: seq<string>, x3: seq<int>, o2: seq<string>)
    requires x2 == [9, 3] && o1 == ["/"] && x3 == [9, 3, 8] && o2 == ["/", "+"]
    ensures IntReduce(x2, o1, "*", "/") == ([3], []) && ExactPass(x2, o1, "*", "/")
    ensures IntReduce(x3, o2, "*", "/") == ([3, 8], ["+"]) && ExactPass(x3, o2, "*", "/")
  {
    assert x2[..1] == [9] && x3[..2] == x2 && o1[..0] == [] && o2[..1] == o1;
    assert IntReduce([9], [], "*", "/") == ([9], []);
    assert IntReduce(x2, o1, "*", "/") == IntExtend(([9], []), "/", 3, "*", "/");
    assert [9][..0] + [IntApply("/", 9, 3)] == [3];
    assert ExactPass([9], [], "*", "/");
    assert IntReduce(x3, o2, "*", "/") == IntExtend(([3], []), "+", 8, "*", "/");
    assert [3] + [8] == [3, 8] && [] + ["+"] == ["+"];
  }

  /** The second pass over `3+4`. */
  lemma QuotientSum(r0: seq<int>, r1: seq<string>)
    requires r0 == [3, 4] && r1 == ["+"]
    ensures IntReduce(r0, r1, "+", "-") == ([7], [])
  {
    assert r0[..1] == [3] && r1[..0] == [];
    assert IntReduce(r0, r1, "+", "-") == IntExtend(([3], []), "+", 4, "+", "-");
    assert [3][..0] + [IntApply("+", 3, 4)] == [7];
  }

  /** Divisions that come out whole print as whole numbers: `9/3+8/2=`
      shows 7. */
  lemma ExactDivisionsShowIntegers()
    ensures Run(Init, "9/3+8/2=") == Calc("7", "9/3+8/2=", true, [], [])
  {
    var xs, ops := [9, 3, 8, 2], ["/", "+", "/"];
    QuotientKeys(xs, ops);
    QuotientPasses(xs, ops);
    ExactEquationResult(xs, ops);
  }

  lemma SubtractKeys(xs: seq<int>, ops: seq<string>)
    requires xs == [3, 4] && ops == ["-"]
    ensures |xs| == |ops| + 1 && AllIntOperators(ops) && Positive(xs)
    ensures EquationKeys(xs, ops) + "=" == "3-4="
    ensures IntToString(Value(xs, ops)) == "-1"
  {
    assert xs[..1] == [3] && xs[1..] == [4] && ops[..0] == [];
    assert LeadKeys(xs, ops) == "3-";
    assert Value(xs, ops) == -1;
  }

  /** `3-4=` on a fresh calculator shows -1. */
  lemma FreshDifference(k: string, d: Calc)
    requires k == "3-4=" && d == Calc("-1", "3-4=", true, [], [])
    ensures k != [] && IsDigit(k[0]) && Run(Init, k) == d && Completed(d)
  {
    var xs, ops := [3, 4], ["-"];
    SubtractKeys(xs, ops);
    TypedExample(xs, ops, k, "-1");
  }

  lemma MultiplyKeys(xs: seq<int>, ops: seq<string>)
    requires xs == [3, 4] && ops == ["*"]
    ensures |xs| == |ops| + 1 && AllIntOperators(ops) && Positive(xs)
    ensures EquationKeys(xs, ops) + "=" == "3*4="
    ensures IntToString(Value(xs, ops)) == "12"
  {
    assert xs[..1] == [3] && ops[..0] == [];
    assert LeadKeys(xs, ops) == "3*";
    assert LastAdditive(ops) == -1;
    assert Product(xs) == Product([3]) * 4;
    assert Value(xs, ops) == 12;
  }

  /** `3*4=` on a fresh calculator shows 12. */
  lemma FreshProduct(k: string, d: Calc)
    requires k == "3*4=" && d == Calc("12", "3*4=", true, [], [])
    ensures k != [] && IsDigit(k[0]) && Run(Init, k) == d && Completed(d)
  {
    var xs, ops := [3, 4], ["*"];
    MultiplyKeys(xs, ops);
    TypedExample(xs, ops, k, "12");
  }

  lemma LeftToRightKeys(xs: seq<int>, ops: seq<string>)
    requires xs == [1, 1, 1] && ops == ["-", "-"]
    ensures |xs| == |ops| + 1 && AllIntOperators(ops) && Positive(xs)
    ensures EquationKeys(xs, ops) + "=" == "1-1-1="
    ensures IntToString(Value(xs, ops)) == "-1"
  {
    assert xs[..2] == [1, 1] && xs[..2][..1] == [1] && ops[..1] == ["-"] && ops[..1][..0] == [];
    assert LeadKeys(xs[..2], ops[..1]) == "1-";
    assert IntToString(xs[1]) == "1";
    assert LeadKeys(xs, ops) == "1-1-";
    assert xs[2..] == [1] && xs[..2][1..] == [1];
    assert Value(xs[..2], ops[..1]) == 0;
    assert Value(xs, ops) == -1;
  }

  /** `1-1-1=` shows -1: subtraction associates to the left. */
  lemma SubtractionWorksLeftToRight()
    ensures Run(Init, "1-1-1=") == Calc("-1", "1-1-1=", true, [], [])
  {
    var xs, ops := [1, 1, 1], ["-", "-"];
    LeftToRightKeys(xs, ops);
    TypedExample(xs, ops, "1-1-1=", "-1");
  }

  /** 0.75 prints as `0.75`: `%f` gives `0.750000` and the zeros go. */
  lemma QuarterText(x: real, t: string)
    requires x == 0.75 && t == "0.75"
    ensures ToString(x) == t
  {
    var m := Rounded(x);
    QuarterRounded(x);
    var ip, fp := NatToString(m / Scale), FormatFraction(x);
    QuarterDigits(m, ip, fp);
    var parts := FormatParts(x);
    TrimFormatted(ip, fp);
    QuarterTrim(ip, fp, t);
  }

  lemma QuarterRounded(x: real)
    requires x == 0.75
    ensures Rounded(x) == 750000 && Sign(x) == ""
  {
    assert Abs(x) * Scale as real == 750000.0;
  }

  lemma QuarterDigits(m: nat, ip: string, fp: string)
    requires m == 750000 && ip == NatToString(m / Scale) && fp == PadLeft(NatToString(m % Scale), FracDigits)
    ensures ip == "0" && fp == "750000"
  {
    assert m / Scale == 0 && m % Scale == 750000;
    assert NatToString(75) == "75";
    assert NatToString(7500) == "7500";
    assert NatToString(750000) == "750000";
  }

  lemma QuarterTrim(ip: string, fp: string, t: string)
    requires ip == "0" && fp == "750000" && t == "0.75"
    ensures (if TrimZeros(fp) == [] then ip else ip + "." + TrimZeros(fp)) == t
    ensures "" + ip + "." + fp == ip + "." + fp
  {
    assert fp[..5] == "75000" && fp[..4] == "7500" && fp[..3] == "750" && fp[..2] == "75";
    assert TrimZeros("75") == "75";
    assert TrimZeros(fp) == "75";
  }

  lemma QuarterOperands(x: string, y: string)
    requires x == "3" && y == "4"
    ensures ToNum(x) == 3.0 && ToNum(y) == 4.0 && !DividesByZero("/", y)
  {
    IntegerRead(3);
    IntegerRead(4);
    assert IntToString(3) == x && IntToString(4) == y;
  }

  lemma QuarterStep(c2: Calc, c3: Calc)
    requires c2 == Calc("/", "3", true, ["3"], []) && c3 == Calc("4", "3/", false, ["3"], ["/"])
    ensures Step(c2, '4') == c3 && Inv(c3)
  {
    NumberAfterOperator(c2, '4');
    assert [] + ["/"] == ["/"] && "3" + "/" == "3/";
  }

  /** `=` on `3/4` divides exactly and prints 0.75. */
  lemma QuarterEquals(c3: Calc, d: Calc)
    requires c3 == Calc("4", "3/", false, ["3"], ["/"]) && d == Calc("0.75", "3/4=", true, [], [])
    ensures Inv(c3) && Step(c3, '=') == d
  {
    QuarterFacts(c3);
    QuarterValue(["3", "4"], c3.ops, "0.75");
    EqualsShowsValue(c3, ["3", "4"], "3/4", "0.75");
  }

  lemma QuarterFacts(c3: Calc)
    requires c3 == Calc("4", "3/", false, ["3"], ["/"])
    ensures Open(c3) && !c3.lastWasOp
    ensures c3.nums + [TrimPoint(c3.short)] == ["3", "4"] && c3.long + TrimPoint(c3.short) == "3/4"
  {
    assert TrimPoint("4") == "4";
    ErrorNotNumeral();
  }

  lemma QuarterValue(nums: seq<string>, ops: seq<string>, z: string)
    requires nums == ["3", "4"] && ops == ["/"] && z == "0.75"
    ensures Evaluate(nums, ops) == Reduced([z], [])
  {
    QuarterOperands(nums[0], nums[1]);
    EvaluateSingle(ops[0], nums[0], nums[1]);
    assert Apply(ops[0], 3.0, 4.0) == 0.75;
    QuarterText(0.75, z);
  }

  lemma QuarterJoins(k0: string, k1: string, k2: string, k3: string)
    requires k0 == "3" && k1 == "3/" && k2 == "3/4" && k3 == "3/4="
    ensures k1 == k0 + ['/'] && k2 == k1 + ['4'] && k3 == k2 + ['=']
    ensures k3 != [] && IsDigit(k3[0])
  {
  }

  /** `3/4=` on a fresh calculator shows 0.75. */
  lemma FreshQuotient(k: string, d: Calc)
    requires k == "3/4=" && d == Calc("0.75", "3/4=", true, [], [])
    ensures k != [] && IsDigit(k[0]) && Run(Init, k) == d && Completed(d)
  {
    var c1, c2, c3 := Calc("3", "", false, [], []), Calc("/", "3", true, ["3"], []), Calc("4", "3/", false, ["3"], ["/"]);
    FirstOperator(c1, c2, '3', '/');
    QuarterStep(c2, c3);
    QuarterEquals(c3, d);
    RunFirst('3', c1, "3");
    QuarterJoins("3", "3/", "3/4", k);
    Then("3", c1, '/', c2, "3/");
    Then("3/", c2, '4', c3, "3/4");
    Then("3/4", c3, '=', d, k);
  }

  // ---------------------------------------------------------------------
  // Equations one after another on one calculator
  // ---------------------------------------------------------------------

  /** Any session that ends in a result, followed by keys that start with a
      digit, ends where those keys alone end. */
  lemma AfterResult(c: Calc, k1: string, k2: string, k: string)
    requires Completed(c) && k2 != [] && IsDigit(k2[0]) && k == k1 + k2
    ensures Run(Init, k1) == c ==> Run(Init, k) == Run(Init, k2)
  {
    InitOpen();
    ResultForgotten(c, k2);
    RunAppend(Init, k1, k2);
  }

  lemma SessionJoins(k0: string, k1: string, k2: string, k3: string)
    requires k0 == "3+4=" && k1 == "3+4=3-4=" && k2 == "3+4=3-4=3*4=" && k3 == "3+4=3-4=3*4=3/4="
    ensures k1 == k0 + "3-4=" && k2 == k1 + "3*4=" && k3 == k2 + "3/4="
  {
  }

  lemma FirstSum(k: string, c: Calc)
    requires k == "3+4=" && c == Calc("7", "3+4=", true, [], [])
    ensures Run(Init, k) == c && Completed(c)
  {
    PlusWorks();
  }

  /** `3-4=` after `3+4=` on the same calculator shows -1. */
  lemma SubtractionWorks()
    ensures Run(Init, "3+4=3-4=") == Calc("-1", "3-4=", true, [], [])
  {
    InitOpen();
    var c, d := Calc("7", "3+4=", true, [], []), Calc("-1", "3-4=", true, [], []);
    FirstSum("3+4=", c);
    FreshDifference("3-4=", d);
    SessionJoins("3+4=", "3+4=3-4=", "3+4=3-4=3*4=", "3+4=3-4=3*4=3/4=");
    AfterResult(c, "3+4=", "3-4=", "3+4=3-4=");
  }

  /** Then `3*4=` shows 12. */
  lemma MultiplicationWorks()
    ensures Run(Init, "3+4=3-4=3*4=") == Calc("12", "3*4=", true, [], [])
  {
    InitOpen();
    var c, d := Calc("-1", "3-4=", true, [], []), Calc("12", "3*4=", true, [], []);
    SubtractionWorks();
    FreshDifference("3-4=", c);
    FreshProduct("3*4=", d);
    SessionJoins("3+4=", "3+4=3-4=", "3+4=3-4=3*4=", "3+4=3-4=3*4=3/4=");
    AfterResult(c, "3+4=3-4=", "3*4=", "3+4=3-4=3*4=");
  }

  /** Then `3/4=` shows 0.75: the quotient is exact, and the zeros `%f`
      pads it with are trimmed. */
  lemma DivisionWorks()
    ensures Run(Init, "3+4=3-4=3*4=3/4=") == Calc("0.75", "3/4=", true, [], [])
  {
    InitOpen();
    var c, d := Calc("12", "3*4=", true, [], []), Calc("0.75", "3/4=", true, [], []);
    MultiplicationWorks();
    FreshProduct("3*4=", c);
    FreshQuotient("3/4=", d);
    SessionJoins("3+4=", "3+4=3-4=", "3+4=3-4=3*4=", "3+4=3-4=3*4=3/4=");
    AfterResult(c, "3+4=3-4=3*4=", "3/4=", "3+4=3-4=3*4=3/4=");
  }

  // ---------------------------------------------------------------------
  // After a result
  // ---------------------------------------------------------------------

  /** One more key after a session. */
  lemma Then(keys: string, c: Calc, r: char, d: Calc, keys': string)
    requires Inv(c) && Run(Init, keys) == c && Step(c, r) == d && keys' == keys + [r]
    ensures Run(Init, keys') == d
  {
    RunAppend(Init, keys, [r]);
    RunSingle(c, r);
  }

  /** More keys after a session. */
  lemma ThenKeys(keys: string, c: Calc, more: string, d: Calc, keys': string)
    requires Inv(c) && Run(Init, keys) == c && Run(c, more) == d && keys' == keys + more
    ensures Run(Init, keys') == d
  {
    RunAppend(Init, keys, more);
  }

  lemma ResultSteps(c: Calc, d: Calc, e: Calc)
    requires c == Calc("3", "1+2=", true, [], []) && d == Calc("5", "", false, [], [])
    requires e == Calc("50", "", false, [], [])
    ensures Inv(c) && Step(c, '5') == d
    ensures Inv(d) && Step(d, '0') == e
  {
    NumberAfterResult(c, '5');
    DigitKey(d, '0');
    assert d.short + ['0'] == "50";
  }

  lemma ResetJoins(k0: string, k1: string, k2: string)
    requires k0 == "1+2=" && k1 == "1+2=5" && k2 == "1+2=50"
    ensures k1 == k0 + ['5']
    ensures k2 == k1 + ['0']
  {
  }

  /** A digit after `=` starts a new equation: `1+2=` and then `50` shows
      50 and an empty equation. */
  lemma NumberAfterEqualsResetsCalculation()
    ensures Run(Init, "1+2=50") == Calc("50", "", false, [], [])
  {
    var c, d, e := Calc("3", "1+2=", true, [], []), Calc("5", "", false, [], []), Calc("50", "", false, [], []);
    TwoNumbersCanBeAdded();
    ResultSteps(c, d, e);
    ResetJoins("1+2=", "1+2=5", "1+2=50");
    Then("1+2=", c, '5', d, "1+2=5");
    Then("1+2=5", d, '0', e, "1+2=50");
  }

  lemma OperatorStep(c: Calc, d: Calc)
    requires c == Calc("3", "1+2=", true, [], []) && d == Calc("*", "3", true, ["3"], [])
    ensures Inv(c) && Step(c, '*') == d
  {
    OperatorAfterResult(c, '*');
  }

  lemma ContinueJoins(k0: string, k1: string)
    requires k0 == "1+2=" && k1 == "1+2=*"
    ensures k1 == k0 + ['*']
  {
  }

  /** An operator after `=` continues with the result: `1+2=*` moves 3 into
      the equation. */
  lemma OperatorAfterEqualsContinuesWithLastResult()
    ensures Run(Init, "1+2=*") == Calc("*", "3", true, ["3"], [])
  {
    var c, d := Calc("3", "1+2=", true, [], []), Calc("*", "3", true, ["3"], []);
    TwoNumbersCanBeAdded();
    OperatorStep(c, d);
    ContinueJoins("1+2=", "1+2=*");
    Then("1+2=", c, '*', d, "1+2=*");
  }

  lemma ProductKeys(xs: seq<int>, ops: seq<string>)
    requires xs == [2, 3] && ops == ["*"]
    ensures |xs| == |ops| + 1 && AllIntOperators(ops) && Positive(xs)
    ensures EquationKeys(xs, ops) + "=" == "2*3="
    ensures IntToString(Value(xs, ops)) == "6"
  {
    assert xs[..1] == [2] && ops[..0] == [];
    assert LeadKeys(xs, ops) == "2*";
    assert LastAdditive(ops) == -1;
    assert Product(xs) == Product([2]) * 3;
    assert Value(xs, ops) == 6;
  }

  /** The second equation, `6+3`, as typed after the first result. */
  lemma CarriedKeys(xs: seq<int>, ops: seq<string>, b: Calc)
    requires xs == [6, 3] && ops == ["+"] && b == Calc("3", "6+", false, ["6"], ["+"])
    ensures |xs| == |ops| + 1 && AllIntOperators(ops) && Positive(xs)
    ensures Typed(xs, ops) == b
  {
    assert xs[..1] == [6] && ops[..0] == [];
    assert LeadKeys(xs, ops) == "6+";
    assert IntStrings(xs[..1]) == ["6"];
  }

  /** What `=` shows after `6+3`. */
  lemma CarriedResult(xs: seq<int>, ops: seq<string>, d: Calc)
    requires xs == [6, 3] && ops == ["+"] && d == Calc("9", "6+3=", true, [], [])
    ensures Calc(IntToString(Value(xs, ops)), EquationKeys(xs, ops) + "=", true, [], []) == d
  {
    assert xs[..1] == [6] && ops[..0] == [];
    assert LeadKeys(xs, ops) == "6+";
    assert LastAdditive(ops) == 0;
    assert Value(xs, ops) == 9;
  }

  lemma CarrySteps(c: Calc, a: Calc, b: Calc)
    requires c == Calc("6", "2*3=", true, [], []) && a == Calc("+", "6", true, ["6"], [])
    requires b == Calc("3", "6+", false, ["6"], ["+"])
    ensures Inv(c) && Step(c, '+') == a && Inv(a) && Step(a, '3') == b
  {
    OperatorAfterResult(c, '+');
    NumberAfterOperator(a, '3');
  }

  lemma SecondEquation(b: Calc, d: Calc)
    requires b == Calc("3", "6+", false, ["6"], ["+"]) && d == Calc("9", "6+3=", true, [], [])
    ensures Inv(b) && Step(b, '=') == d
  {
    var xs, ops := [6, 3], ["+"];
    CarriedKeys(xs, ops, b);
    CarriedResult(xs, ops, d);
    TypedEquals(xs, ops);
  }

  lemma CarryJoins(k0: string, k1: string, k2: string, k3: string)
    requires k0 == "2*3=" && k1 == "2*3=+" && k2 == "2*3=+3" && k3 == "2*3=+3="
    ensures k1 == k0 + ['+'] && k2 == k1 + ['3'] && k3 == k2 + ['=']
  {
  }

  /** The result is carried into the next equation: `2*3=` shows 6, and
      `+3=` after it shows 9 with long output `6+3=`. */
  lemma LastResultIsUsedForNextCalculation()
    ensures Run(Init, "2*3=+3=") == Calc("9", "6+3=", true, [], [])
  {
    var c, a := Calc("6", "2*3=", true, [], []), Calc("+", "6", true, ["6"], []);
    var b, d := Calc("3", "6+", false, ["6"], ["+"]), Calc("9", "6+3=", true, [], []);
    FirstResult("2*3=", c);
    CarrySteps(c, a, b);
    SecondEquation(b, d);
    CarryJoins("2*3=", "2*3=+", "2*3=+3", "2*3=+3=");
    Then("2*3=", c, '+', a, "2*3=+");
    Then("2*3=+", a, '3', b, "2*3=+3");
    Then("2*3=+3", b, '=', d, "2*3=+3=");
  }

  lemma FirstResult(k: string, c: Calc)
    requires k == "2*3=" && c == Calc("6", "2*3=", true, [], [])
    ensures Run(Init, k) == c
  {
    var xs, ops := [2, 3], ["*"];
    ProductKeys(xs, ops);
    TypedExample(xs, ops, k, "6");
  }

  // ---------------------------------------------------------------------
  // The first keys
  // ---------------------------------------------------------------------

  lemma FirstDigit(d: Calc, r: char)
    requires IsDigit(r) && r != '0' && d == Calc([r], "", false, [], [])
    ensures Step(Init, r) == d && Open(d)
  {
    InitOpen();
    DigitKey(Init, r);
    AppendNumeral("", r);
    assert [] + [r] == [r];
  }

  lemma RunFirst(r: char, d: Calc, keys: string)
    requires Step(Init, r) == d && keys == [r]
    ensures Run(Init, keys) == d
  {
    RunSingle(Init, r);
  }

  /** A digit and then an operator on a fresh calculator. */
  lemma FirstOperator(c: Calc, d: Calc, x: char, r: char)
    requires IsDigit(x) && x != '0' && IsOperatorKey(r)
    requires c == Calc([x], "", false, [], []) && d == Calc([r], [x], true, [[x]], [])
    ensures Step(Init, x) == c && Inv(c)
    ensures Step(c, r) == d && Inv(d)
  {
    FirstDigit(c, x);
    ErrorNotNumeral();
    StepEnters(c, r);
    EnterOperatorAfterNumber(c, r);
    assert TrimPoint([x]) == [x];
    assert "" + [x] == [x];
  }

  lemma ClearJoins(k0: string, k1: string, k2: string)
    requires k0 == "1" && k1 == "1+" && k2 == "1+C"
    ensures k1 == k0 + ['+']
    ensures k2 == k1 + ['C']
  {
  }

  /** `C` clears a half-typed equation. */
  lemma ClearingWillResetCalculator()
    ensures Run(Init, "1+C") == Init
  {
    var c, d := Calc("1", "", false, [], []), Calc("+", "1", true, ["1"], []);
    FirstOperator(c, d, '1', '+');
    RunFirst('1', c, "1");
    ClearJoins("1", "1+", "1+C");
    Then("1", c, '+', d, "1+");
    ClearResets(d);
    Then("1+", d, 'C', Init, "1+C");
  }

  lemma IgnoredJoins(k0: string, k1: string, k2: string)
    requires k0 == "*" && k1 == "*/" && k2 == "*/+"
    ensures k1 == k0 + ['/']
    ensures k2 == k1 + ['+']
  {
  }

  /** `+`, `*` and `/` on a fresh calculator are ignored. */
  lemma OperatorsAtStartAreIgnoredExceptForMinus()
    ensures Run(Init, "*/+") == Init
  {
    InitOpen();
    PristineOperatorIgnored(Init, '*');
    PristineOperatorIgnored(Init, '/');
    PristineOperatorIgnored(Init, '+');
    RunFirst('*', Init, "*");
    IgnoredJoins("*", "*/", "*/+");
    Then("*", Init, '/', Init, "*/");
    Then("*/", Init, '+', Init, "*/+");
  }

  lemma PositiveJoins(k0: string, k1: string, k2: string)
    requires k0 == "+" && k1 == "3=" && k2 == "+3="
    ensures k2 == k0 + k1
  {
  }

  /** A leading `+` is ignored, so the first number is positive: `+3=`
      shows 3. */
  lemma FirstNumberCanBePositive()
    ensures Run(Init, "+3=") == Calc("3", "3=", true, [], [])
  {
    var xs, ops: seq<string> := [3], [];
    OneKeys(xs, ops, 3);
    TypedExample(xs, ops, "3=", "3");
    InitOpen();
    PristineOperatorIgnored(Init, '+');
    RunFirst('+', Init, "+");
    PositiveJoins("+", "3=", "+3=");
    ThenKeys("+", Init, "3=", Calc("3", "3=", true, [], []), "+3=");
  }

  lemma SignSteps(c: Calc, d: Calc)
    requires c == Calc("-", "", false, [], []) && d == Calc("", "", false, [], [])
    ensures Step(Init, '-') == c && Inv(c)
    ensures Step(c, 'N') == d && Inv(d)
  {
    InitOpen();
    MinusOnZeroIsSign(Init);
    assert NumeralText(c.short);
    ErrorNotNumeral();
    NegateWhileEditing(c);
  }

  lemma SignJoins(k0: string, k1: string)
    requires k0 == "-" && k1 == "-N"
    ensures k1 == k0 + ['N']
  {
  }

  /** A lone minus sign negated leaves an empty short output. */
  lemma NegatedSignIsEmpty()
    ensures Run(Init, "-N") == Calc("", "", false, [], [])
  {
    var c, d := Calc("-", "", false, [], []), Calc("", "", false, [], []);
    SignSteps(c, d);
    RunFirst('-', c, "-");
    SignJoins("-", "-N");
    Then("-", c, 'N', d, "-N");
  }

  // ---------------------------------------------------------------------
  // Division by zero
  // ---------------------------------------------------------------------

  lemma DivisorFacts(c3: Calc)
    requires c3 == Calc("0", "1/", false, ["1"], ["/"])
    ensures Open(c3) && !c3.lastWasOp && |c3.ops| >= 1 && c3.ops[|c3.ops| - 1] == "/"
    ensures ToNum(TrimPoint(c3.short)) == 0.0 && c3.long + TrimPoint(c3.short) + "=" == "1/0="
  {
    assert TrimPoint("0") == "0";
    assert ToNum("0") == 0.0;
  }

  lemma DivisorStep(c2: Calc, c3: Calc)
    requires c2 == Calc("/", "1", true, ["1"], []) && c3 == Calc("0", "1/", false, ["1"], ["/"])
    ensures Step(c2, '0') == c3 && Inv(c3)
  {
    NumberAfterOperator(c2, '0');
    assert [] + ["/"] == ["/"] && "1" + "/" == "1/";
  }

  lemma DivisionJoins(k0: string, k1: string, k2: string, k3: string)
    requires k0 == "1" && k1 == "1/" && k2 == "1/0" && k3 == "1/0="
    ensures k1 == k0 + ['/']
    ensures k2 == k1 + ['0']
    ensures k3 == k2 + ['=']
  {
  }

  /** `1/0=` reports the division by zero and keeps the equation. */
  lemma DivByZeroIsError()
    ensures var d := Run(Init, "1/0=");
      Inv(d) && d.short == DivByZeroErr && d.long == "1/0="
  {
    var c1, c2, c3 := Calc("1", "", false, [], []), Calc("/", "1", true, ["1"], []), Calc("0", "1/", false, ["1"], ["/"]);
    FirstOperator(c1, c2, '1', '/');
    DivisorStep(c2, c3);
    DivisorFacts(c3);
    ZeroDivisorEquals(c3);
    RunFirst('1', c1, "1");
    DivisionJoins("1", "1/", "1/0", "1/0=");
    Then("1", c1, '/', c2, "1/");
    Then("1/", c2, '0', c3, "1/0");
    Then("1/0", c3, '=', Step(c3, '='), "1/0=");
  }

  lemma RestartKeys(xs: seq<int>, ops: seq<string>)
    requires xs == [5, 6] && ops == ["+"]
    ensures |xs| == |ops| + 1 && AllIntOperators(ops) && Positive(xs)
    ensures EquationKeys(xs, ops) + "=" == "5+6="
    ensures IntToString(Value(xs, ops)) == "11"
  {
    assert xs[..1] == [5] && xs[1..] == [6] && ops[..0] == [];
    assert LeadKeys(xs, ops) == "5+";
    assert LastAdditive(ops) == 0;
    assert Value(xs, ops) == 11;
  }

  lemma RestartStart(more: string)
    requires more == "5+6="
    ensures more != [] && more[0] in ValidInputs
  {
    KeyValid('5');
  }

  lemma Restarted(e: Calc)
    requires Inv(e) && e.short == DivByZeroErr
    ensures Run(e, "5+6=") == Calc("11", "5+6=", true, [], [])
  {
    var xs, ops := [5, 6], ["+"];
    RestartKeys(xs, ops);
    TypedExample(xs, ops, "5+6=", "11");
    RestartStart("5+6=");
    ErrorForgotten(e, "5+6=");
  }

  /** Any session that ends in the error, followed by `5+6=`. */
  lemma RestartAfter(e: Calc, k1: string, k2: string, k: string)
    requires Inv(e) && e.short == DivByZeroErr && Run(Init, k1) == e
    requires k2 == "5+6=" && k == k1 + k2
    ensures Run(Init, k) == Calc("11", "5+6=", true, [], [])
  {
    Restarted(e);
    ThenKeys(k1, e, k2, Calc("11", "5+6=", true, [], []), k);
  }

  lemma RestartJoins(k0: string, k1: string)
    requires k0 == "1/0=" && k1 == "1/0=5+6="
    ensures k1 == k0 + "5+6="
  {
  }

  /** After the error a new equation starts: `1/0=5+6=` shows 11. */
  lemma AfterDivErrorNewCalculationStarts()
    ensures Run(Init, "1/0=5+6=") == Calc("11", "5+6=", true, [], [])
  {
    InitOpen();
    DivByZeroIsError();
    RestartJoins("1/0=", "1/0=5+6=");
    RestartAfter(Run(Init, "1/0="), "1/0=", "5+6=", "1/0=5+6=");
  }

  /** Any session that ends in the error, followed by keys that start with an
      accepted key, ends where those keys alone end. */
  lemma AfterError(e: Calc, k1: string, k2: string, k: string, d: Calc)
    requires Inv(e) && e.short == DivByZeroErr && Run(Init, k1) == e
    requires k2 != [] && k2[0] in ValidInputs && Run(Init, k2) == d && k == k1 + k2
    ensures Run(Init, k) == d
  {
    ErrorForgotten(e, k2);
    RunAppend(Init, k1, k2);
  }

  /** `-5=` on a fresh calculator shows -5. */
  lemma NegativeFive(k: string, d: Calc)
    requires k == "-5=" && d == Calc("-5", "-5=", true, [], [])
    ensures k != [] && k[0] in ValidInputs && Run(Init, k) == d
  {
    var c1, c2 := Calc("-", "", false, [], []), Calc("-5", "", false, [], []);
    SignStep(c1);
    MoreDigits(c1, '5', c2);
    LoneResult(c2, d);
    RunFirst('-', c1, "-");
    FiveJoins("-", "-5", k);
    Then("-", c1, '5', c2, "-5");
    Then("-5", c2, '=', d, k);
    KeyValid('-');
  }

  lemma FiveJoins(k0: string, k1: string, k2: string)
    requires k0 == "-" && k1 == "-5" && k2 == "-5="
    ensures k1 == k0 + ['5'] && k2 == k1 + ['='] && k2[0] == '-'
  {
  }

  lemma ErrorJoins(k0: string, k1: string, k: string)
    requires k0 == "1/0=" && k1 == "-5=" && k == "1/0=-5="
    ensures k == k0 + k1
  {
  }

  /** After the error, `-` starts a negative number rather than a
      subtraction: `1/0=-5=` shows -5. */
  lemma AfterDivErrorNegativeNumberStarts()
    ensures Run(Init, "1/0=-5=") == Calc("-5", "-5=", true, [], [])
  {
    InitOpen();
    DivByZeroIsError();
    var d := Calc("-5", "-5=", true, [], []);
    NegativeFive("-5=", d);
    ErrorJoins("1/0=", "-5=", "1/0=-5=");
    AfterError(Run(Init, "1/0="), "1/0=", "-5=", "1/0=-5=", d);
  }

  // ---------------------------------------------------------------------
  // A typed zero
  // ---------------------------------------------------------------------

  lemma ZeroSteps()
    ensures Step(Init, '0') == Init && Step(Init, '*') == Init
  {
    InitOpen();
    DigitKey(Init, '0');
    PristineOperatorIgnored(Init, '*');
  }

  lemma FiveEquals(k: string, d: Calc)
    requires k == "5=" && d == Calc("5", "5=", true, [], [])
    ensures Run(Init, k) == d
  {
    var xs, ops: seq<string> := [5], [];
    OneKeys(xs, ops, 5);
    TypedExample(xs, ops, k, "5");
  }

  lemma ZeroJoins(k0: string, k1: string, k2: string)
    requires k0 == "0" && k1 == "0*" && k2 == "0*5="
    ensures k1 == k0 + ['*'] && k2 == k1 + "5="
  {
  }

  /** A 0 typed first leaves the display as fresh, so the `*` after it is
      ignored like a leading `*`: `0*5=` shows 5 and long output `5=`. */
  lemma LeadingZeroOperatorIgnored()
    ensures Run(Init, "0*5=") == Calc("5", "5=", true, [], [])
  {
    InitOpen();
    var d := Calc("5", "5=", true, [], []);
    ZeroSteps();
    FiveEquals("5=", d);
    RunFirst('0', Init, "0");
    ZeroJoins("0", "0*", "0*5=");
    Then("0", Init, '*', Init, "0*");
    ThenKeys("0*", Init, "5=", d, "0*5=");
  }

  lemma ZeroOperandSteps(c2: Calc, c3: Calc, c4: Calc, c5: Calc)
    requires c2 == Calc("*", "5", true, ["5"], []) && c3 == Calc("0", "5*", false, ["5"], ["*"])
    requires c4 == Calc("-", "5*", false, ["5"], ["*"]) && c5 == Calc("-3", "5*", false, ["5"], ["*"])
    ensures Step(c2, '0') == c3 && Inv(c3)
    ensures Step(c3, '-') == c4 && Inv(c4)
    ensures Step(c4, '3') == c5 && Inv(c5)
  {
    NumberAfterOperator(c2, '0');
    assert [] + ["*"] == ["*"] && "5" + "*" == "5*";
    MinusOnZeroIsSign(c3);
    assert NumeralText(c4.short);
    ErrorNotNumeral();
    DigitKey(c4, '3');
    assert c4.short + ['3'] == "-3";
  }

  lemma ZeroOperandFacts(c5: Calc)
    requires c5 == Calc("-3", "5*", false, ["5"], ["*"])
    ensures Open(c5) && !c5.lastWasOp
    ensures c5.nums + [TrimPoint(c5.short)] == ["5", "-3"] && c5.long + TrimPoint(c5.short) == "5*-3"
  {
    assert TrimPoint("-3") == "-3";
    ErrorNotNumeral();
  }

  lemma ZeroOperandValue(nums: seq<string>, ops: seq<string>, z: string)
    requires nums == ["5", "-3"] && ops == ["*"] && z == "-15"
    ensures Evaluate(nums, ops) == Reduced([z], [])
  {
    ProductText(5, -3, -15, nums[0], nums[1], z);
    CombineIntegers(ops[0], 5, -3);
    EvaluateSingle(ops[0], nums[0], nums[1]);
  }

  lemma ProductText(a: int, b: int, p: int, x: string, y: string, z: string)
    requires a == 5 && b == -3 && p == -15 && x == "5" && y == "-3" && z == "-15"
    ensures IntToString(a) == x && IntToString(b) == y && IntToString(p) == z && IntApply("*", a, b) == p
  {
    assert NatToString(15) == NatToString(1) + [DigitChar(5)];
    assert NatToString(15) == "15";
  }

  lemma ZeroOperandEquals(c5: Calc, d: Calc)
    requires c5 == Calc("-3", "5*", false, ["5"], ["*"]) && d == Calc("-15", "5*-3=", true, [], [])
    ensures Step(c5, '=') == d
  {
    ZeroOperandFacts(c5);
    ZeroOperandValue(["5", "-3"], c5.ops, "-15");
    EqualsShowsValue(c5, ["5", "-3"], "5*-3", "-15");
  }

  lemma ZeroOperandJoins(k0: string, k1: string, k2: string, k3: string, k4: string, k5: string)
    requires k0 == "5" && k1 == "5*" && k2 == "5*0" && k3 == "5*0-" && k4 == "5*0-3" && k5 == "5*0-3="
    ensures k1 == k0 + ['*'] && k2 == k1 + ['0'] && k3 == k2 + ['-'] && k4 == k3 + ['3'] && k5 == k4 + ['=']
  {
  }

  /** A 0 typed as an operand turns a `-` after it into a sign, not a
      subtraction: `5*0-3=` computes 5 * -3 and shows -15. */
  lemma ZeroOperandMinusIsSign()
    ensures Run(Init, "5*0-3=") == Calc("-15", "5*-3=", true, [], [])
  {
    var c1, c2, c3 := Calc("5", "", false, [], []), Calc("*", "5", true, ["5"], []), Calc("0", "5*", false, ["5"], ["*"]);
    var c4, c5 := Calc("-", "5*", false, ["5"], ["*"]), Calc("-3", "5*", false, ["5"], ["*"]);
    var d := Calc("-15", "5*-3=", true, [], []);
    FirstOperator(c1, c2, '5', '*');
    ZeroOperandSteps(c2, c3, c4, c5);
    ZeroOperandEquals(c5, d);
    RunFirst('5', c1, "5");
    ZeroOperandJoins("5", "5*", "5*0", "5*0-", "5*0-3", "5*0-3=");
    Then("5", c1, '*', c2, "5*");
    Then("5*", c2, '0', c3, "5*0");
    Then("5*0", c3, '-', c4, "5*0-");
    Then("5*0-", c4, '3', c5, "5*0-3");
    Then("5*0-3", c5, '=', d, "5*0-3=");
  }

  // ---------------------------------------------------------------------
  // Several operators in a row
  // ---------------------------------------------------------------------

  lemma OperatorSteps(s5: Calc, a: Calc, b: Calc, m: Calc)
    requires s5 == Calc("5", "", false, [], []) && a == Calc("+", "5", true, ["5"], [])
    requires b == Calc("*", "5", true, ["5"], []) && m == Calc("-", "5", true, ["5"], [])
    ensures Step(Init, '5') == s5 && Inv(s5)
    ensures Step(s5, '+') == a && Inv(a) && Step(a, '*') == b && Inv(b) && Step(b, '-') == m
    ensures Step(s5, '-') == m && Inv(m)
  {
    FirstOperator(s5, a, '5', '+');
    FirstOperator(s5, b, '5', '*');
    FirstOperator(s5, m, '5', '-');
    ErrorNotNumeral();
    LastOperatorWins(s5, '+', '*');
    LastOperatorWins(s5, '*', '-');
  }

  lemma CollapseJoins(k0: string, k1: string, k2: string, k3: string, k4: string)
    requires k0 == "5" && k1 == "5+" && k2 == "5+*" && k3 == "5+*-" && k4 == "5-"
    ensures k1 == k0 + ['+']
    ensures k2 == k1 + ['*']
    ensures k3 == k2 + ['-']
    ensures k4 == k0 + ['-']
  {
  }

  /** `5+*-` ends where `5-` ends. */
  lemma OperatorsCollapse(m: Calc)
    requires m == Calc("-", "5", true, ["5"], [])
    ensures Inv(m) && Run(Init, "5+*-") == m && Run(Init, "5-") == m
  {
    var s5, a, b := Calc("5", "", false, [], []), Calc("+", "5", true, ["5"], []), Calc("*", "5", true, ["5"], []);
    OperatorSteps(s5, a, b, m);
    RunFirst('5', s5, "5");
    CollapseJoins("5", "5+", "5+*", "5+*-", "5-");
    Then("5", s5, '+', a, "5+");
    Then("5+", a, '*', b, "5+*");
    Then("5+*", b, '-', m, "5+*-");
    Then("5", s5, '-', m, "5-");
  }

  lemma LastOperatorKeys(xs: seq<int>, ops: seq<string>, keys: string, a: string, b: string)
    requires xs == [5, 7] && ops == ["-"] && keys == "5-7=" && a == "5-" && b == "7="
    ensures |xs| == |ops| + 1 && AllIntOperators(ops) && Positive(xs)
    ensures EquationKeys(xs, ops) + "=" == keys && keys == a + b
    ensures IntToString(Value(xs, ops)) == "-2"
  {
    assert xs[..1] == [5] && xs[1..] == [7] && ops[..0] == [];
    assert LeadKeys(xs, ops) == "5-";
    assert Value(xs, ops) == -2;
  }

  lemma SevenJoins(k0: string, k1: string)
    requires k0 == "5-" && k1 == "5-7="
    ensures k1 == k0 + "7="
  {
  }

  /** After `5-`, the keys `7=` finish the equation `5-7=`. */
  lemma SubtractSeven(m: Calc)
    requires m == Calc("-", "5", true, ["5"], [])
    ensures Inv(m) && Run(m, "7=") == Calc("-2", "5-7=", true, [], [])
  {
    var xs, ops := [5, 7], ["-"];
    OperatorsCollapse(m);
    LastOperatorKeys(xs, ops, "5-7=", "5-", "7=");
    TypedExample(xs, ops, "5-7=", "-2");
    SevenJoins("5-", "5-7=");
    ThenKeys("5-", m, "7=", Run(m, "7="), "5-7=");
  }

  lemma LastOperatorJoins(k0: string, k1: string)
    requires k0 == "5+*-" && k1 == "5+*-7="
    ensures k1 == k0 + "7="
  {
  }

  /** Of `+*-` typed in a row only the `-` is used: `5+*-7=` is `5-7=`. */
  lemma LastEnteredOperatorIsUsed()
    ensures Run(Init, "5+*-7=") == Calc("-2", "5-7=", true, [], [])
  {
    var m := Calc("-", "5", true, ["5"], []);
    OperatorsCollapse(m);
    SubtractSeven(m);
    LastOperatorJoins("5+*-", "5+*-7=");
    ThenKeys("5+*-", m, "7=", Calc("-2", "5-7=", true, [], []), "5+*-7=");
  }

  // ---------------------------------------------------------------------
  // Signs and points
  // ---------------------------------------------------------------------

  lemma PointStep(c: Calc, d: Calc)
    requires c == Calc("1", "", false, [], []) && d == Calc("1.", "", false, [], [])
    ensures Inv(c) && Step(c, '.') == d && Inv(d)
  {
    ErrorNotNumeral();
    PointKey(c);
    assert '.' !in c.short && c.short + "." == "1.";
  }

  /** An operator key after a number finishes the number. */
  lemma FinishNumber(c: Calc, r: char, d: Calc)
    requires Open(c) && !c.lastWasOp && IsOperatorKey(r)
    requires !(c.short == "0" && (r == '-' || c.long == ""))
    requires d == c.(nums := c.nums + [TrimPoint(c.short)], long := c.long + TrimPoint(c.short), short := [r], lastWasOp := true)
    ensures Step(c, r) == d && Inv(d)
  {
    ErrorNotNumeral();
    StepEnters(c, r);
    EnterOperatorAfterNumber(c, r);
  }

  lemma PointTrimmed(s: string, t: string)
    requires s == "1." && t == "1"
    ensures NumeralText(s) && TrimPoint(s) == t && "" + t == t
  {
  }

  lemma TrimmedPointStep(c: Calc, d: Calc)
    requires c == Calc("1.", "", false, [], []) && d == Calc("+", "1", true, ["1"], [])
    ensures Inv(c) && Step(c, '+') == d && Inv(d)
  {
    PointTrimmed(c.short, "1");
    FinishNumber(c, '+', d);
  }

  lemma PointJoins(k0: string, k1: string, k2: string, k3: string, k4: string, k5: string)
    requires k0 == "1" && k1 == "1+" && k2 == "1." && k3 == "1.+" && k4 == "1+2=" && k5 == "1.+2="
    ensures k1 == k0 + ['+']
    ensures k2 == k0 + ['.']
    ensures k3 == k2 + ['+']
    ensures k4 == k1 + "2="
    ensures k5 == k3 + "2="
  {
  }

  /** A point with no digits after it is dropped from the equation:
      `1.+2=` is `1+2=`. */
  lemma SingleCommaAfterNumberIsRemoved()
    ensures Run(Init, "1.+2=") == Calc("3", "1+2=", true, [], [])
  {
    var c1, c2, d := Calc("1", "", false, [], []), Calc("1.", "", false, [], []), Calc("+", "1", true, ["1"], []);
    var r := Calc("3", "1+2=", true, [], []);
    FirstOperator(c1, d, '1', '+');
    PointStep(c1, c2);
    TrimmedPointStep(c2, d);
    RunFirst('1', c1, "1");
    PointJoins("1", "1+", "1.", "1.+", "1+2=", "1.+2=");
    Then("1", c1, '+', d, "1+");
    Then("1", c1, '.', c2, "1.");
    Then("1.", c2, '+', d, "1.+");
    TwoNumbersCanBeAdded();
    ThenKeys("1+", d, "2=", Run(d, "2="), "1+2=");
    ThenKeys("1.+", d, "2=", r, "1.+2=");
  }

  /** One more digit on a number being edited. */
  lemma MoreDigits(c: Calc, r: char, d: Calc)
    requires EditingNumber(c) && IsDigit(r) && d == c.(short := c.short + [r])
    ensures Step(c, r) == d && EditingNumber(d)
  {
    DigitKey(c, r);
    DigitKeepsEditing(c, r);
  }

  /** `=` on a lone number without a trailing point shows it unchanged. */
  lemma LoneResult(c: Calc, d: Calc)
    requires EditingNumber(c) && c.nums == [] && c.long == "" && c.short[|c.short| - 1] != '.'
    requires d == Calc(c.short, c.short + "=", true, [], [])
    ensures Step(c, '=') == d
  {
    Untrimmed(c.short, c.long);
    LoneNumberEquals(c);
  }

  lemma Untrimmed(s: string, l: string)
    requires |s| >= 1 && s[|s| - 1] != '.' && l == ""
    ensures TrimPoint(s) == s && l + s == s
  {
  }

  lemma SignStep(c1: Calc)
    requires c1 == Calc("-", "", false, [], [])
    ensures Step(Init, '-') == c1 && EditingNumber(c1)
  {
    InitOpen();
    MinusOnZeroIsSign(Init);
    assert NumeralText(c1.short);
  }

  lemma NegativeJoins(k0: string, k1: string, k2: string, k3: string)
    requires k0 == "-" && k1 == "-2" && k2 == "-22" && k3 == "-22="
    ensures k1 == k0 + ['2']
    ensures k2 == k1 + ['2']
    ensures k3 == k2 + ['=']
  {
  }

  /** A minus on the fresh calculator makes the first number negative. */
  lemma FirstNumberCanBeNegative()
    ensures Run(Init, "-22=") == Calc("-22", "-22=", true, [], [])
  {
    var c1, c2, c3 := Calc("-", "", false, [], []), Calc("-2", "", false, [], []), Calc("-22", "", false, [], []);
    var d := Calc("-22", "-22=", true, [], []);
    SignStep(c1);
    MoreDigits(c1, '2', c2);
    MoreDigits(c2, '2', c3);
    LoneResult(c3, d);
    RunFirst('-', c1, "-");
    NegativeJoins("-", "-2", "-22", "-22=");
    Then("-", c1, '2', c2, "-2");
    Then("-2", c2, '2', c3, "-22");
    Then("-22", c3, '=', d, "-22=");
  }

  lemma LeadingPointStep(c1: Calc)
    requires c1 == Calc("0.", "", false, [], [])
    ensures Step(Init, '.') == c1 && EditingNumber(c1)
  {
    InitOpen();
    PointKey(Init);
  }

  lemma LeadingPointJoins(k0: string, k1: string, k2: string)
    requires k0 == "." && k1 == ".5" && k2 == ".5="
    ensures k1 == k0 + ['5']
    ensures k2 == k1 + ['=']
  {
  }

  /** A number started with a point gets a leading 0: `.5=` shows 0.5. */
  lemma NumbersStartingWithDecimalArePrependedWithZero()
    ensures Run(Init, ".5=") == Calc("0.5", "0.5=", true, [], [])
  {
    var c1, c2 := Calc("0.", "", false, [], []), Calc("0.5", "", false, [], []);
    var d := Calc("0.5", "0.5=", true, [], []);
    LeadingPointStep(c1);
    MoreDigits(c1, '5', c2);
    LoneResult(c2, d);
    RunFirst('.', c1, ".");
    LeadingPointJoins(".", ".5", ".5=");
    Then(".", c1, '5', c2, ".5");
    Then(".5", c2, '=', d, ".5=");
  }

  lemma ZeroResult(d: Calc)
    requires d == Calc("0", "0=", true, [], [])
    ensures Step(Init, '=') == d
  {
    InitOpen();
    LoneNumberEquals(Init);
    assert TrimPoint("0") == "0" && "" + "0" + "=" == "0=";
  }

  /** `=` alone shows the 0 it evaluated. */
  lemma EqualsAfterOnlyANumberResultsInThatNumber()
    ensures Run(Init, "=") == Calc("0", "0=", true, [], [])
  {
    ZeroResult(Calc("0", "0=", true, [], []));
    RunFirst('=', Calc("0", "0=", true, [], []), "=");
  }
}
