/** The calculator: a short output (the number or operator being edited), a
    long output (the equation entered so far), whether the last key was an
    operator, and the numbers and operators collected for `=`. Every key is
    one `Step`; a whole session is a `Run` over its keys. */
module Calculator {
  import opened Numbers
  import opened Reducer

  const DivByZeroErr: string := "Error: div by 0"

  /** The keys `Step` reacts to; every other key is ignored. */
  const ValidInputs: string := "0123456789.+-*/=CN"

  datatype Calc = Calc(short: string, long: string, lastWasOp: bool, nums: seq<string>, ops: seq<string>)

  /** The fresh calculator, and the state `C` and an error return to. */
  const Init: Calc := Calc("0", "", false, [], [])

  /** `=` counts as an operator key. */
  predicate IsOp(r: char) { r == '+' || r == '-' || r == '*' || r == '/' || r == '=' }

  predicate EndsWithEq(s: string) { |s| > 0 && s[|s| - 1] == '=' }

  predicate HasSign(s: string) { |s| > 0 && s[0] == '-' }

  /** The text after a leading minus sign. */
  function Magnitude(s: string): string { if HasSign(s) then s[1..] else s }

  /** Toggle a leading minus sign: unless the text starts with two signs,
      the result is signed exactly when the text is not, and keeps the text
      after the sign. */
  function Negate(s: string): (t: string)
    ensures !(|s| >= 2 && s[0] == '-' && s[1] == '-') ==> HasSign(t) == !HasSign(s)
    ensures !(|s| >= 2 && s[0] == '-' && s[1] == '-') ==> Magnitude(t) == Magnitude(s)
  {
    if |s| > 0 && s[0] == '-' then s[1..] else "-" + s
  }

  // ---------------------------------------------------------------------
  // The state invariant
  // ---------------------------------------------------------------------

  /** While an equation is being entered, the collected lists alternate
      number, operator, number, ...: they are equally long, or there is one
      more number when the operator being edited is still in `short`. */
  predicate Aligned(c: Calc)
  {
    |c.nums| == |c.ops| + (if c.lastWasOp then 1 else 0)
  }

  predicate Open(c: Calc)
  {
    && !EndsWithEq(c.long)
    && Aligned(c)
    && AllNumeral(c.nums)
    && AllOperators(c.ops)
    && (if c.lastWasOp then IsOperator(c.short) else NumeralText(c.short))
  }

  /** After `=` succeeded: the result in `short`, nothing collected. */
  predicate Completed(c: Calc)
  {
    && EndsWithEq(c.long)
    && c.lastWasOp
    && c.nums == []
    && c.ops == []
    && NumeralText(c.short)
  }

  /** The states a calculator can reach: an error, a completed equation or
      an equation being entered. */
  predicate Inv(c: Calc)
  {
    c.short == DivByZeroErr || Completed(c) || Open(c)
  }

  // ---------------------------------------------------------------------
  // The operations
  // ---------------------------------------------------------------------

  /** The five ways a digit, point or operator key edits the state: continue
      after a completed equation, replace an operator, finish a number with an
      operator, start a number after an operator, or extend the number. */
  function Edit(c: Calc, r: char): (d: Calc)
    requires Open(c) || Completed(c)
    requires IsOp(r) || IsDigit(r) || r == '.'
    ensures !EndsWithEq(d.long)
    ensures |d.nums| == |d.ops| + (if IsOp(r) then 1 else 0)
    ensures AllNumeral(d.nums) && AllOperators(d.ops)
    ensures IsOp(r) ==> d.short == [r]
    ensures !IsOp(r) ==> NumeralText(d.short) && |d.short| >= 1
  {
    if EndsWithEq(c.long) then
      if IsOp(r) then
        c.(long := c.short, nums := [c.short], short := [r])
      else
        c.(long := "", short := [r])
    else if IsOp(r) && c.lastWasOp then
      c.(short := [r])
    else if IsOp(r) then
      var n := TrimPoint(c.short);
      TrimPointNumeral(c.short);
      c.(nums := c.nums + [n], long := c.long + n, short := [r])
    else if c.lastWasOp then
      c.(ops := c.ops + [c.short], long := c.long + c.short, short := [r])
    else
      var s := if c.short == "0" then "" else c.short;
      if r == '.' && '.' in s then
        c.(short := s)
      else
        AppendNumeral(s, r);
        c.(short := s + [r])
  }

  /** `=`: close the equation and evaluate it, `*` and `/` before `+` and
      `-`. A division by zero leaves the error text and the partly reduced
      lists; otherwise the one remaining number is the result. */
  function Solve(c: Calc): Calc
    requires |c.nums| == |c.ops| + 1
  {
    match Evaluate(c.nums, c.ops)
    case DivByZero(n, o) => c.(short := DivByZeroErr, long := c.long + "=", nums := n, ops := o)
    case Reduced(n, _) => c.(short := n[0], long := c.long + "=", nums := [], ops := [])
  }

  /** One key press. */
  function Step(c: Calc, r: char): (d: Calc)
    requires Inv(c)
    ensures Inv(d)
  {
    if r !in ValidInputs then c
    else
      var c0 := if c.short == DivByZeroErr then Init else c;
      if r == 'C' then Init
      else if (r == '+' || r == '*' || r == '/') && c0.short == "0" && c0.long == "" then c0
      else if r == 'N' then
        NegateKeyInv(c0);
        NegateKey(c0)
      else if c0.short == "0" && r == '-' then c0.(short := "-")
      else
        ValidKey(r);
        EnterInv(c0, r);
        Enter(c0, r)
  }

  /** `N`: after a completed equation, forget it; then negate the number
      being edited, unless it is a plain 0 or an operator is being edited. */
  function NegateKey(c: Calc): Calc
  {
    var c1 := if EndsWithEq(c.long) then c.(long := "", lastWasOp := false) else c;
    if !(c1.short == "0" || c1.lastWasOp) then c1.(short := Negate(c1.short)) else c1
  }

  /** A digit, point or operator key: edit, turn a lone point into `0.`,
      evaluate on `=`, and remember whether the key was an operator. */
  function Enter(c: Calc, r: char): Calc
    requires Open(c) || Completed(c)
    requires IsOp(r) || IsDigit(r) || r == '.'
  {
    var c1 := Edit(c, r);
    var c2 := if c1.short == "." then c1.(short := "0.") else c1;
    var c3 := if r == '=' then Solve(c2) else c2;
    c3.(lastWasOp := IsOp(r))
  }

  /** A session: the keys pressed one after another. */
  function Run(c: Calc, keys: string): (d: Calc)
    requires Inv(c)
    ensures Inv(d)
    decreases |keys|
  {
    if keys == [] then c
    else Run(Step(c, keys[0]), keys[1..])
  }

  // ---------------------------------------------------------------------
  // Every step keeps the invariant
  // ---------------------------------------------------------------------

  /** `=` reports a division by zero exactly when some `/` has a right
      operand that reads as 0; otherwise it leaves the result and nothing
      collected. */
  lemma SolveOutcome(c: Calc)
    requires |c.nums| == |c.ops| + 1 && AllNumeral(c.nums) && AllOperators(c.ops)
    ensures var d := Solve(c);
      && d.long == c.long + "=" && d.lastWasOp == c.lastWasOp
      && (d.short == DivByZeroErr <==>
            exists k :: 0 <= k < |c.ops| && DividesByZero(c.ops[k], c.nums[k + 1]))
      && (d.short != DivByZeroErr ==> d.nums == [] && d.ops == [] && NumeralText(d.short))
  {
    ErrorNotNumeral();
  }

  lemma NegateKeyInv(c: Calc)
    requires Open(c) || Completed(c)
    ensures Open(NegateKey(c)) || Completed(NegateKey(c))
  {
    var c1 := if EndsWithEq(c.long) then c.(long := "", lastWasOp := false) else c;
    if !(c1.short == "0" || c1.lastWasOp) {
      NegateNumeral(c1.short);
    }
  }

  lemma EnterInv(c: Calc, r: char)
    requires Open(c) || Completed(c)
    requires IsOp(r) || IsDigit(r) || r == '.'
    ensures Inv(Enter(c, r))
    ensures r != '=' ==> Open(Enter(c, r))
  {
    var c1 := Edit(c, r);
    var c2 := if c1.short == "." then c1.(short := "0.") else c1;
    if r == '=' {
      SolveOutcome(c2);
    }
  }

  // ---------------------------------------------------------------------
  // Helpers about number text
  // ---------------------------------------------------------------------

  lemma ValidKey(r: char)
    requires r in ValidInputs
    ensures r == 'C' || r == 'N' || IsOp(r) || IsDigit(r) || r == '.'
  {
  }

  /** Every digit, point, operator, `C` and `N` is an accepted key. */
  lemma KeyValid(r: char)
    requires IsDigit(r) || r == '.' || IsOp(r) || r == 'C' || r == 'N'
    ensures r in ValidInputs
  {
    if IsDigit(r) {
      assert ValidInputs[DigitValue(r)] == r;
    } else if r == '.' {
      assert ValidInputs[10] == r;
    } else if r == '+' {
      assert ValidInputs[11] == r;
    } else if r == '-' {
      assert ValidInputs[12] == r;
    } else if r == '*' {
      assert ValidInputs[13] == r;
    } else if r == '/' {
      assert ValidInputs[14] == r;
    } else if r == '=' {
      assert ValidInputs[15] == r;
    } else if r == 'C' {
      assert ValidInputs[16] == r;
    } else {
      assert ValidInputs[17] == r;
    }
  }

  lemma ErrorNotNumeral()
    ensures !NumeralText(DivByZeroErr)
  {
    assert !IsNumeralChar(DivByZeroErr[0]);
  }

  lemma TrimPointNumeral(s: string)
    requires NumeralText(s)
    ensures NumeralText(TrimPoint(s))
  {
    var t := TrimPoint(s);
    assert forall k :: 0 <= k < |t| ==> t[k] == s[k];
  }

  /** A digit, or a first point, keeps number text number text. */
  lemma AppendNumeral(s: string, r: char)
    requires NumeralText(s) && (IsDigit(r) || r == '.')
    requires r == '.' ==> '.' !in s
    ensures NumeralText(s + [r])
  {
    var t := s + [r];
    forall i, j | 0 <= i < j < |t|
      ensures !(t[i] == '.' && t[j] == '.')
    {
      if j == |s| && t[j] == '.' {
        assert t[i] == s[i];
      }
    }
  }

  lemma NegateNumeral(s: string)
    requires NumeralText(s)
    ensures NumeralText(Negate(s))
  {
    var t := Negate(s);
    if |s| > 0 && s[0] == '-' {
      assert forall k :: 0 <= k < |t| ==> t[k] == s[k + 1];
    } else {
      assert forall k :: 1 <= k < |t| ==> t[k] == s[k - 1];
      forall i, j | 0 <= i < j < |t|
        ensures !(t[i] == '.' && t[j] == '.')
      {
        if i > 0 {
          assert t[i] == s[i - 1] && t[j] == s[j - 1];
        }
      }
    }
  }
  /** Negating a numeral that does not start with two signs negates the
      number it reads as. */
  lemma NegateValue(s: string)
    requires NumeralText(s) && !(|s| >= 2 && s[0] == '-' && s[1] == '-')
    ensures ToNum(Negate(s)) == -ToNum(s)
  {
    if |s| > 0 && s[0] == '-' {
      var t := s[1..];
      assert |t| > 0 ==> t[0] != '-' && t[0] != '+';
    } else {
      assert |s| > 0 ==> s[0] != '+';
      assert ("-" + s)[1..] == s;
    }
  }

}
