/** Decimal text of numbers as the calculator reads it (`toNum`) and writes it
    (`toString`): unsigned digit strings, the subset of float syntax that can
    reach the parser, six-digit fixed-point formatting and the trimming of
    trailing zeros. Arithmetic is on exact reals. */
module Numbers {

  predicate IsDigit(ch: char) { '0' <= ch <= '9' }

  predicate AllDigits(s: string) { forall k :: 0 <= k < |s| ==> IsDigit(s[k]) }

  function DigitValue(ch: char): nat
    requires IsDigit(ch)
  {
    ch as int - '0' as int
  }

  function DigitChar(d: nat): (ch: char)
    requires d < 10
    ensures IsDigit(ch) && DigitValue(ch) == d
  {
    ('0' as int + d) as char
  }

  function Pow10(n: nat): (p: nat)
    ensures p >= 1
  {
    if n == 0 then 1 else 10 * Pow10(n - 1)
  }

  /** The value of a digit string, most significant digit first ("" reads as 0). */
  function ParseNat(s: string): nat
    requires AllDigits(s)
    decreases |s|
  {
    if s == [] then 0 else 10 * ParseNat(s[..|s| - 1]) + DigitValue(s[|s| - 1])
  }

  /** Shortest decimal digits of n. */
  function NatToString(n: nat): (s: string)
    ensures 1 <= |s| && AllDigits(s)
    ensures |s| > 1 ==> s[0] != '0'
    ensures ParseNat(s) == n
    decreases n
  {
    if n < 10 then
      [DigitChar(n)]
    else
      var s := NatToString(n / 10) + [DigitChar(n % 10)];
      assert s[..|s| - 1] == NatToString(n / 10);
      s
  }

  /** Decimal text of an integer, with a leading '-' when negative. */
  function IntToString(n: int): string
  {
    if n < 0 then "-" + NatToString(-n) else NatToString(n)
  }

  function Zeros(k: nat): (z: string)
    ensures |z| == k && AllDigits(z)
    ensures forall i :: 0 <= i < k ==> z[i] == '0'
  {
    seq(k, _ => '0')
  }

  function PadLeft(s: string, width: nat): string
  {
    if |s| >= width then s else Zeros(width - |s|) + s
  }

  lemma {:induction false} Pow10Add(a: nat, b: nat)
    ensures Pow10(a + b) == Pow10(a) * Pow10(b)
    decreases b
  {
    if b > 0 {
      Pow10Add(a, b - 1);
      assert Pow10(a + b) == 10 * Pow10(a + b - 1);
    }
  }

  lemma {:induction false} ParseNatConcat(a: string, b: string)
    requires AllDigits(a) && AllDigits(b)
    ensures AllDigits(a + b)
    ensures ParseNat(a + b) == ParseNat(a) * Pow10(|b|) + ParseNat(b)
    decreases |b|
  {
    DigitsConcat(a, b);
    if b == [] {
      assert a + b == a;
    } else {
      var b' := b[..|b| - 1];
      ParseNatConcat(a, b');
      var p, q, d := ParseNat(a), Pow10(|b'|), DigitValue(b[|b| - 1]);
      assert ParseNat(a + b) == 10 * ParseNat(a + b') + d;
      ShiftDigit(p, q, ParseNat(b'), d);
    }
  }

  lemma DigitsConcat(a: string, b: string)
    requires AllDigits(a) && AllDigits(b)
    ensures AllDigits(a + b)
    ensures b != [] ==> (a + b)[..|a + b| - 1] == a + b[..|b| - 1] && (a + b)[|a + b| - 1] == b[|b| - 1]
  {
    if b != [] {
      assert (a + b)[..|a + b| - 1] == a + b[..|b| - 1];
    }
  }

  lemma ShiftDigit(p: int, q: int, m: int, d: int)
    ensures 10 * (p * q + m) + d == p * (10 * q) + (10 * m + d)
  {
  }

  lemma {:induction false} ParseZeros(k: nat)
    ensures ParseNat(Zeros(k)) == 0
    decreases k
  {
    if k > 0 {
      assert Zeros(k)[..k - 1] == Zeros(k - 1);
      ParseZeros(k - 1);
    }
  }

  /** Numbers below 10^w have at most w digits. */
  lemma {:induction false} NatToStringWidth(n: nat, w: nat)
    requires w >= 1 && n < Pow10(w)
    ensures |NatToString(n)| <= w
    decreases n
  {
    if n >= 10 {
      assert Pow10(w) == 10 * Pow10(w - 1);
      assert w >= 2;
      NatToStringWidth(n / 10, w - 1);
      assert |NatToString(n)| == |NatToString(n / 10)| + 1;
    }
  }

  /** Left padding with zeros keeps the value of a digit string. */
  lemma {:induction false} PadLeftValue(s: string, width: nat)
    requires AllDigits(s)
    ensures var p := PadLeft(s, width);
      AllDigits(p) && |p| == if |s| >= width then |s| else width
    ensures ParseNat(PadLeft(s, width)) == ParseNat(s)
  {
    if |s| < width {
      ParseNatConcat(Zeros(width - |s|), s);
      ParseZeros(width - |s|);
    }
  }

  // ---------------------------------------------------------------------
  // Parsing (toNum)
  // ---------------------------------------------------------------------

  /** Index of the first '.', or |s| when there is none. */
  function PointIndex(s: string): (k: nat)
    ensures k <= |s|
    ensures k < |s| ==> s[k] == '.'
    ensures forall j :: 0 <= j < k ==> s[j] != '.'
  {
    if s == [] then 0 else if s[0] == '.' then 0 else 1 + PointIndex(s[1..])
  }

  /** Unsigned decimal numeral: digits with at most one point and at least one digit. */
  predicate IsUnsignedNumeral(s: string)
  {
    var k := PointIndex(s);
    AllDigits(s[..k]) && (k < |s| ==> AllDigits(s[k + 1..])) && (k < |s| ==> |s| >= 2) && |s| >= 1
  }

  function UnsignedValue(s: string): real
    requires IsUnsignedNumeral(s)
  {
    var k := PointIndex(s);
    if k == |s| then
      assert s[..k] == s;
      ParseNat(s) as real
    else
      ParseNat(s[..k]) as real + FractionValue(s[k + 1..])
  }

  /** The value of the digits after a point. */
  function FractionValue(fp: string): real
    requires AllDigits(fp)
  {
    ParseNat(fp) as real / Pow10(|fp|) as real
  }

  /** The number a string denotes; text that is not a numeral reads as 0, as a
      failed float parse does. */
  function ToNum(s: string): real
  {
    if |s| > 0 && s[0] == '-' then
      if IsUnsignedNumeral(s[1..]) then -UnsignedValue(s[1..]) else 0.0
    else if |s| > 0 && s[0] == '+' then
      if IsUnsignedNumeral(s[1..]) then UnsignedValue(s[1..]) else 0.0
    else if IsUnsignedNumeral(s) then UnsignedValue(s) else 0.0
  }

  // ---------------------------------------------------------------------
  // Formatting (toString)
  // ---------------------------------------------------------------------

  /** Fixed-point formatting prints this many fractional digits. */
  const FracDigits: nat := 6
  const Scale: nat := 1000000

  function Abs(x: real): real { if x < 0.0 then -x else x }

  /** Nearest integer, ties to the even neighbour. */
  function RoundHalfEven(y: real): (m: nat)
    requires y >= 0.0
    ensures (m as real) - 0.5 <= y <= (m as real) + 0.5
    ensures (m as real) - y == 0.5 || y - (m as real) == 0.5 ==> m % 2 == 0
  {
    var f := y.Floor;
    var d := y - f as real;
    if d > 0.5 || (d == 0.5 && f % 2 == 1) then f + 1 else f
  }

  /** Fixed-point text with six fractional digits: optional '-', integer
      digits, '.', six digits. */
  function Format(x: real): string
  {
    var m := RoundHalfEven(Abs(x) * Scale as real);
    (if x < 0.0 then "-" else "") + NatToString(m / Scale) + "." + PadLeft(NatToString(m % Scale), FracDigits)
  }

  /** Drops trailing '0' characters one at a time. */
  function TrimZeros(s: string): (r: string)
    ensures |r| <= |s| && r == s[..|r|]
    ensures forall k :: |r| <= k < |s| ==> s[k] == '0'
    ensures |r| == 0 || r[|r| - 1] != '0'
    decreases |s|
  {
    if |s| > 0 && s[|s| - 1] == '0' then TrimZeros(s[..|s| - 1]) else s
  }

  /** Drops one trailing '.', if there is one. */
  function TrimPoint(s: string): string
  {
    if |s| > 0 && s[|s| - 1] == '.' then s[..|s| - 1] else s
  }

  predicate IsNumeralChar(ch: char) { IsDigit(ch) || ch == '.' || ch == '-' }

  /** Text a number may be edited into: digits, points and minus signs, with at
      most one point. */
  predicate NumeralText(s: string)
  {
    && (forall k :: 0 <= k < |s| ==> IsNumeralChar(s[k]))
    && (forall i, j :: 0 <= i < j < |s| ==> !(s[i] == '.' && s[j] == '.'))
  }

  /** The calculator's display text of a result. */
  function ToString(x: real): (r: string)
    ensures NumeralText(r) && |r| >= 1
    ensures r[|r| - 1] != '.'
    ensures '.' in r ==> r[|r| - 1] != '0'
  {
    var (sign, ip, fp) := FormatParts(x);
    assert forall k :: 0 <= k < |sign + ip| ==> IsDigit((sign + ip)[k]) || (sign + ip)[k] == '-';
    TrimFormatted(sign + ip, fp);
    TrimPoint(TrimZeros(Format(x)))
  }

  function Sign(x: real): string { if x < 0.0 then "-" else "" }

  function Rounded(x: real): nat { RoundHalfEven(Abs(x) * Scale as real) }

  function FormatFraction(x: real): string
  {
    PadLeft(NatToString(Rounded(x) % Scale), FracDigits)
  }

  /** The three parts of the formatted text. */
  function FormatParts(x: real): (parts: (string, string, string))
    ensures parts.0 == Sign(x)
    ensures parts.1 == NatToString(Rounded(x) / Scale)
    ensures parts.2 == FormatFraction(x)
    ensures Format(x) == parts.0 + parts.1 + "." + parts.2
    ensures AllDigits(parts.2) && |parts.2| == FracDigits
    ensures ParseNat(parts.2) == Rounded(x) % Scale
  {
    var m := Rounded(x);
    NatToStringWidth(m % Scale, FracDigits);
    PadLeftValue(NatToString(m % Scale), FracDigits);
    (Sign(x), NatToString(m / Scale), FormatFraction(x))
  }

  /** Trimming a formatted text is trimming its fraction digits alone, and
      dropping the point when no fraction digit is left. */
  lemma {:induction false} TrimFormatted(head: string, frac: string)
    requires NumeralText(head) && '.' !in head && |head| >= 1
    requires AllDigits(frac)
    ensures var t := TrimZeros(frac);
      TrimPoint(TrimZeros(head + "." + frac)) == if t == [] then head else head + "." + t
    ensures var r := TrimPoint(TrimZeros(head + "." + frac));
      NumeralText(r) && |r| >= 1 && r[|r| - 1] != '.' && ('.' in r ==> r[|r| - 1] != '0')
  {
    var pre := head + ".";
    TrimZerosAfter(pre, frac);
    var t := TrimZeros(frac);
    var r := TrimPoint(TrimZeros(head + "." + frac));
    assert head + "." + frac == pre + frac;
    if t == [] {
      assert r == head;
    } else {
      assert r == pre + t;
      assert IsDigit(t[|t| - 1]);
      forall i, j | 0 <= i < j < |r| ensures !(r[i] == '.' && r[j] == '.') {
        if i < |head| {
          assert r[i] == head[i];
          assert r[i] != '.';
        } else {
          assert j > |head|;
          assert r[j] == t[j - |head| - 1];
        }
      }
    }
  }

  lemma {:induction false} TrimZerosAfter(pre: string, frac: string)
    requires |pre| >= 1 && pre[|pre| - 1] != '0'
    requires AllDigits(frac)
    ensures TrimZeros(pre + frac) == pre + TrimZeros(frac)
    decreases |frac|
  {
    if frac == [] {
      assert pre + frac == pre;
    } else if frac[|frac| - 1] == '0' {
      assert (pre + frac)[..|pre + frac| - 1] == pre + frac[..|frac| - 1];
      TrimZerosAfter(pre, frac[..|frac| - 1]);
    }
  }

  // ---------------------------------------------------------------------
  // What the texts denote
  // ---------------------------------------------------------------------

  /** The value the formatted text stands for: |x| rounded to a millionth,
      carrying the sign of x. */
  function RoundedValue(x: real): real
  {
    var v := Rounded(x) as real / Scale as real;
    if x < 0.0 then -v else v
  }

  lemma {:induction false} PointIndexAfterDigits(ip: string, rest: string)
    requires AllDigits(ip)
    requires |rest| >= 1 && rest[0] == '.'
    ensures PointIndex(ip + rest) == |ip|
    decreases |ip|
  {
    if ip != [] {
      assert (ip + rest)[1..] == ip[1..] + rest;
      PointIndexAfterDigits(ip[1..], rest);
    } else {
      assert ip + rest == rest;
    }
  }

  lemma {:induction false} PointIndexDigits(ip: string)
    requires AllDigits(ip)
    ensures PointIndex(ip) == |ip|
    decreases |ip|
  {
    if ip != [] {
      PointIndexDigits(ip[1..]);
    }
  }

  /** Digits, a point and digits read as integer part plus fraction. */
  lemma {:induction false} PointNumeralValue(ip: string, fp: string)
    requires AllDigits(ip) && AllDigits(fp) && |ip| >= 1
    ensures IsUnsignedNumeral(ip + "." + fp)
    ensures UnsignedValue(ip + "." + fp) == ParseNat(ip) as real + FractionValue(fp)
  {
    var s := ip + "." + fp;
    assert s == ip + ("." + fp);
    PointIndexAfterDigits(ip, "." + fp);
    assert s[..|ip|] == ip;
    assert s[|ip| + 1..] == fp;
  }

  lemma {:induction false} DigitsNumeralValue(ip: string)
    requires AllDigits(ip) && |ip| >= 1
    ensures IsUnsignedNumeral(ip)
    ensures UnsignedValue(ip) == ParseNat(ip) as real
  {
    PointIndexDigits(ip);
    assert ip[..|ip|] == ip;
  }

  /** A leading '-' negates; no sign leaves the value alone. */
  lemma {:induction false} SignedValue(sign: string, body: string)
    requires sign == "" || sign == "-"
    requires IsUnsignedNumeral(body) && IsDigit(body[0])
    ensures ToNum(sign + body) == if sign == "-" then -UnsignedValue(body) else UnsignedValue(body)
  {
    if sign == "-" {
      assert (sign + body)[1..] == body;
    } else {
      assert sign + body == body;
    }
  }

  /** A trimmed fraction denotes the same fraction as the untrimmed one. */
  lemma {:induction false} TrimmedFractionValue(fp: string)
    requires AllDigits(fp)
    ensures var t := TrimZeros(fp);
      AllDigits(t) && FractionValue(t) == FractionValue(fp)
  {
    var t := TrimZeros(fp);
    var z := Zeros(|fp| - |t|);
    assert fp == t + z;
    var a, b, p := ParseNat(t), Pow10(|z|), Pow10(|t|);
    assert ParseNat(fp) == a * b by {
      ParseNatConcat(t, z);
      ParseZeros(|z|);
    }
    assert Pow10(|fp|) == p * b by {
      Pow10Add(|t|, |z|);
    }
    FractionScale(a, p, b);
  }

  /** Scaling numerator and denominator alike keeps a fraction. */
  lemma FractionScale(a: nat, p: nat, b: nat)
    requires p > 0 && b > 0
    ensures (a * b) as real / (p * b) as real == a as real / p as real
  {
    CastMul(a, b);
    CastMul(p, b);
    DivCancel(a as real, p as real, b as real);
  }

  lemma CastMul(a: int, b: int)
    ensures (a * b) as real == (a as real) * (b as real)
  {
  }

  lemma DivCancel(a: real, p: real, q: real)
    requires p > 0.0 && q > 0.0
    ensures (a * q) / (p * q) == a / p
  {
    var r := a / p;
    assert r * p == a;
    assert r * (p * q) == a * q;
  }

  function Signed(sign: string, v: real): real { if sign == "-" then -v else v }

  /** Sign, integer digits, point and fraction digits read as their value. */
  lemma {:induction false} PointTextValue(sign: string, ip: string, fp: string)
    requires sign == "" || sign == "-"
    requires AllDigits(ip) && AllDigits(fp) && |ip| >= 1
    ensures ToNum(sign + ip + "." + fp) == Signed(sign, ParseNat(ip) as real + FractionValue(fp))
  {
    PointNumeralValue(ip, fp);
    PointTextSplit(sign, ip, fp);
    SignedValue(sign, ip + "." + fp);
  }

  lemma PointTextSplit(sign: string, ip: string, fp: string)
    requires |ip| >= 1
    ensures sign + ip + "." + fp == sign + (ip + "." + fp)
    ensures (ip + "." + fp)[0] == ip[0]
  {
  }

  /** Trimming trailing zeros and the point never changes the value of the text. */
  lemma {:induction false} TrimmedTextValue(sign: string, ip: string, fp: string)
    requires sign == "" || sign == "-"
    requires AllDigits(ip) && AllDigits(fp) && |ip| >= 1
    ensures ToNum(TrimPoint(TrimZeros(sign + ip + "." + fp))) == ToNum(sign + ip + "." + fp)
  {
    var head := sign + ip;
    SignedDigits(sign, ip);
    TrimFormatted(head, fp);
    if TrimZeros(fp) == [] {
      ZeroFractionValue(sign, ip, fp);
    } else {
      FractionTextValue(sign, ip, fp);
    }
  }

  lemma {:induction false} ZeroFractionValue(sign: string, ip: string, fp: string)
    requires sign == "" || sign == "-"
    requires AllDigits(ip) && AllDigits(fp) && |ip| >= 1
    requires TrimZeros(fp) == []
    ensures ToNum(sign + ip) == ToNum(sign + ip + "." + fp)
  {
    var p := ParseNat(ip) as real;
    ZeroFraction(fp);
    assert p + FractionValue(fp) == p;
    PointTextValue(sign, ip, fp);
    WholeTextValue(sign, ip);
  }

  lemma ZeroFraction(fp: string)
    requires AllDigits(fp) && TrimZeros(fp) == []
    ensures ParseNat(fp) == 0 && FractionValue(fp) == 0.0
  {
    assert fp == Zeros(|fp|);
    ParseZeros(|fp|);
  }

  /** A sign and digits are number text without a point. */
  lemma SignedDigits(sign: string, ip: string)
    requires sign == "" || sign == "-"
    requires AllDigits(ip) && |ip| >= 1
    ensures NumeralText(sign + ip) && '.' !in sign + ip && |sign + ip| >= 1
  {
    var head := sign + ip;
    assert forall k :: 0 <= k < |head| ==> IsDigit(head[k]) || head[k] == '-';
  }

  lemma {:induction false} FractionTextValue(sign: string, ip: string, fp: string)
    requires sign == "" || sign == "-"
    requires AllDigits(ip) && AllDigits(fp) && |ip| >= 1
    ensures ToNum(sign + ip + "." + TrimZeros(fp)) == ToNum(sign + ip + "." + fp)
  {
    var p := ParseNat(ip) as real;
    TrimmedFractionValue(fp);
    assert p + FractionValue(TrimZeros(fp)) == p + FractionValue(fp);
    PointTextValue(sign, ip, fp);
    PointTextValue(sign, ip, TrimZeros(fp));
  }

  lemma {:induction false} WholeTextValue(sign: string, ip: string)
    requires sign == "" || sign == "-"
    requires AllDigits(ip) && |ip| >= 1
    ensures ToNum(sign + ip) == Signed(sign, ParseNat(ip) as real)
  {
    DigitsNumeralValue(ip);
    SignedValue(sign, ip);
  }

  /** The integer and fraction parts of the rounded value add up to it. */
  lemma SplitScaled(m: nat)
    ensures (m / Scale) as real + (m % Scale) as real / Scale as real == m as real / Scale as real
  {
  }

  /** The formatted text denotes x rounded to six fractional digits. */
  lemma FormatValue(x: real)
    ensures ToNum(Format(x)) == RoundedValue(x)
  {
    var (sign, ip, fp) := FormatParts(x);
    assert Pow10(FracDigits) == Scale;
    PointTextValue(sign, ip, fp);
    SplitScaled(Rounded(x));
  }

  /** Rounding to six fractional digits moves x by at most half a millionth. */
  lemma RoundingError(x: real)
    ensures -0.0000005 <= RoundedValue(x) - x <= 0.0000005
  {
    var m := Rounded(x);
    var y := Abs(x) * Scale as real;
    assert (m as real) - 0.5 <= y <= (m as real) + 0.5;
  }

  /** The display text of x denotes x rounded to six fractional digits, so
      it is never further than half a millionth from x. */
  lemma ToStringValue(x: real)
    ensures ToNum(ToString(x)) == RoundedValue(x)
    ensures -0.0000005 <= ToNum(ToString(x)) - x <= 0.0000005
  {
    var (sign, ip, fp) := FormatParts(x);
    FormatValue(x);
    TrimmedTextValue(sign, ip, fp);
    RoundingError(x);
  }

  /** An integer prints without a point, and its text reads back as itself. */
  lemma IntegerText(n: int)
    ensures ToString(n as real) == IntToString(n)
    ensures ToNum(IntToString(n)) == n as real
  {
    IntegerPrint(n);
    IntegerRead(n);
  }

  lemma IntegerPrint(n: int)
    ensures ToString(n as real) == IntToString(n)
  {
    var x := n as real;
    var a: nat := if n < 0 then -n else n;
    RoundedInteger(n);
    var (sign, ip, fp) := FormatParts(x);
    assert ip == NatToString(a) && ParseNat(fp) == 0;
    ZeroDigitsTrim(fp);
    SignedDigits(sign, ip);
    TrimFormatted(sign + ip, fp);
    assert ToString(x) == sign + ip;
    IntegerSplit(n);
  }

  lemma IntegerRead(n: int)
    ensures ToNum(IntToString(n)) == n as real
  {
    var a: nat := if n < 0 then -n else n;
    IntegerSplit(n);
    WholeTextValue(Sign(n as real), NatToString(a));
  }

  /** Integer text is its sign followed by the digits of its magnitude. */
  lemma IntegerSplit(n: int)
    ensures var a: nat := if n < 0 then -n else n;
      IntToString(n) == Sign(n as real) + NatToString(a)
  {
    if n >= 0 {
      assert "" + NatToString(n) == NatToString(n);
    }
  }

  lemma RoundedInteger(n: int)
    ensures var a: nat := if n < 0 then -n else n;
      Rounded(n as real) == a * Scale && Rounded(n as real) / Scale == a && Rounded(n as real) % Scale == 0
  {
    var a: nat := if n < 0 then -n else n;
    assert Abs(n as real) * Scale as real == (a * Scale) as real;
    assert (a * Scale) / Scale == a && (a * Scale) % Scale == 0;
  }

  /** Digits of value zero are all trimmed away. */
  lemma ZeroDigitsTrim(s: string)
    requires AllDigits(s) && ParseNat(s) == 0
    ensures TrimZeros(s) == []
  {
    TrimmedPositive(s);
  }

  /** Digits that keep something after trimming have a positive value. */
  lemma TrimmedPositive(s: string)
    requires AllDigits(s)
    ensures TrimZeros(s) != [] ==> ParseNat(s) > 0
  {
    var t := TrimZeros(s);
    if t != [] {
      assert s == t + s[|t|..];
      ParseNatConcat(t, s[|t|..]);
      NonZeroLast(t);
    }
  }

  /** A digit string whose last digit is not 0 has a positive value. */
  lemma NonZeroLast(t: string)
    requires AllDigits(t) && |t| >= 1 && t[|t| - 1] != '0'
    ensures ParseNat(t) > 0
  {
  }
}
