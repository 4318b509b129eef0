/** Numeric tokens of the receipt grammars, their exact values (`int(...)` and
    `float(token.replace(",", "."))`), `str()` of a natural number, and
    rounding to a number of decimals. */
module Numeric {
  import opened Wrappers
  import opened Strings

  // ----- digits -----

  function DigitValue(c: char): nat
    requires IsDigit(c)
  {
    c as int - '0' as int
  }

  function DigitChar(n: nat): (c: char)
    requires n < 10
    ensures IsDigit(c) && DigitValue(c) == n
  {
    ('0' as int + n) as char
  }

  /** The value of a run of decimal digits, most significant first. */
  function DigitsValue(s: string): nat
    requires AllDigits(s)
  {
    if |s| == 0 then 0 else DigitsValue(s[..|s| - 1]) * 10 + DigitValue(s[|s| - 1])
  }

  function Pow10(d: nat): (p: nat)
    ensures p >= 1
  {
    if d == 0 then 1 else 10 * Pow10(d - 1)
  }

  /** `\d+`. */
  predicate IsDigits(s: string) {
    |s| > 0 && AllDigits(s)
  }

  /** A digit run without superfluous leading zeros, as `str(n)` prints it. */
  predicate IsCanonical(s: string) {
    IsDigits(s) && (s[0] == '0' ==> |s| == 1)
  }

  /** `str(n)` for a non-negative integer. */
  function NatToString(n: nat): (s: string)
    ensures IsCanonical(s)
    ensures DigitsValue(s) == n
    ensures |s| <= 1 + n
  {
    if n < 10 then [DigitChar(n)]
    else
      var s := NatToString(n / 10) + [DigitChar(n % 10)];
      assert s[..|s| - 1] == NatToString(n / 10);
      s
  }

  /** Reading back a canonical digit run and printing it again gives the same text. */
  lemma {:induction false} NatToStringOfValue(s: string)
    requires IsCanonical(s)
    ensures NatToString(DigitsValue(s)) == s
    decreases |s|
  {
    if |s| == 1 {
      assert DigitsValue(s) == DigitValue(s[0]);
    } else {
      var init := s[..|s| - 1];
      assert init[0] == s[0];
      assert IsCanonical(init);
      NatToStringOfValue(init);
      DigitsValuePositive(init);
      assert DigitsValue(s) / 10 == DigitsValue(init);
      assert DigitsValue(s) % 10 == DigitValue(s[|s| - 1]);
      assert s == init + [s[|s| - 1]];
    }
  }

  /** A canonical run of two or more digits is worth at least ten. */
  lemma {:induction false} DigitsValuePositive(s: string)
    requires IsCanonical(s) && s[0] != '0'
    ensures DigitsValue(s) >= 1
    decreases |s|
  {
    if |s| > 1 {
      var init := s[..|s| - 1];
      assert init[0] == s[0];
      DigitsValuePositive(init);
    }
  }

  /** A leading zero does not change the value of a digit run. */
  lemma {:induction false} DigitsValueLeadingZero(s: string)
    requires AllDigits(s)
    ensures AllDigits("0" + s) && DigitsValue("0" + s) == DigitsValue(s)
    decreases |s|
  {
    if |s| > 0 {
      assert ("0" + s)[..|s|] == "0" + s[..|s| - 1];
      DigitsValueLeadingZero(s[..|s| - 1]);
    }
  }

  /** A digit run of length `d` is worth less than `10^d`. */
  lemma {:induction false} DigitsValueBound(s: string)
    requires AllDigits(s)
    ensures DigitsValue(s) < Pow10(|s|)
    decreases |s|
  {
    if |s| > 0 {
      DigitsValueBound(s[..|s| - 1]);
    }
  }

  /** A number below `10^d` prints in at most `d` digits. */
  lemma {:induction false} NatToStringLength(n: nat, d: nat)
    requires 0 < d && n < Pow10(d)
    ensures |NatToString(n)| <= d
    decreases d
  {
    if n >= 10 {
      assert d > 1;
      NatToStringLength(n / 10, d - 1);
    }
  }

  // ----- tokens -----

  /** The token without its optional leading minus sign (`-?`). */
  function Unsigned(s: string): (u: string)
    ensures |u| <= |s|
  {
    if |s| > 0 && s[0] == '-' then s[1..] else s
  }

  predicate IsNegative(s: string) {
    |s| > 0 && s[0] == '-'
  }

  /** `[1-9]\d*`. */
  predicate IsPositiveInt(s: string) {
    IsDigits(s) && s[0] != '0'
  }

  /** `-?\d+`. */
  predicate IsSignedInt(s: string) {
    IsDigits(Unsigned(s))
  }

  /** Where the separator of an unsigned decimal token sits. */
  function SepIndex(u: string): (k: nat)
    ensures k <= |u|
  {
    SpanEnd(u, 0, IsDigit)
  }

  /** `\d*[.,]\d*`: digits, one separator, digits. */
  predicate IsLooseUnsigned(u: string) {
    var k := SepIndex(u);
    k < |u| && IsSep(u[k]) && AllDigits(u[k + 1..])
  }

  /** `\d+[.,]\d+`. */
  predicate IsDecimal(u: string) {
    IsLooseUnsigned(u) && 0 < SepIndex(u) < |u| - 1
  }

  /** `-?\d+[.,]\d+`. */
  predicate IsSignedDecimal(s: string) {
    IsDecimal(Unsigned(s))
  }

  /** `-?\d*[.,]\d*`. */
  predicate IsLooseDecimal(s: string) {
    IsLooseUnsigned(Unsigned(s))
  }

  lemma SignedDecimalIsLoose(s: string)
    requires IsSignedDecimal(s)
    ensures IsLooseDecimal(s)
  {
  }

  /** Tokens of the decimal grammars hold no whitespace, so a token preceded by
      whitespace is the last one of its line. */
  lemma LooseDecimalHasNoSpace(s: string)
    requires IsLooseDecimal(s)
    ensures forall k :: 0 <= k < |s| ==> !IsSpace(s[k])
  {
    var u := Unsigned(s);
    var k := SepIndex(u);
    forall i | 0 <= i < |s| ensures !IsSpace(s[i]) {
      if IsNegative(s) {
        if i > 0 {
          var j := i - 1;
          assert u[j] == s[i];
          if j > k {
            assert u[k + 1..][j - k - 1] == u[j];
          }
        }
      } else {
        if i > k {
          assert u[k + 1..][i - k - 1] == u[i];
        }
      }
    }
  }

  lemma SignedIntHasNoSpace(s: string)
    requires IsSignedInt(s)
    ensures forall k :: 0 <= k < |s| ==> !IsSpace(s[k])
  {
    var u := Unsigned(s);
    forall i | 0 <= i < |s| ensures !IsSpace(s[i]) {
      if IsNegative(s) && i > 0 {
        assert u[i - 1] == s[i];
      }
    }
  }

  /** Every numeric token of the line grammars begins with a minus sign or a digit. */
  lemma LeadingChar(s: string)
    requires IsSignedInt(s) || IsSignedDecimal(s)
    ensures |s| > 0 && (s[0] == '-' || IsDigit(s[0]))
  {
    var u := Unsigned(s);
    if IsSignedDecimal(s) {
      assert SepIndex(u) > 0;
    }
    assert |u| > 0 && IsDigit(u[0]);
    if !IsNegative(s) {
      assert s[0] == u[0];
    }
  }

  /** No token is both an integer and a decimal: a decimal holds a separator. */
  lemma IntIsNotDecimal(s: string)
    requires IsSignedInt(s)
    ensures !IsSignedDecimal(s)
  {
    SpanEndUnique(Unsigned(s), 0, IsDigit, |Unsigned(s)|);
  }

  // ----- values -----


  /** `int(s)` for a `-?\d+` token. */
  function IntValue(s: string): int
    requires IsSignedInt(s)
  {
    var m: int := DigitsValue(Unsigned(s));
    if IsNegative(s) then -m else m
  }

  /** The exact value of `\d*[.,]\d*`: integer digits plus fractional digits. */
  function Magnitude(u: string): real
    requires IsLooseUnsigned(u)
  {
    var k := SepIndex(u);
    var frac := u[k + 1..];
    DigitsValue(u[..k]) as real + DigitsValue(frac) as real / Pow10(|frac|) as real
  }

  /** Python's `float()` on a string of the shape `-?\d*\.\d*`: the digits on
      each side of the point; `ValueError` (here `None`) when there is no digit. */
  function DottedFloat(t: string): Option<real> {
    var u := Unsigned(t);
    var k := SepIndex(u);
    if k < |u| && u[k] == '.' && AllDigits(u[k + 1..]) && |u| > 1 then
      var m := Magnitude(u);
      Some(if IsNegative(t) then -m else m)
    else
      None
  }

  /** The signed exact value of a token. */
  function SignedMagnitude(s: string): real
    requires IsLooseDecimal(s)
  {
    if IsNegative(s) then -Magnitude(Unsigned(s)) else Magnitude(Unsigned(s))
  }

  /** `float(s.replace(",", "."))` on a token of one of the decimal grammars: the
      token converts exactly when it holds a digit, to its signed exact value. */
  function ParseFloat(s: string): (r: Option<real>)
    requires IsLooseDecimal(s)
    ensures r.Some? <==> |Unsigned(s)| > 1
    ensures r.Some? ==> r.value == SignedMagnitude(s)
  {
    var t := Replace(s, ',', '.');
    assert Unsigned(t) == Replace(Unsigned(s), ',', '.');
    ReplaceKeepsShape(Unsigned(s));
    DottedFloat(t)
  }

  /** Replacing `,` by `.` keeps the digits on both sides of the separator. */
  lemma ReplaceKeepsShape(u: string)
    requires IsLooseUnsigned(u)
    ensures var v := Replace(u, ',', '.');
      SepIndex(v) == SepIndex(u) && v[SepIndex(u)] == '.' && IsLooseUnsigned(v) && Magnitude(v) == Magnitude(u)
  {
    var v := Replace(u, ',', '.');
    var k := SepIndex(u);
    assert forall i :: 0 <= i < k ==> IsDigit(v[i]);
    SpanEndUnique(v, 0, IsDigit, k);
    assert v[..k] == u[..k];
    assert v[k + 1..] == u[k + 1..];
  }

  /** A token of `-?\d+[.,]\d+` always converts. */
  function DecimalValue(s: string): (x: real)
    requires IsSignedDecimal(s)
    ensures ParseFloat(s) == Some(x)
  {
    ParseFloat(s).value
  }

  /** An amount holds only digits and its separator. */
  lemma DecimalCharClass(t: string)
    requires IsDecimal(t)
    ensures forall j :: 0 <= j < |t| ==> IsDigit(t[j]) || IsSep(t[j])
  {
    var k := SepIndex(t);
    assert forall j :: k < j < |t| ==> t[j] == t[k + 1..][j - k - 1];
  }

  /** Where an amount occurs and no digit follows it, the greedy `\d+[.,]\d+`
      takes its integer digits, its separator and its fractional digits. */
  lemma DecimalRuns(text: string, b: nat, t: string)
    requires OccursAt(text, t, b) && IsDecimal(t) && DigitsEndAt(text, b + |t|)
    ensures b + SepIndex(t) + 1 < b + |t| && IsDigit(text[b])
    ensures SpanEnd(text, b, IsDigit) == b + SepIndex(t) && IsSep(text[b + SepIndex(t)])
    ensures SpanEnd(text, b + SepIndex(t) + 1, IsDigit) == b + |t|
  {
    var c := SepIndex(t);
    assert forall k :: 0 <= k < c ==> t[0..c][k] == t[k];
    RunInside(text, b, t, 0, c);
    CharInside(text, b, t, 0);
    CharInside(text, b, t, c);
    RunToEnd(text, b, t, c + 1);
  }

  /** An unsigned amount is also a signed one. */
  lemma DecimalIsSigned(t: string)
    requires IsDecimal(t)
    ensures IsSignedDecimal(t) && !IsNegative(t)
  {
    assert SepIndex(t) > 0 && IsDigit(t[0]);
  }

  /** The unsigned token with its separator replaced by `sep`. */
  function SwapSeparator(u: string, sep: char): (v: string)
    requires IsLooseUnsigned(u) && IsSep(sep)
    ensures |v| == |u|
  {
    u[SepIndex(u) := sep]
  }

  lemma SwapSeparatorShape(u: string, sep: char)
    requires IsLooseUnsigned(u) && IsSep(sep)
    ensures var v := SwapSeparator(u, sep);
      SepIndex(v) == SepIndex(u) && IsLooseUnsigned(v) && (IsDecimal(v) <==> IsDecimal(u))
      && Magnitude(v) == Magnitude(u)
  {
    var v := SwapSeparator(u, sep);
    var k := SepIndex(u);
    assert forall i :: 0 <= i < k ==> IsDigit(v[i]);
    SpanEndUnique(v, 0, IsDigit, k);
    assert v[..k] == u[..k];
    assert v[k + 1..] == u[k + 1..];
  }

  /** The token with its separator replaced by `sep`. */
  function WithSeparator(s: string, sep: char): (t: string)
    requires IsLooseDecimal(s) && IsSep(sep)
    ensures |t| == |s|
  {
    (if IsNegative(s) then "-" else "") + SwapSeparator(Unsigned(s), sep)
  }

  /** Swapping the separator keeps the sign and the unsigned digits. */
  lemma WithSeparatorParts(s: string, sep: char)
    requires IsLooseDecimal(s) && IsSep(sep)
    ensures IsNegative(WithSeparator(s, sep)) == IsNegative(s)
    ensures Unsigned(WithSeparator(s, sep)) == SwapSeparator(Unsigned(s), sep)
  {
    var u := Unsigned(s);
    var v := SwapSeparator(u, sep);
    var t := WithSeparator(s, sep);
    SwapSeparatorShape(u, sep);
    if IsNegative(s) {
      assert t == "-" + v;
    } else {
      assert t == v;
      assert |v| > 0 ==> v[0] != '-';
    }
  }

  /** The text `float()` sees after `,` is replaced by `.` is the same whichever
      separator the token was written with. */
  lemma ReplaceSeparator(s: string, sep: char)
    requires IsLooseDecimal(s) && IsSep(sep)
    ensures Replace(WithSeparator(s, sep), ',', '.') == Replace(s, ',', '.')
  {
    var t := WithSeparator(s, sep);
    var u := Unsigned(s);
    var k := SepIndex(u);
    var off := if IsNegative(s) then 1 else 0;
    assert s == s[..off] + u;
    assert t == s[..off] + u[k := sep];
    forall i | 0 <= i < |s|
      ensures (if t[i] == ',' then '.' else t[i]) == (if s[i] == ',' then '.' else s[i])
    {
      if i != off + k {
        assert t[i] == s[i];
      }
    }
  }

  /** `,` and `.` are interchangeable: both spellings of a token are tokens of the
      same grammar and convert to the same value. */
  lemma SeparatorsInterchangeable(s: string, sep: char)
    requires IsLooseDecimal(s) && IsSep(sep)
    ensures IsLooseDecimal(WithSeparator(s, sep))
    ensures IsSignedDecimal(WithSeparator(s, sep)) <==> IsSignedDecimal(s)
    ensures ParseFloat(WithSeparator(s, sep)) == ParseFloat(s)
  {
    var t := WithSeparator(s, sep);
    SwapSeparatorShape(Unsigned(s), sep);
    WithSeparatorParts(s, sep);
    assert Unsigned(t) == SwapSeparator(Unsigned(s), sep);
    assert IsLooseDecimal(t);
    assert SignedMagnitude(t) == SignedMagnitude(s);
    var a, b := ParseFloat(t), ParseFloat(s);
    assert a.Some? == b.Some?;
  }

  // ----- rounding -----

  /** `10^d` as a real scale factor. */
  function Scale(d: nat): (p: real)
    ensures p >= 1.0
  {
    Pow10(d) as real
  }

  /** The integer nearest to `y`, ties to the even one. */
  function NearestEven(y: real): (n: int)
    ensures -0.5 <= n as real - y <= 0.5
    ensures (n as real - y == 0.5 || y - n as real == 0.5) ==> n % 2 == 0
  {
    var f := y.Floor;
    if y - f as real < 0.5 then f
    else if y - f as real > 0.5 then f + 1
    else if f % 2 == 0 then f
    else f + 1
  }

  /** Only one integer is nearest with ties to even. */
  lemma NearestEvenUnique(y: real, m: int)
    requires -0.5 <= m as real - y <= 0.5
    requires (m as real - y == 0.5 || y - m as real == 0.5) ==> m % 2 == 0
    ensures m == NearestEven(y)
  {
  }

  /** Rounding to the grid of multiples of `1/p`, ties to even. */
  function RoundTo(x: real, p: real): real
    requires p > 0.0
  {
    NearestEven(x * p) as real / p
  }

  lemma MulDivCancel(x: real, p: real)
    requires p > 0.0
    ensures (x * p) / p == x
  {
  }

  lemma DivMulCancel(a: real, p: real)
    requires p > 0.0
    ensures (a / p) * p == a
  {
  }

  /** A rounded value is a whole number of grid steps, the nearest one to `x`. */
  lemma RoundToUnits(x: real, p: real)
    requires p > 0.0
    ensures RoundTo(x, p) * p == NearestEven(x * p) as real
    ensures -0.5 <= RoundTo(x, p) * p - x * p <= 0.5
  {
    DivMulCancel(NearestEven(x * p) as real, p);
  }

  /** A value already on the grid is left unchanged. */
  lemma RoundToExact(x: real, p: real, n: int)
    requires p > 0.0
    requires x * p == n as real
    ensures RoundTo(x, p) == x
  {
    NearestEvenUnique(x * p, n);
    MulDivCancel(x, p);
  }

  /** `round(x, d)` on the exact value `x`: nearest multiple of `10^-d`, ties to even. */
  function Round(x: real, d: nat): real
  {
    RoundTo(x, Scale(d))
  }

  /** The rounding error is at most half a unit of the last kept decimal. */
  lemma RoundError(x: real, d: nat)
    ensures -0.5 <= Round(x, d) * Scale(d) - x * Scale(d) <= 0.5
    ensures Round(x, d) * Scale(d) == NearestEven(x * Scale(d)) as real
  {
    RoundToUnits(x, Scale(d));
  }

  /** A value with at most `d` decimals is left unchanged by `round(x, d)`. */
  lemma RoundExact(x: real, d: nat, n: int)
    requires x * Scale(d) == n as real
    ensures Round(x, d) == x
  {
    RoundToExact(x, Scale(d), n);
  }

  /** Rounding never moves a value across zero. */
  lemma RoundSign(x: real, d: nat)
    ensures x >= 0.0 ==> Round(x, d) >= 0.0
    ensures x <= 0.0 ==> Round(x, d) <= 0.0
  {
    var p := Scale(d);
    RoundToUnits(x, p);
    var n := NearestEven(x * p);
    if x >= 0.0 {
      assert x * p >= 0.0;
      assert n >= 0;
      ProductSign(Round(x, d), p);
    }
    if x <= 0.0 {
      assert x * p <= 0.0;
      assert n <= 0;
      ProductSign(Round(x, d), p);
    }
  }

  lemma ProductSign(a: real, p: real)
    requires p > 0.0
    ensures a * p >= 0.0 ==> a >= 0.0
    ensures a * p <= 0.0 ==> a <= 0.0
  {
  }

  /** The value of a token has the sign its minus sign says. */
  lemma SignedMagnitudeSign(s: string)
    requires IsLooseDecimal(s)
    ensures IsNegative(s) ==> SignedMagnitude(s) <= 0.0
    ensures !IsNegative(s) ==> SignedMagnitude(s) >= 0.0
  {
    var u := Unsigned(s);
    var k := SepIndex(u);
    var frac := u[k + 1..];
    assert Pow10(|frac|) as real > 0.0;
    assert DigitsValue(frac) as real / Pow10(|frac|) as real >= 0.0;
  }

  /** Rounding twice to the same precision is rounding once. */
  lemma RoundIdempotent(x: real, d: nat)
    ensures Round(Round(x, d), d) == Round(x, d)
  {
    RoundError(x, d);
    RoundExact(Round(x, d), d, NearestEven(x * Scale(d)));
  }

  lemma Pow10Add(a: nat, b: nat)
    ensures Pow10(a + b) == Pow10(a) * Pow10(b)
  {
    if a > 0 {
      Pow10Add(a - 1, b);
    }
  }

  lemma FractionScale(f: real, a: real, b: real, p: real)
    requires a > 0.0 && p == a * b
    ensures (f / a) * p == f * b
  {
  }

  lemma SumScale(i: real, g: real, p: real)
    ensures (i + g) * p == i * p + g * p
  {
  }

  lemma CastMul(x: int, y: int)
    ensures (x * y) as real == x as real * y as real
  {
  }

  lemma MulCongruence(x: real, x': real, y: real, y': real)
    requires x == x' && y == y'
    ensures x * y == x' * y'
  {
  }

  /** `(i + f/a) * (a*b) = i*(a*b) + f*b`, a whole number. */
  lemma GridArith(i: nat, f: nat, a: nat, b: nat, p: nat, m: real, q: real) returns (n: nat)
    requires a > 0 && p == a * b
    requires m == i as real + f as real / a as real && q == p as real
    ensures m * q == n as real
  {
    CastMul(a, b);
    SumScale(i as real, f as real / a as real, p as real);
    FractionScale(f as real, a as real, b as real, p as real);
    CastMul(i, p);
    CastMul(f, b);
    n := i * p + f * b;
  }

  /** `(i + f/10^e) * 10^d` is a whole number when `e <= d`. */
  lemma UnitsArith(i: nat, f: nat, e: nat, d: nat, m: real, q: real) returns (n: nat)
    requires e <= d
    requires m == i as real + f as real / Pow10(e) as real && q == Scale(d)
    ensures m * q == n as real
  {
    Pow10Add(e, d - e);
    n := GridArith(i, f, Pow10(e), Pow10(d - e), Pow10(d), m, q);
  }

  /** The integer part, the fractional digits and their scale of a token. */
  lemma MagnitudeParts(u: string) returns (i: nat, f: nat, e: nat)
    requires IsLooseUnsigned(u)
    ensures e == |u| - SepIndex(u) - 1
    ensures Magnitude(u) == i as real + f as real / Pow10(e) as real
  {
    var k := SepIndex(u);
    i, f, e := DigitsValue(u[..k]), DigitsValue(u[k + 1..]), |u| - k - 1;
  }

  lemma NegUnits(m: real, q: real, n: int)
    requires m * q == n as real
    ensures (-m) * q == (-n) as real
  {
  }

  /** `±(i + f/10^e)` with `e <= d` is a whole number of `10^-d` units. */
  lemma GridUnits(i: nat, f: nat, e: nat, d: nat, negative: bool, x: real) returns (n: int)
    requires e <= d
    requires x == if negative then -(i as real + f as real / Pow10(e) as real)
                  else i as real + f as real / Pow10(e) as real
    ensures x * Scale(d) == n as real
  {
    var m := i as real + f as real / Pow10(e) as real;
    var u := UnitsArith(i, f, e, d, m, Scale(d));
    if negative {
      NegUnits(m, Scale(d), u as int);
      n := -(u as int);
    } else {
      n := u;
    }
  }

  /** So rounding such a value to `d` decimals leaves it unchanged. */
  lemma RoundGrid(i: nat, f: nat, e: nat, d: nat, negative: bool, x: real)
    requires e <= d
    requires x == if negative then -(i as real + f as real / Pow10(e) as real)
                  else i as real + f as real / Pow10(e) as real
    ensures Round(x, d) == x
  {
    var n := GridUnits(i, f, e, d, negative, x);
    RoundExact(x, d, n);
  }

  /** A price or quantity token with at most `d` decimals rounds to its own value:
      for a two-decimal price, `round(float(p), 2)` is the printed amount. */
  lemma RoundToken(s: string, d: nat)
    requires IsSignedDecimal(s)
    requires |Unsigned(s)| - SepIndex(Unsigned(s)) - 1 <= d
    ensures Round(DecimalValue(s), d) == DecimalValue(s)
  {
    var i, f, e := MagnitudeParts(Unsigned(s));
    RoundGrid(i, f, e, d, IsNegative(s), DecimalValue(s));
  }

  /** `round(a / b if b != 0 else 0, 2)`: the zero-divisor guard of the source
      leaves a zero price, otherwise the quotient to within half a cent. */
  function UnitPrice(total: real, quantity: real): (r: real)
    ensures quantity == 0.0 ==> r == 0.0
    ensures quantity != 0.0 ==> -0.005 <= r - total / quantity <= 0.005
  {
    var q := if quantity != 0.0 then total / quantity else 0.0;
    RoundError(q, 2);
    assert Scale(2) == 100.0;
    if quantity == 0.0 then RoundExact(0.0, 2, 0); Round(q, 2) else Round(q, 2)
  }
}
