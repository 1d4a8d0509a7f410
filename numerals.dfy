/**
 * Decimal numerals as the pipelines read and write them: Python's `int(text)`
 * (used on World Bank `date` strings), the numeric reading that
 * `pd.to_numeric(..., errors="coerce")` gives a text cell, the truncation that
 * `.astype(int)` applies to a fractional number, and `str(n)` as an f-string
 * renders an integer.
 */
module Numerals {
  import opened Wrappers

  predicate IsDigit(c: char) {
    '0' <= c <= '9'
  }

  predicate AllDigits(s: string) {
    forall i :: 0 <= i < |s| ==> IsDigit(s[i])
  }

  function DigitValue(c: char): (d: nat)
    requires IsDigit(c)
    ensures d < 10
  {
    (c as int) - ('0' as int)
  }

  function DigitChar(d: nat): (c: char)
    requires d < 10
    ensures IsDigit(c) && DigitValue(c) == d
  {
    ('0' as int + d) as char
  }

  /** The value of a string of decimal digits, most significant digit first. */
  function DigitsValue(s: string): nat
    requires AllDigits(s)
  {
    if s == [] then 0 else DigitsValue(s[..|s| - 1]) * 10 + DigitValue(s[|s| - 1])
  }

  function Pow10(k: nat): (p: nat)
    ensures p >= 1
  {
    if k == 0 then 1 else 10 * Pow10(k - 1)
  }

  /**
   * Python's `int(s)` on ASCII text: an optional sign followed by at least one digit.
   * `None` stands for the `ValueError` that any other text raises.
   */
  function ParseInt(s: string): (r: Option<int>)
    ensures r.Some? <==>
      (|s| > 0 && AllDigits(s)) || (|s| > 1 && (s[0] == '-' || s[0] == '+') && AllDigits(s[1..]))
    ensures r.Some? && s[0] == '-' ==> r.value <= 0
    ensures r.Some? && s[0] != '-' ==> r.value >= 0
  {
    if |s| > 1 && (s[0] == '-' || s[0] == '+') && AllDigits(s[1..]) then
      Some(if s[0] == '-' then -(DigitsValue(s[1..]) as int) else DigitsValue(s[1..]))
    else if |s| > 0 && AllDigits(s) then
      Some(DigitsValue(s))
    else
      None
  }

  /** `str(n)` for a natural number: its shortest decimal numeral. */
  function NatToString(n: nat): (s: string)
    ensures |s| > 0 && AllDigits(s)
    ensures DigitsValue(s) == n
    ensures s[0] == '0' ==> s == "0"
    decreases n
  {
    if n < 10 then [DigitChar(n)]
    else
      var prefix := NatToString(n / 10);
      var s := prefix + [DigitChar(n % 10)];
      assert s[..|s| - 1] == prefix;
      s
  }

  /** `str(i)` for any integer: a minus sign in front of the numeral of `-i` when `i` is negative. */
  function IntToString(i: int): string {
    if i < 0 then "-" + NatToString(-i) else NatToString(i)
  }

  /** `int(str(i)) == i`: the year numerals written into file names read back as the same years. */
  lemma ParseIntToString(i: int)
    ensures ParseInt(IntToString(i)) == Some(i)
    ensures '_' !in IntToString(i) && '.' !in IntToString(i)
  {
    var s := IntToString(i);
    if i < 0 {
      assert s[1..] == NatToString(-i);
    }
  }

  /** A number written in decimal: `mantissa / 10^scale`. */
  datatype Decimal = Decimal(mantissa: int, scale: nat)

  /** The text after an optional leading `-` or `+`. */
  function Unsigned(s: string): string {
    if |s| > 0 && (s[0] == '-' || s[0] == '+') then s[1..] else s
  }

  /** Decimal syntax: only digits and points, at most one point, and at least one digit. */
  predicate DecimalSyntax(b: string) {
    && (exists i :: 0 <= i < |b| && IsDigit(b[i]))
    && (forall i :: 0 <= i < |b| ==> IsDigit(b[i]) || b[i] == '.')
    && (forall i, j :: 0 <= i < j < |b| ==> !(b[i] == '.' && b[j] == '.'))
  }

  /** `mantissa` with the sign that `sign` (`""`, `"+"` or `"-"`) gives it. */
  function Signed(sign: string, mantissa: nat): int {
    if sign == "-" then -(mantissa as int) else mantissa
  }

  /**
   * The numeric reading of a text cell: an optional sign, digits, and optionally a
   * point followed by more digits, with at least one digit in all. `None` is the
   * text that `errors="coerce"` turns into NaN. `ParseDecimalValue` gives the value.
   */
  function ParseDecimal(s: string): (r: Option<Decimal>)
    ensures r.Some? <==> DecimalSyntax(Unsigned(s))
    ensures ParseInt(s).Some? ==> r == Some(Decimal(ParseInt(s).value, 0))
  {
    var body := Unsigned(s);
    var point := PointIndex(body);
    var whole := body[..point];
    var fraction := if point < |body| then body[point + 1..] else [];
    DecimalSyntaxParts(body);
    assert point == |body| ==> whole + fraction == body;
    DecimalOf(|s| > 0 && s[0] == '-', whole, fraction)
  }

  /** The number with digits `whole` before the point and `fraction` after it, if both are digits. */
  function DecimalOf(negative: bool, whole: string, fraction: string): Option<Decimal> {
    if |whole| + |fraction| > 0 && AllDigits(whole) && AllDigits(fraction) then
      AllDigitsAppend(whole, fraction);
      var m := DigitsValue(whole + fraction);
      Some(Decimal(if negative then -(m as int) else m, |fraction|))
    else
      None
  }

  /** The syntax holds exactly when the text around the first point is digits, with some digit. */
  lemma {:induction false} DecimalSyntaxParts(b: string)
    ensures var point := PointIndex(b);
      var whole := b[..point];
      var fraction := if point < |b| then b[point + 1..] else [];
      DecimalSyntax(b) <==> |whole| + |fraction| > 0 && AllDigits(whole) && AllDigits(fraction)
  {
    var point := PointIndex(b);
    var whole := b[..point];
    var fraction := if point < |b| then b[point + 1..] else [];
    if |whole| + |fraction| > 0 && AllDigits(whole) && AllDigits(fraction) {
      SyntaxFromParts(b, point, whole, fraction);
    }
    if DecimalSyntax(b) {
      PartsFromSyntax(b, point, whole, fraction);
    }
  }

  lemma {:induction false} SyntaxFromParts(b: string, point: nat, whole: string, fraction: string)
    requires point == PointIndex(b) && whole == b[..point]
    requires fraction == if point < |b| then b[point + 1..] else []
    requires |whole| + |fraction| > 0 && AllDigits(whole) && AllDigits(fraction)
    ensures DecimalSyntax(b)
  {
    forall i | 0 <= i < |b| ensures IsDigit(b[i]) || b[i] == '.' {
      if i < point {
        assert b[i] == whole[i];
      } else if i > point {
        assert b[i] == fraction[i - point - 1];
      }
    }
    forall i, j | 0 <= i < j < |b| ensures !(b[i] == '.' && b[j] == '.') {
      if j < point {
        assert b[j] == whole[j];
      } else if j > point {
        assert b[j] == fraction[j - point - 1];
      } else {
        assert b[i] == whole[i];
      }
    }
    if |whole| > 0 {
      assert IsDigit(b[0]) by { assert b[0] == whole[0]; }
    } else {
      assert IsDigit(b[point + 1]) by { assert b[point + 1] == fraction[0]; }
    }
  }

  lemma {:induction false} PartsFromSyntax(b: string, point: nat, whole: string, fraction: string)
    requires point == PointIndex(b) && whole == b[..point]
    requires fraction == if point < |b| then b[point + 1..] else []
    requires DecimalSyntax(b)
    ensures |whole| + |fraction| > 0 && AllDigits(whole) && AllDigits(fraction)
  {
    var k :| 0 <= k < |b| && IsDigit(b[k]);
    assert k != point;
    assert k < point ==> |whole| > 0;
    assert k > point ==> |fraction| > 0;
    forall i | 0 <= i < |whole| ensures IsDigit(whole[i]) {
      assert whole[i] == b[i];
    }
    forall i | 0 <= i < |fraction| ensures IsDigit(fraction[i]) {
      assert fraction[i] == b[point + 1 + i];
    }
  }

  /**
   * The value of every numeral with a point that the syntax admits: `sign w.f` reads as
   * the digits of `w` and `f` together, scaled down by the number of digits after the point.
   */
  lemma {:induction false} ParseDecimalValue(sign: string, w: string, f: string)
    requires sign == "" || sign == "-" || sign == "+"
    requires AllDigits(w) && AllDigits(f) && |w| + |f| > 0
    ensures AllDigits(w + f)
    ensures ParseDecimal(sign + (w + "." + f)) == Some(Decimal(Signed(sign, DigitsValue(w + f)), |f|))
  {
    var b := w + "." + f;
    var t := sign + b;
    AllDigitsAppend(w, f);
    assert |w| > 0 ==> b[0] == w[0];
    UnsignedAfterSign(sign, b);
    PointIndexAfterDigits(w, "." + f);
    assert PointIndex("." + f) == 0;
    assert b == w + ("." + f);
    assert b[..|w|] == w && b[|w| + 1..] == f;
    ParseDecimalAt(t, w, f);
  }

  /** `ParseDecimal` on text whose unsigned part is `w`, a point, and `f`. */
  lemma {:induction false} ParseDecimalAt(s: string, w: string, f: string)
    requires AllDigits(w) && AllDigits(f) && |w| + |f| > 0
    requires |Unsigned(s)| > |w| && PointIndex(Unsigned(s)) == |w|
    requires Unsigned(s)[..|w|] == w && Unsigned(s)[|w| + 1..] == f
    ensures AllDigits(w + f)
    ensures ParseDecimal(s) ==
      Some(Decimal(if |s| > 0 && s[0] == '-' then -(DigitsValue(w + f) as int) else DigitsValue(w + f), |f|))
  {
    AllDigitsAppend(w, f);
    var body := Unsigned(s);
    assert body[..PointIndex(body)] == w;
    assert ParseDecimal(s) == DecimalOf(|s| > 0 && s[0] == '-', w, f);
  }

  /** Without a point, `sign w` reads as the digits of `w`. */
  lemma {:induction false} ParseDecimalWholeValue(sign: string, w: string)
    requires sign == "" || sign == "-" || sign == "+"
    requires AllDigits(w) && |w| > 0
    ensures ParseDecimal(sign + w) == Some(Decimal(Signed(sign, DigitsValue(w)), 0))
  {
    UnsignedAfterSign(sign, w);
    PointIndexAfterDigits(w, "");
    assert w + "" == w;
    assert w[..|w|] == w;
  }

  lemma AllDigitsAppend(w: string, f: string)
    requires AllDigits(w) && AllDigits(f)
    ensures AllDigits(w + f)
  {
    forall i | 0 <= i < |w + f| ensures IsDigit((w + f)[i]) {
      if i >= |w| {
        assert (w + f)[i] == f[i - |w|];
      }
    }
  }

  /** A sign in front of text that starts with a digit or a point is the numeral's sign. */
  lemma UnsignedAfterSign(sign: string, b: string)
    requires sign == "" || sign == "-" || sign == "+"
    requires |b| > 0 && (IsDigit(b[0]) || b[0] == '.')
    ensures Unsigned(sign + b) == b
    ensures (|sign + b| > 0 && (sign + b)[0] == '-') <==> sign == "-"
  {
    if sign != "" {
      assert (sign + b)[1..] == b;
    }
  }

  /** The first point of `w + rest` lies in `rest` when `w` is all digits. */
  lemma {:induction false} PointIndexAfterDigits(w: string, rest: string)
    requires AllDigits(w)
    ensures PointIndex(w + rest) == |w| + PointIndex(rest)
  {
    if w != [] {
      assert (w + rest)[0] == w[0] && IsDigit(w[0]);
      assert (w + rest)[1..] == w[1..] + rest;
      assert PointIndex(w + rest) == 1 + PointIndex((w + rest)[1..]);
      assert AllDigits(w[1..]) by {
        forall i | 0 <= i < |w| - 1 ensures IsDigit(w[1..][i]) {
          assert w[1..][i] == w[i + 1];
        }
      }
      PointIndexAfterDigits(w[1..], rest);
    } else {
      assert w + rest == rest;
    }
  }

  /** The index of the first `.` in `s`, or `|s|` when there is none. */
  function PointIndex(s: string): (i: nat)
    ensures i <= |s|
    ensures i < |s| ==> s[i] == '.'
    ensures forall j :: 0 <= j < i ==> s[j] != '.'
  {
    if s == [] then 0
    else if s[0] == '.' then 0
    else 1 + PointIndex(s[1..])
  }

  /** Digits written after `w` shift its value left by their count. */
  lemma {:induction false} DigitsValueAppend(w: string, f: string)
    requires AllDigits(w) && AllDigits(f)
    ensures AllDigits(w + f)
    ensures DigitsValue(w + f) == DigitsValue(w) * Pow10(|f|) + DigitsValue(f)
  {
    AllDigitsAppend(w, f);
    if f == [] {
      assert w + f == w;
    } else {
      var g := f[..|f| - 1];
      assert AllDigits(g) by {
        forall i | 0 <= i < |g| ensures IsDigit(g[i]) {
          assert g[i] == f[i];
        }
      }
      DigitsValueAppend(w, g);
      assert (w + f)[..|w + f| - 1] == w + g;
      assert (w + f)[|w + f| - 1] == f[|f| - 1];
      var d := DigitValue(f[|f| - 1]);
      assert DigitsValue(w + f) == DigitsValue(w + g) * 10 + d;
      assert DigitsValue(f) == DigitsValue(g) * 10 + d;
      assert Pow10(|f|) == 10 * Pow10(|g|);
      ShiftStep(DigitsValue(w), Pow10(|g|), DigitsValue(g), d);
    }
  }

  lemma ShiftStep(a: int, p: int, g: int, d: int)
    ensures (a * p + g) * 10 + d == a * (10 * p) + (g * 10 + d)
  {
  }

  /** `k` digits are worth less than `10^k`. */
  lemma {:induction false} DigitsValueBound(f: string)
    requires AllDigits(f)
    ensures DigitsValue(f) < Pow10(|f|)
  {
    if f != [] {
      var g := f[..|f| - 1];
      assert AllDigits(g) by {
        forall i | 0 <= i < |g| ensures IsDigit(g[i]) {
          assert g[i] == f[i];
        }
      }
      DigitsValueBound(g);
      assert DigitsValue(f) == DigitsValue(g) * 10 + DigitValue(f[|f| - 1]);
    }
  }

  /**
   * `.astype(int)` on the numeral `sign w.f` keeps `sign w`: the digits after the point
   * are dropped whatever the sign.
   */
  lemma {:induction false} TruncateDropsFraction(sign: string, w: string, f: string)
    requires AllDigits(w) && AllDigits(f)
    ensures AllDigits(w + f)
    ensures TruncateTowardZero(Decimal(Signed(sign, DigitsValue(w + f)), |f|)) == Signed(sign, DigitsValue(w))
  {
    DigitsValueAppend(w, f);
    DigitsValueBound(f);
    var p := Pow10(|f|);
    var q := DigitsValue(w);
    var m := DigitsValue(w + f);
    var d := Decimal(Signed(sign, m), |f|);
    var t := TruncateTowardZero(d);
    QuotientOfShift(q, p, DigitsValue(f));
    if d.mantissa >= 0 {
      assert t * p <= d.mantissa < (t + 1) * p;
      if sign == "-" {
        assert m == 0;
        ProductsOrder(q, 0, p, 0);
        ProductsOrder(t, 0, p, 0);
      } else {
        ProductsOrder(t, q, p, m);
      }
    } else {
      assert (t - 1) * p < -m <= t * p;
      NegatedBounds(t, p, m);
      ProductsOrder(-t, q, p, m);
    }
  }

  /** `q` followed by digits worth `r < p` lies between `q * p` and `(q + 1) * p`. */
  lemma QuotientOfShift(q: int, p: int, r: int)
    requires 0 <= r < p
    ensures q * p <= q * p + r < (q + 1) * p
  {
    Distribute(q, p);
  }

  lemma NegatedBounds(t: int, p: int, m: int)
    requires (t - 1) * p < -m <= t * p
    ensures (-t) * p <= m < (-t + 1) * p
  {
    NegatedProducts(t - 1, p);
  }

  /** The quotient by `p` is unique: two multiples bracketing the same `m` are equal. */
  lemma ProductsOrder(t: int, q: int, p: int, m: int)
    requires p >= 1
    requires q * p <= m < (q + 1) * p && t * p <= m < (t + 1) * p
    ensures t == q
  {
    if t < q {
      MultiplyMonotone(t + 1, q, p);
    } else if t > q {
      MultiplyMonotone(q + 1, t, p);
    }
  }

  lemma MultiplyMonotone(a: int, b: int, p: int)
    requires a <= b && p >= 0
    ensures a * p <= b * p
  {
  }

  /** `.astype(int)` on a decimal number: the integer part, rounding toward zero. */
  function TruncateTowardZero(d: Decimal): (t: int)
    ensures d.mantissa >= 0 ==> t >= 0 && t * Pow10(d.scale) <= d.mantissa < (t + 1) * Pow10(d.scale)
    ensures d.mantissa < 0 ==> t <= 0 && (t - 1) * Pow10(d.scale) < d.mantissa <= t * Pow10(d.scale)
    ensures d.scale == 0 ==> t == d.mantissa
  {
    TruncationBounds(d.mantissa, Pow10(d.scale));
    Truncate(d.mantissa, Pow10(d.scale))
  }

  function Truncate(m: int, p: nat): int
    requires p >= 1
  {
    if m >= 0 then m / p else -((-m) / p)
  }

  lemma TruncationBounds(m: int, p: nat)
    requires p >= 1
    ensures m >= 0 ==> Truncate(m, p) >= 0 && Truncate(m, p) * p <= m < (Truncate(m, p) + 1) * p
    ensures m < 0 ==> Truncate(m, p) <= 0 && (Truncate(m, p) - 1) * p < m <= Truncate(m, p) * p
    ensures p == 1 ==> Truncate(m, p) == m
  {
    if m >= 0 {
      QuotientBounds(m, p);
    } else {
      QuotientBounds(-m, p);
      var q := (-m) / p;
      NegatedProducts(q, p);
    }
  }

  lemma QuotientBounds(n: nat, p: nat)
    requires p >= 1
    ensures n / p >= 0
    ensures (n / p) * p <= n < (n / p + 1) * p
    ensures p == 1 ==> n / p == n
  {
    var q, r := n / p, n % p;
    assert n == q * p + r;
    Distribute(q, p);
  }

  lemma Distribute(q: int, p: int)
    ensures (q + 1) * p == q * p + p
  {
  }

  lemma NegatedProducts(q: int, p: int)
    ensures (-q - 1) * p == -((q + 1) * p)
    ensures (-q) * p == -(q * p)
  {
  }
}
