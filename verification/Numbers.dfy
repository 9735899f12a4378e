/** Floating-point numbers by their shortest decimal digits, as Go's %v prints them and as JSON reads
    them. */
module Numbers {
  import opened Wrappers
  import opened Decimal

  /** The number m times ten to the e, negated if `neg`; there is a negative zero. */
  datatype Float = Float(neg: bool, m: nat, e: int)

  /** The digits are shortest: they end in no zero. */
  predicate Shortest(x: Float) {
    if x.m == 0 then x.e == 0 else x.m % 10 != 0
  }

  type Number = x: Float | Shortest(x) witness Float(false, 0, 0)

  function Normal(neg: bool, m: nat, e: int): Number {
    if m == 0 then Float(neg, 0, 0) else if m % 10 == 0 then Normal(neg, m / 10, e + 1) else Float(neg, m, e)
  }

  function PowerOfTen(e: int): real
    decreases if e < 0 then -e else e
  {
    if e == 0 then 1.0 else if e > 0 then 10.0 * PowerOfTen(e - 1) else PowerOfTen(e + 1) / 10.0
  }

  function Value(x: Number): real {
    (if x.neg then -1.0 else 1.0) * x.m as real * PowerOfTen(x.e)
  }

  // ---------------------------------------------------------------- printing

  function Zeros(n: nat): (s: string)
    ensures |s| == n
  {
    if n == 0 then "" else Zeros(n - 1) + "0"
  }

  /** The digits before the point, those after it, and the exponent if one is written. */
  datatype Pieces = Pieces(whole: string, fraction: string, exponent: Option<int>)

  function PiecesOf(x: Number): Pieces {
    if x.m == 0 then Pieces("0", "", None) else PiecesFrom(PrintNat(x.m), x.e)
  }

  /** %v writes an exponent when the first digit stands more than four places behind the point or
      more than six before it. */
  function PiecesFrom(d: string, e: int): Pieces
    requires d != ""
  {
    var point := |d| + e;
    if point - 1 < -4 || point - 1 >= 6 then Pieces(d[..1], d[1..], Some(point - 1))
    else if point <= 0 then Pieces("0", Zeros(-point) + d, None)
    else if point < |d| then Pieces(d[..point], d[point..], None)
    else Pieces(d + Zeros(e), "", None)
  }

  function FractionText(fraction: string): string {
    if fraction == "" then "" else "." + fraction
  }

  /** At least two digits. */
  function ExponentText(exponent: Option<int>): string {
    if exponent.None? then ""
    else
      var n := if exponent.value < 0 then -exponent.value else exponent.value;
      "e" + (if exponent.value < 0 then "-" else "+") + ((if n < 10 then "0" else "") + PrintNat(n))
  }

  function PrintNumber(x: Number): string {
    var p := PiecesOf(x);
    (if x.neg then "-" else "") + p.whole + FractionText(p.fraction) + ExponentText(p.exponent)
  }

  // ---------------------------------------------------------------- reading

  datatype Parsed<+T> = Ok(value: T, rest: string) | Fail

  function DigitCount(t: string): (n: nat)
    ensures n <= |t| && AllDigits(t[..n])
  {
    if t != "" && IsDigit(t[0]) then
      assert t[..1 + DigitCount(t[1..])] == [t[0]] + t[1..][..DigitCount(t[1..])];
      1 + DigitCount(t[1..])
    else 0
  }

  function ParseDigits(t: string): (r: Parsed<string>)
    ensures r.Ok? ==> |r.rest| < |t| && AllDigits(r.value)
  {
    var n := DigitCount(t);
    if n == 0 then Fail else Ok(t[..n], t[n..])
  }

  function ParseFraction(t: string): (r: Parsed<string>)
    ensures r.Ok? ==> |r.rest| <= |t| && AllDigits(r.value)
  {
    if t != "" && t[0] == '.' then ParseDigits(t[1..]) else Ok("", t)
  }

  function ParseExponent(t: string): (r: Parsed<int>)
    ensures r.Ok? ==> |r.rest| <= |t|
  {
    if t == "" || (t[0] != 'e' && t[0] != 'E') then Ok(0, t)
    else
      var signed := |t| > 1 && (t[1] == '-' || t[1] == '+');
      var r := ParseDigits(if signed then t[2..] else t[1..]);
      if r.Fail? then Fail
      else Ok(if signed && t[1] == '-' then -(DigitsValue(r.value) as int) else DigitsValue(r.value), r.rest)
  }

  lemma DigitsConcat(a: string, b: string)
    requires AllDigits(a) && AllDigits(b)
    ensures AllDigits(a + b)
  {
  }

  /** A number of JSON: no sign but a minus, no leading zeros, digits on both sides of a point. */
  function ParseNumber(t: string): (r: Parsed<Number>)
    ensures r.Ok? ==> |r.rest| < |t|
  {
    if t != "" && t[0] == '-' then ParseUnsigned(true, t[1..]) else ParseUnsigned(false, t)
  }

  function ParseUnsigned(neg: bool, t: string): (r: Parsed<Number>)
    ensures r.Ok? ==> |r.rest| < |t|
  {
    var whole := ParseDigits(t);
    if whole.Fail? || (|whole.value| > 1 && whole.value[0] == '0') then Fail
    else
      var fraction := ParseFraction(whole.rest);
      if fraction.Fail? then Fail
      else
        var exponent := ParseExponent(fraction.rest);
        if exponent.Fail? then Fail
        else Ok(Assembled(neg, whole.value, fraction.value, exponent.value), exponent.rest)
  }

  function Assembled(neg: bool, whole: string, fraction: string, exponent: int): Number
    requires AllDigits(whole) && AllDigits(fraction)
  {
    DigitsConcat(whole, fraction);
    Normal(neg, DigitsValue(whole + fraction), exponent - |fraction|)
  }

  // ---------------------------------------------------------------- round trip

  /** What may follow a number. */
  predicate Delimited(t: string) {
    t == "" || !(IsDigit(t[0]) || t[0] == '.' || t[0] == 'e' || t[0] == 'E')
  }

  predicate NoDigit(t: string) { t == "" || !IsDigit(t[0]) }

  lemma {:induction false} DigitCountAll(d: string, t: string)
    requires AllDigits(d) && NoDigit(t)
    ensures DigitCount(d + t) == |d|
  {
    if d == "" {
      assert d + t == t;
    } else {
      assert (d + t)[1..] == d[1..] + t;
      DigitCountAll(d[1..], t);
    }
  }

  lemma DigitsRead(d: string, t: string)
    requires d != "" && AllDigits(d) && NoDigit(t)
    ensures ParseDigits(d + t) == Ok(d, t)
  {
    DigitCountAll(d, t);
    assert (d + t)[..|d|] == d && (d + t)[|d|..] == t;
  }

  lemma FractionReads(d: string, t: string)
    requires AllDigits(d) && NoDigit(t) && (t != "" ==> t[0] != '.')
    ensures ParseFraction(FractionText(d) + t) == Ok(d, t)
    ensures NoDigit(FractionText(d) + t)
  {
    if d == "" {
      assert FractionText(d) + t == t;
    } else {
      DigitsRead(d, t);
      assert (FractionText(d) + t)[1..] == d + t;
    }
  }

  lemma ExponentReads(x: Option<int>, t: string)
    requires Delimited(t)
    ensures ParseExponent(ExponentText(x) + t) == Ok(if x.Some? then x.value else 0, t)
    ensures NoDigit(ExponentText(x) + t) && (ExponentText(x) + t != "" ==> (ExponentText(x) + t)[0] != '.')
  {
    if x.None? {
      assert ExponentText(x) + t == t;
    } else {
      var n: nat := if x.value < 0 then -x.value else x.value;
      var sign := if x.value < 0 then "-" else "+";
      var d := (if n < 10 then "0" else "") + PrintNat(n);
      TwoDigits(n, d);
      DigitsRead(d, t);
      SignedReads(sign, d, n, t);
      hide PrintNat, DigitsValue, ParseDigits, ParseExponent, AllDigits;
      SignedText(sign, d, ExponentText(x), t);
    }
  }

  lemma SignedText(sign: string, d: string, text: string, t: string)
    requires text == "e" + sign + d || text == "e" + (sign + d)
    ensures text + t == "e" + (sign + (d + t)) && (text + t)[0] == 'e'
  {
  }

  lemma TwoDigits(n: nat, d: string)
    requires d == (if n < 10 then "0" else "") + PrintNat(n)
    ensures d != "" && AllDigits(d) && DigitsValue(d) == n
  {
    PrintNatValue(n);
    hide DigitsValue, PrintNat;
    assert Zeros(1) == Zeros(0) + "0" == "0";
    LeadingZeros(if n < 10 then 1 else 0, PrintNat(n));
    assert d == Zeros(if n < 10 then 1 else 0) + PrintNat(n);
  }

  lemma SignedReads(sign: string, d: string, n: nat, t: string)
    requires (sign == "-" || sign == "+") && AllDigits(d) && DigitsValue(d) == n && ParseDigits(d + t) == Ok(d, t)
    ensures ParseExponent("e" + (sign + (d + t))) == Ok(if sign == "-" then -(n as int) else n, t)
  {
    hide ParseDigits, DigitsValue;
    var u := "e" + (sign + (d + t));
    assert u[2..] == d + t && u[1] == sign[0];
  }

  lemma DigitsSnoc(d: string, c: char)
    requires AllDigits(d) && IsDigit(c)
    ensures AllDigits(d + [c]) && DigitsValue(d + [c]) == 10 * DigitsValue(d) + (c as int - '0' as int)
  {
    assert (d + [c])[..|d|] == d;
  }

  lemma {:induction false} ZerosValue(n: nat)
    ensures AllDigits(Zeros(n)) && DigitsValue(Zeros(n)) == 0
  {
    if n > 0 {
      ZerosValue(n - 1);
      DigitsSnoc(Zeros(n - 1), '0');
    }
  }

  lemma {:induction false} LeadingZeros(n: nat, d: string)
    requires AllDigits(d)
    ensures AllDigits(Zeros(n) + d) && DigitsValue(Zeros(n) + d) == DigitsValue(d)
    decreases |d|
  {
    hide DigitsValue, Zeros;
    ZerosValue(n);
    if d == "" {
      assert Zeros(n) + d == Zeros(n);
      ZerosValue(0);
      NoZeros();
    } else {
      var k := |d| - 1;
      LeadingZeros(n, d[..k]);
      DigitsSnoc(Zeros(n) + d[..k], d[k]);
      DigitsSnoc(d[..k], d[k]);
      assert d == d[..k] + [d[k]];
      assert Zeros(n) + d == Zeros(n) + d[..k] + [d[k]];
    }
  }

  lemma NoZeros()
    ensures Zeros(0) == ""
  {
  }

  lemma NormalTen(neg: bool, m: nat, e: int)
    requires m > 0
    ensures Normal(neg, 10 * m, e) == Normal(neg, m, e + 1)
  {
    assert 10 * m / 10 == m;
  }

  lemma {:induction false} TrailingZeros(neg: bool, d: string, n: nat, e: int)
    requires AllDigits(d) && DigitsValue(d) > 0
    ensures AllDigits(d + Zeros(n)) && DigitsValue(d + Zeros(n)) > 0
    ensures Normal(neg, DigitsValue(d + Zeros(n)), e) == Normal(neg, DigitsValue(d), e + n)
    decreases n
  {
    hide DigitsValue, Normal;
    if n == 0 {
      assert d + Zeros(n) == d;
    } else {
      TrailingZeros(neg, d, n - 1, e + 1);
      var s := d + Zeros(n - 1);
      DigitsSnoc(s, '0');
      NormalTen(neg, DigitsValue(s), e);
      assert d + Zeros(n) == s + ['0'];
    }
  }

  lemma {:induction false} NoLeadingZero(n: nat)
    requires n > 0
    ensures PrintNat(n)[0] != '0'
  {
    if n >= 10 {
      NoLeadingZero(n / 10);
    }
  }

  /** What a reader must find in the pieces. */
  ghost predicate Stands(p: Pieces, x: Number) {
    && p.whole != "" && AllDigits(p.whole) && AllDigits(p.fraction)
    && (|p.whole| > 1 ==> p.whole[0] != '0')
    && Assembled(x.neg, p.whole, p.fraction, if p.exponent.Some? then p.exponent.value else 0) == x
  }

  lemma PiecesStand(x: Number)
    ensures Stands(PiecesOf(x), x)
  {
    if x.m == 0 {
      ZeroStands(x);
    } else {
      PrintNatValue(x.m);
      NoLeadingZero(x.m);
      PiecesFromStand(x, PrintNat(x.m));
    }
  }

  lemma PiecesFromStand(x: Number, d: string)
    requires DigitsOf(x, d)
    ensures Stands(PiecesFrom(d, x.e), x)
  {
    hide DigitsValue, AllDigits, Zeros, Normal, Stands;
    var point := |d| + x.e;
    if point - 1 < -4 || point - 1 >= 6 {
      SplitStands(x, d, 1, Some(point - 1));
    } else if point <= 0 {
      SmallStands(x, d, -point);
    } else if point < |d| {
      SplitStands(x, d, point, None);
    } else {
      WholeStands(x, d);
    }
  }

  /** The digits of a number other than zero. */
  predicate DigitsOf(x: Number, d: string) {
    x.m > 0 && d != "" && AllDigits(d) && DigitsValue(d) == x.m && d[0] != '0'
  }

  lemma ZeroStands(x: Number)
    requires x.m == 0
    ensures Stands(Pieces("0", "", None), x)
  {
    assert "0" + "" == "0" && "0"[..0] == "";
  }

  lemma SplitStands(x: Number, d: string, k: nat, exponent: Option<int>)
    requires DigitsOf(x, d) && 0 < k <= |d|
    requires (if exponent.Some? then exponent.value else 0) == x.e + |d| - k
    ensures Stands(Pieces(d[..k], d[k..], exponent), x)
  {
    hide DigitsValue;
    assert d[..k] + d[k..] == d;
  }

  lemma SmallStands(x: Number, d: string, k: nat)
    requires DigitsOf(x, d) && k == -(|d| + x.e)
    ensures Stands(Pieces("0", Zeros(k) + d, None), x)
  {
    hide DigitsValue, Zeros, Normal, AllDigits;
    SmallDigits(k, d);
    FractionStands(x, Zeros(k) + d);
  }

  lemma SmallDigits(k: nat, d: string)
    requires AllDigits(d)
    ensures AllDigits(Zeros(k) + d) && AllDigits("0" + (Zeros(k) + d))
    ensures DigitsValue("0" + (Zeros(k) + d)) == DigitsValue(d)
  {
    hide DigitsValue, AllDigits;
    LeadingZeros(k, d);
    LeadingZeros(k + 1, d);
    ZerosFront(k);
    hide Zeros;
    assert "0" + (Zeros(k) + d) == "0" + Zeros(k) + d;
  }

  lemma FractionStands(x: Number, f: string)
    requires AllDigits(f) && AllDigits("0" + f) && DigitsValue("0" + f) == x.m && |f| == -x.e && x.m > 0
    ensures Stands(Pieces("0", f, None), x)
  {
    hide DigitsValue;
  }

  lemma {:induction false} ZerosFront(n: nat)
    ensures "0" + Zeros(n) == Zeros(n + 1)
  {
    if n > 0 {
      ZerosFront(n - 1);
      assert "0" + Zeros(n) == "0" + Zeros(n - 1) + "0";
    } else {
      assert Zeros(1) == Zeros(0) + "0";
    }
  }

  lemma WholeStands(x: Number, d: string)
    requires DigitsOf(x, d) && x.e >= 0
    ensures Stands(Pieces(d + Zeros(x.e), "", None), x)
  {
    TrailingZeros(x.neg, d, x.e, 0);
    hide DigitsValue;
    assert d + Zeros(x.e) + "" == d + Zeros(x.e);
  }

  /** The text after the sign, piece after piece as a reader meets it. */
  function Unsigned(p: Pieces, t: string): string {
    p.whole + (FractionText(p.fraction) + (ExponentText(p.exponent) + t))
  }

  lemma PiecesRead(p: Pieces, x: Number, t: string)
    requires Stands(p, x) && Delimited(t)
    ensures ParseUnsigned(x.neg, Unsigned(p, t)) == Ok(x, t)
    ensures IsDigit(Unsigned(p, t)[0])
  {
    ExponentReads(p.exponent, t);
    FractionReads(p.fraction, ExponentText(p.exponent) + t);
    DigitsRead(p.whole, FractionText(p.fraction) + (ExponentText(p.exponent) + t));
    ReadInTurn(x.neg, Unsigned(p, t), p.whole, FractionText(p.fraction) + (ExponentText(p.exponent) + t),
               p.fraction, ExponentText(p.exponent) + t, if p.exponent.Some? then p.exponent.value else 0, t);
    hide FractionText, ExponentText;
    assert Unsigned(p, t)[0] == p.whole[0];
  }

  lemma ReadInTurn(neg: bool, t: string, whole: string, t1: string, fraction: string, t2: string, exponent: int,
                   t3: string)
    requires ParseDigits(t) == Ok(whole, t1) && ParseFraction(t1) == Ok(fraction, t2)
             && ParseExponent(t2) == Ok(exponent, t3)
    requires AllDigits(whole) && AllDigits(fraction) && (|whole| > 1 ==> whole[0] != '0')
    ensures ParseUnsigned(neg, t) == Ok(Assembled(neg, whole, fraction, exponent), t3)
  {
    hide ParseFraction, ParseExponent, ParseDigits, Assembled;
  }

  /** Every number is printed in a way that reads back as itself. */
  lemma NumberRoundTrip(x: Number, t: string)
    requires Delimited(t)
    ensures ParseNumber(PrintNumber(x) + t) == Ok(x, t)
    ensures PrintNumber(x) != "" && (PrintNumber(x)[0] == '-' || IsDigit(PrintNumber(x)[0]))
  {
    PiecesStand(x);
    var p := PiecesOf(x);
    PiecesRead(p, x, t);
    assert IsDigit(p.whole[0]);
    SignAndRest(if x.neg then "-" else "", p, t);
    hide PiecesOf, ParseUnsigned, FractionText, ExponentText, Stands, Unsigned, Normal, AllDigits;
    SignReads(x.neg, Unsigned(p, t));
    assert PrintNumber(x)[0] == if x.neg then '-' else p.whole[0];
  }

  lemma SignReads(neg: bool, u: string)
    requires u != "" && u[0] != '-'
    ensures ParseNumber((if neg then "-" else "") + u) == ParseUnsigned(neg, u)
  {
    hide ParseUnsigned;
    if neg {
      assert ("-" + u)[1..] == u;
    } else {
      assert "" + u == u;
    }
  }

  lemma SignAndRest(sign: string, p: Pieces, t: string)
    ensures sign + p.whole + FractionText(p.fraction) + ExponentText(p.exponent) + t == sign + Unsigned(p, t)
  {
    hide FractionText, ExponentText;
  }

  // ---------------------------------------------------------------- the look of a number

  function WholePower(n: nat): nat {
    if n == 0 then 1 else 10 * WholePower(n - 1)
  }

  /** The number is at least ten to the k: m times ten to the e against ten to the k, in whole numbers. */
  predicate AtLeastPower(x: Number, k: int) {
    x.m > 0 && (x.e < k ==> x.m >= WholePower(k - x.e))
  }

  lemma {:induction false} PowersGrow(a: nat, b: nat)
    requires a <= b
    ensures WholePower(a) <= WholePower(b)
    decreases b
  {
    if a < b {
      PowersGrow(a, b - 1);
    }
  }

  lemma {:induction false} DigitsBound(m: nat)
    requires m > 0
    ensures WholePower(|PrintNat(m)| - 1) <= m < WholePower(|PrintNat(m)|)
  {
    if m >= 10 {
      DigitsBound(m / 10);
      assert |PrintNat(m)| == |PrintNat(m / 10)| + 1;
    } else {
      assert WholePower(1) == 10 * WholePower(0) == 10;
    }
  }

  lemma MagnitudeIs(x: Number, k: int)
    requires x.m > 0
    ensures AtLeastPower(x, k) <==> |PrintNat(x.m)| + x.e - 1 >= k
  {
    var d := |PrintNat(x.m)|;
    DigitsBound(x.m);
    if x.e < k {
      if d - 1 >= k - x.e {
        PowersGrow(k - x.e, d - 1);
      } else {
        PowersGrow(d, k - x.e);
      }
    }
  }

  lemma NoLetter(d: string)
    requires AllDigits(d)
    ensures 'e' !in d
  {
  }

  /** Numbers from a ten-thousandth up to a million, and zero, are written without an exponent, all
      others with one. */
  lemma ExponentIff(x: Number)
    ensures 'e' in PrintNumber(x) <==> x.m > 0 && (AtLeastPower(x, 6) || !AtLeastPower(x, -4))
  {
    var p := PiecesOf(x);
    PiecesStand(x);
    if x.m > 0 {
      MagnitudeIs(x, 6);
      MagnitudeIs(x, -4);
    }
    assert p.exponent.Some? <==> x.m > 0 && (AtLeastPower(x, 6) || !AtLeastPower(x, -4));
    hide PiecesOf, AtLeastPower;
    NoLetter(p.whole);
    NoLetter(p.fraction);
    assert 'e' !in FractionText(p.fraction);
    assert p.exponent.Some? ==> ExponentText(p.exponent)[0] == 'e';
  }

  /** Nothing is written that is not needed: no zeros in front, none behind the point at the end, and
      one digit before the point when there is an exponent. */
  lemma NoIdleDigits(x: Number)
    ensures var p := PiecesOf(x);
            && (p.fraction != "" ==> p.fraction[|p.fraction| - 1] != '0')
            && (p.whole != "0" ==> p.whole[0] != '0')
            && (p.exponent.Some? ==> |p.whole| == 1 && p.whole != "0")
  {
    if x.m > 0 {
      NoLeadingZero(x.m);
      PrintNatDigits(x.m);
      assert "0123456789"[x.m % 10] != '0';
    }
  }

  /** Exponents as they are written: a sign, and two digits at least. */
  lemma ExponentTexts(n: nat)
    ensures n < 10 ==> ExponentText(Some(n)) == "e+0" + PrintNat(n)
    ensures n >= 10 ==> ExponentText(Some(n)) == "e+" + PrintNat(n)
    ensures 0 < n < 10 ==> ExponentText(Some(-(n as int))) == "e-0" + PrintNat(n)
    ensures n >= 10 ==> ExponentText(Some(-(n as int))) == "e-" + PrintNat(n)
  {
    hide PrintNat;
    assert "e+" + ("0" + PrintNat(n)) == "e+0" + PrintNat(n) && "e-" + ("0" + PrintNat(n)) == "e-0" + PrintNat(n);
    assert "e+" + ("" + PrintNat(n)) == "e+" + PrintNat(n) && "e-" + ("" + PrintNat(n)) == "e-" + PrintNat(n);
  }

  lemma PowerNext(e: int)
    ensures PowerOfTen(e + 1) == 10.0 * PowerOfTen(e)
  {
  }

  /** The value of a number read from its digits is those digits times the power of ten. */
  lemma {:induction false} NormalValue(neg: bool, m: nat, e: int)
    ensures Value(Normal(neg, m, e)) == (if neg then -1.0 else 1.0) * m as real * PowerOfTen(e)
    decreases m
  {
    hide PowerOfTen;
    if m > 0 && m % 10 == 0 {
      NormalValue(neg, m / 10, e + 1);
      PowerNext(e);
      assert m as real == 10.0 * (m / 10) as real;
      Shifted(if neg then -1.0 else 1.0, (m / 10) as real, PowerOfTen(e));
    }
  }

  lemma Shifted(sign: real, q: real, p: real)
    ensures sign * q * (10.0 * p) == sign * (10.0 * q) * p
  {
  }
}
