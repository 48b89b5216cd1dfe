// What the numbers of a text denote.
module JsonNumber {
  import opened JsonText
  import opened JsonParser
  import opened Powers

  // ------------------------------------------------------------------- numbers

  predicate AllDigits(ds: string) { forall i :: 0 <= i < |ds| ==> IsDigit(ds[i]) }

  // n with k zeros behind it.
  function Tens(n: int, k: nat): int
    decreases k
  {
    if k == 0 then n else Tens(n * 10, k - 1)
  }

  lemma {:induction false} TensSum(a: int, b: int, k: nat)
    ensures Tens(a + b, k) == Tens(a, k) + Tens(b, k)
    decreases k
  {
    if k > 0 { TensSum(a * 10, b * 10, k - 1); }
  }

  // Each digit has as many zeros behind it as there are digits.
  function Value(ds: string): int
    requires AllDigits(ds)
  {
    if ds == [] then 0 else Tens(ds[0] as int - '0' as int, |ds| - 1) + Value(ds[1..])
  }

  lemma Front(d: char, ds: string, r: string)
    ensures ([d] + ds + r)[0] == d && ([d] + ds + r)[1..] == ds + r
  {
  }

  lemma {:induction false} ReadDigitsValue(n: int, ds: string, r: string)
    requires AllDigits(ds) && !IsDigit(C(r))
    ensures ReadDigits(n, ds + r) == (Tens(n, |ds|) + Value(ds), r)
    decreases |ds|
  {
    if ds == [] {
      assert ds + r == r;
    } else {
      var d := ds[0] as int - '0' as int;
      assert ds == [ds[0]] + ds[1..];
      Front(ds[0], ds[1..], r);
      ReadDigitsValue(n * 10 + d, ds[1..], r);
      TensSum(n * 10, d, |ds| - 1);
    }
  }

  lemma {:induction false} NoTens(k: nat)
    ensures Tens(0, k) == 0
  {
    if k > 0 { NoTens(k - 1); }
  }

  // The parts of a number (section 6 of RFC 8259): no zero leads another digit.
  predicate IsInteger(ds: string) { ds != [] && AllDigits(ds) && (ds[0] == '0' ==> |ds| == 1) }

  lemma ParseIntegerOf(ds: string, r: string)
    requires IsInteger(ds) && !IsDigit(C(r))
    ensures ParseInteger(ds + r) == (Value(ds), r)
  {
    if ds[0] == '0' {
      assert (ds + r)[1..] == r;
      assert Value(ds[1..]) == 0;
    } else {
      ReadDigitsValue(0, ds, r);
      NoTens(|ds|);
    }
  }

  function FractionText(fs: string): string { if fs == [] then "" else "." + fs }

  lemma ParseFractionOf(n: int, fs: string, r: string)
    requires AllDigits(fs) && !IsDigit(C(r)) && C(r) != '.'
    ensures ParseFraction(n, FractionText(fs) + r) == (Tens(n, |fs|) + Value(fs), 0 - |fs|, r)
  {
    var t := FractionText(fs) + r;
    if fs == [] {
      assert t == r;
    } else {
      assert t[1..] == fs + r;
      ReadDigitsValue(n, fs, r);
    }
  }

  function ExponentText(es: string, e: char, sign: string): string { if es == [] then "" else [e] + sign + es }

  lemma ParseExponentOf(es: string, sign: string, r: string)
    requires es != [] && AllDigits(es) && sign in {"", "+", "-"} && !IsDigit(C(r))
    ensures ParseExponent(sign + es + r) == (ToInt(if sign == "-" then -Value(es) else Value(es)), r)
  {
    ReadDigitsValue(0, es, r);
    NoTens(|es|);
    if sign == "" {
      assert sign + es + r == es + r;
    } else {
      assert sign == [sign[0]];
      Front(sign[0], es, r);
    }
  }

  datatype Decimal = Decimal(minus: bool, ds: string, fs: string, e: char, sign: string, es: string)

  predicate DecimalOk(d: Decimal) {
    IsInteger(d.ds) && AllDigits(d.fs) && AllDigits(d.es) && d.e in {'e', 'E'} && d.sign in {"", "+", "-"}
  }

  function Behind(d: Decimal, r: string): string { FractionText(d.fs) + (ExponentText(d.es, d.e, d.sign) + r) }
  function Unsigned(d: Decimal, r: string): string { d.ds + Behind(d, r) }
  function DecimalText(d: Decimal, r: string): string { if d.minus then "-" + Unsigned(d, r) else Unsigned(d, r) }

  function Exponent(d: Decimal): int
    requires DecimalOk(d)
  {
    if d.es == [] then 0 else if d.sign == "-" then -Value(d.es) else Value(d.es)
  }

  // The digits without the point, shifted by the exponent, and back by one for each
  // digit behind the point.
  function Shifted(d: Decimal, e: int): Json
    requires DecimalOk(d)
  {
    var m := Tens(Value(d.ds), |d.fs|) + Value(d.fs);
    Number(if d.minus then -m else m, e - |d.fs|)
  }

  lemma BehindStarts(d: Decimal, r: string)
    requires DecimalOk(d) && !IsDigit(C(r)) && C(r) !in {'.', 'e', 'E'}
    ensures var t := ExponentText(d.es, d.e, d.sign) + r;
            && !IsDigit(C(t)) && C(t) != '.' && (C(t) in {'e', 'E'} <==> d.es != []) && !IsDigit(C(Behind(d, r)))
            && if d.es == [] then t == r else t[1..] == d.sign + d.es + r
  {
    var t := ExponentText(d.es, d.e, d.sign) + r;
    if d.es == [] { assert t == r; } else { assert t == [d.e] + (d.sign + d.es + r); }
    if d.fs == [] { assert Behind(d, r) == t; }
  }

  // Behind the digits before the point.
  lemma ParseBehind(d: Decimal, r: string)
    requires DecimalOk(d) && !IsDigit(C(r)) && C(r) !in {'.', 'e', 'E'}
    ensures var f := ParseFraction(Value(d.ds), Behind(d, r));
            && f.0 == Tens(Value(d.ds), |d.fs|) + Value(d.fs) && f.1 == 0 - |d.fs|
            && (if C(f.2) == 'e' || C(f.2) == 'E' then ParseExponent(f.2[1..]) else (0, f.2))
               == (ToInt(Exponent(d)), r)
  {
    BehindStarts(d, r);
    ParseFractionOf(Value(d.ds), d.fs, ExponentText(d.es, d.e, d.sign) + r);
    if d.es != [] {
      ParseExponentOf(d.es, d.sign, r);
    }
  }

  // Any decimal number is parsed to what it denotes, but for an exponent that wraps.
  lemma ParseDecimal(d: Decimal, r: string)
    requires DecimalOk(d) && !IsDigit(C(r)) && C(r) !in {'.', 'e', 'E'}
    ensures var t := DecimalText(d, r);
            (C(t) == '-' || IsDigit(C(t))) && ParseNumber(t) == Good(Shifted(d, ToInt(Exponent(d))), r)
  {
    var t := DecimalText(d, r);
    var t1 := Unsigned(d, r);
    assert t1[0] == d.ds[0];
    assert d.minus ==> t[0] == '-' && t[1..] == t1;
    BehindStarts(d, r);
    ParseIntegerOf(d.ds, Behind(d, r));
    ParseBehind(d, r);
  }

  // So it is parsed to what it denotes just when the exponent fits an int.
  lemma ParseDecimalExactly(d: Decimal, r: string)
    requires DecimalOk(d) && !IsDigit(C(r)) && C(r) !in {'.', 'e', 'E'}
    ensures var t := DecimalText(d, r);
            && (C(t) == '-' || IsDigit(C(t)))
            && (ParseNumber(t) == Good(Shifted(d, Exponent(d)), r) <==> -0x8000_0000 <= Exponent(d) < 0x8000_0000)
  {
    ParseDecimal(d, r);
  }
}
