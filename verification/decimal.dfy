/** JavaScript `parseFloat` on decimal notation: leading whitespace is skipped,
    then the longest prefix of the form [+-] digits [. digits] [(e|E) [+-] digits]
    is read; anything after it is ignored. Without a digit in the mantissa the
    result is NaN. */
module Decimal {
  import opened Numbers
  import opened Digits
  import opened Text

  predicate IsSign(ch: char) {
    ch == '+' || ch == '-'
  }

  /** t without one leading sign character. */
  function Unsigned(t: string): (u: string)
    ensures |u| <= |t|
  {
    if t != [] && IsSign(t[0]) then t[1..] else t
  }

  /** t, after an optional sign, starts with a digit or with a point and a digit. */
  predicate HasMantissa(t: string) {
    var u := Unsigned(t);
    (u != [] && IsDigit(u[0])) || (|u| >= 2 && u[0] == '.' && IsDigit(u[1]))
  }

  /** The exponent that s starts with, 0 when s does not start with a complete one. */
  function Exponent(s: string): int {
    if s != [] && (s[0] == 'e' || s[0] == 'E') then
      var u := Unsigned(s[1..]);
      var ds := DigitPrefix(u);
      if ds == [] then 0
      else if s[1..] != [] && s[1] == '-' then -(Value(ds) as int)
      else Value(ds)
    else 0
  }

  /** m times 10 to the power e. */
  function Scale(m: real, e: int): real
    decreases if e >= 0 then e else -e
  {
    if e == 0 then m else if e > 0 then Scale(m, e - 1) * 10.0 else Scale(m, e + 1) / 10.0
  }

  /** The digits before and after the decimal point, and what follows them. */
  datatype Mantissa = Mantissa(ip: string, fp: string, rest: string)

  function ReadMantissa(u: string): (m: Mantissa)
    ensures AllDigits(m.ip) && AllDigits(m.fp)
  {
    var ip := DigitPrefix(u);
    var afterInt := u[|ip|..];
    if afterInt != [] && afterInt[0] == '.' then
      var fp := DigitPrefix(afterInt[1..]);
      Mantissa(ip, fp, afterInt[1 + |fp|..])
    else Mantissa(ip, [], afterInt)
  }

  /** The value of the digits after a decimal point: "25" gives 0.25. */
  function FractionValue(fs: string): real
    requires AllDigits(fs)
  {
    if fs == [] then 0.0 else (DigitValue(fs[0]) as real + FractionValue(fs[1..])) / 10.0
  }

  function MantissaValue(m: Mantissa): real
    requires AllDigits(m.ip) && AllDigits(m.fp)
  {
    Value(m.ip) as real + FractionValue(m.fp)
  }

  function ParseFloat(s: string): (r: Num)
    ensures r.Fin? <==> HasMantissa(TrimStart(s))
  {
    var t := TrimStart(s);
    var m := ReadMantissa(Unsigned(t));
    if |m.ip| + |m.fp| == 0 then NaN
    else
      var mag := Scale(MantissaValue(m), Exponent(m.rest));
      Fin(if t != [] && t[0] == '-' then -mag else mag)
  }

  lemma ScaleByNoExponent(x: real)
    ensures Scale(x, 0) == x
  {
  }

  /** Digits followed by a character that cannot continue a number. */
  lemma ReadInteger(ds: string, t: string)
    requires AllDigits(ds)
    requires t == [] || !(IsDigit(t[0]) || t[0] == '.')
    ensures ReadMantissa(ds + t) == Mantissa(ds, [], t)
  {
    DigitPrefixOf(ds, t);
    assert (ds + t)[|ds|..] == t;
  }

  /** Digits, a point and digits. */
  lemma ReadFraction(ds: string, fs: string)
    requires AllDigits(ds) && AllDigits(fs)
    ensures ReadMantissa(ds + "." + fs) == Mantissa(ds, fs, [])
  {
    var u := ds + "." + fs;
    assert u == ds + ("." + fs);
    DigitPrefixOf(ds, "." + fs);
    assert u[|ds|..] == "." + fs;
    assert ("." + fs)[1..] == fs;
    DigitPrefixOf(fs, "");
    assert fs + "" == fs;
  }

  /** ParseFloat on text without leading whitespace or exponent whose mantissa
      is known to have the value x. */
  lemma ParseFloatOf(s: string, m: Mantissa, neg: bool, x: real)
    requires s != [] && TrimStart(s) == s && ReadMantissa(Unsigned(s)) == m
    requires |m.ip| + |m.fp| > 0 && Exponent(m.rest) == 0
    requires MantissaValue(m) == x && (s[0] == '-' <==> neg)
    ensures ParseFloat(s) == Fin(if neg then -x else x)
  {
    ScaleByNoExponent(MantissaValue(m));
  }

  /** A plain integer, optionally negative, followed by text that cannot continue
      a number, parses to that integer ("12abc" gives 12). */
  lemma ParseFloatInteger(neg: bool, n: nat, t: string, s: string)
    requires t == [] || !(IsDigit(t[0]) || t[0] == '.' || t[0] == 'e' || t[0] == 'E')
    requires s == (if neg then "-" else "") + Show(n) + t
    ensures ParseFloat(s) == Fin(if neg then -(n as real) else n as real)
  {
    IntegerText(neg, n, t, s);
    IntegerMantissa(n, t);
  }

  lemma IntegerMantissa(n: nat, t: string)
    ensures MantissaValue(Mantissa(Show(n), [], t)) == n as real
  {
    ValueOfShow(n);
  }

  lemma IntegerText(neg: bool, n: nat, t: string, s: string)
    requires t == [] || !(IsDigit(t[0]) || t[0] == '.' || t[0] == 'e' || t[0] == 'E')
    requires s == (if neg then "-" else "") + Show(n) + t
    ensures var x := MantissaValue(Mantissa(Show(n), [], t));
            ParseFloat(s) == Fin(if neg then -x else x)
  {
    var m := Mantissa(Show(n), [], t);
    SignedText(neg, Show(n) + t, s);
    ReadInteger(Show(n), t);
    NoExponent(t);
    ParseFloatOf(s, m, neg, MantissaValue(m));
  }

  lemma NoExponent(t: string)
    requires t == [] || !(t[0] == 'e' || t[0] == 'E')
    ensures Exponent(t) == 0
  {
  }

  /** An optional minus sign in front of text that starts with a digit. */
  lemma SignedText(neg: bool, w: string, s: string)
    requires w != [] && IsDigit(w[0])
    requires s == (if neg then "-" else "") + w
    ensures s != [] && TrimStart(s) == s && Unsigned(s) == w
    ensures s[0] == '-' <==> neg
  {
    assert s[0] == (if neg then '-' else w[0]);
    TrimStartKeeps(s);
    if neg { assert s[1..] == w; } else { assert s == w; }
  }

  /** A decimal `a.fs` parses to a plus the fraction fs. */
  lemma ParseFloatFraction(a: nat, fs: string, s: string)
    requires AllDigits(fs)
    requires s == Show(a) + "." + fs
    ensures ParseFloat(s) == Fin(a as real + FractionValue(fs))
  {
    FractionText(a, fs, s);
    FractionMantissa(a, fs);
  }

  lemma FractionMantissa(a: nat, fs: string)
    requires AllDigits(fs)
    ensures MantissaValue(Mantissa(Show(a), fs, [])) == a as real + FractionValue(fs)
  {
    ValueOfShow(a);
  }

  lemma FractionText(a: nat, fs: string, s: string)
    requires AllDigits(fs)
    requires s == Show(a) + "." + fs
    ensures ParseFloat(s) == Fin(MantissaValue(Mantissa(Show(a), fs, [])))
  {
    var m := Mantissa(Show(a), fs, []);
    assert s == Show(a) + ("." + fs);
    SignedText(false, Show(a) + ("." + fs), s);
    ReadFraction(Show(a), fs);
    NoExponent([]);
    ParseFloatOf(s, m, false, MantissaValue(m));
  }
}
