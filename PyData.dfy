/** Python values as they occur in paper records and request parameters, the
    exceptions the core can raise, a mutable Python `dict`, and the two built-in
    conversions the core relies on: `str()` of an integer and `float()`. */
module PyData {

  datatype Option<T> = None | Some(value: T)

  /** The exceptions the modelled code can raise. */
  datatype Error = KeyError(key: string) | TypeError | ValueError | AttributeError

  /** A computation that either returns a value or raises. */
  datatype Result<T> = Ok(value: T) | Err(error: Error)

  /** A field value of a paper record. `Num` stands for Python `int` and
      `float` alike; floating-point rounding is not modelled. */
  datatype Value = Null | Bool(b: bool) | Num(r: real) | Str(s: string)

  /** A Python `dict` from field names to values. Several references may
      denote the same dict, and updates through one are seen through all. */
  class Dict {
    var items: map<string, Value>

    constructor (m: map<string, Value>)
      ensures items == m
    {
      items := m;
    }
  }

  // ---------------------------------------------------------------------
  // Decimal digits

  predicate IsDigit(c: char) {
    '0' <= c <= '9'
  }

  predicate AllDigits(s: string) {
    forall i :: 0 <= i < |s| ==> IsDigit(s[i])
  }

  function DigitValue(c: char): (d: nat)
    requires IsDigit(c)
    ensures d < 10
  {
    c as int - '0' as int
  }

  function DigitChar(d: nat): (c: char)
    requires d < 10
    ensures IsDigit(c) && DigitValue(c) == d
  {
    ('0' as int + d) as char
  }

  /** The number a string of decimal digits denotes (most significant first). */
  function DigitsValue(s: string): nat
    requires AllDigits(s)
  {
    if s == [] then 0 else DigitsValue(s[..|s| - 1]) * 10 + DigitValue(s[|s| - 1])
  }

  function Pow10(n: nat): (p: nat)
    ensures p >= 1
  {
    if n == 0 then 1 else 10 * Pow10(n - 1)
  }

  /** Python `str()` of a non-negative integer: its decimal digits. */
  function NatToString(n: nat): (s: string)
    ensures |s| > 0 && AllDigits(s)
    ensures n >= 10 ==> s[0] != '0'
  {
    if n < 10 then [DigitChar(n)] else NatToString(n / 10) + [DigitChar(n % 10)]
  }

  /** Python `str()` of an integer: a minus sign for negatives, then the digits. */
  function IntToString(i: int): (s: string)
    ensures |s| > 0
    ensures i < 0 <==> s[0] == '-'
    ensures IsDigit(s[|s| - 1])
  {
    if i < 0 then "-" + NatToString(-i) else NatToString(i)
  }

  /** Reading back the digits that `str()` wrote gives the original number. */
  lemma {:induction false} DigitsOfNatToString(n: nat)
    ensures DigitsValue(NatToString(n)) == n
  {
    if n >= 10 {
      var s := NatToString(n);
      assert s[..|s| - 1] == NatToString(n / 10);
      DigitsOfNatToString(n / 10);
    }
  }

  /** `str()` never renders two different integers alike. */
  lemma IntToStringInjective(i: int, j: int)
    requires IntToString(i) == IntToString(j)
    ensures i == j
  {
    IntToStringParses(i);
    IntToStringParses(j);
  }

  // ---------------------------------------------------------------------
  // float()

  /** The whitespace `float()` ignores around its argument (ASCII only). */
  predicate IsSpace(c: char) {
    c == ' ' || c == '\t' || c == '\n' || c == '\r' || c == 11 as char || c == 12 as char
  }

  function StripLeft(s: string): (t: string)
    ensures |t| <= |s|
    ensures t == s[|s| - |t|..]
    ensures t != [] ==> !IsSpace(t[0])
  {
    if s != [] && IsSpace(s[0]) then StripLeft(s[1..]) else s
  }

  function StripRight(s: string): (t: string)
    ensures |t| <= |s|
    ensures t == s[..|t|]
    ensures t != [] ==> !IsSpace(t[|t| - 1])
  {
    if s != [] && IsSpace(s[|s| - 1]) then StripRight(s[..|s| - 1]) else s
  }

  function Strip(s: string): string {
    StripRight(StripLeft(s))
  }

  /** The position of the first character of `s` in `cs`, or `|s|` if there is none. */
  function FirstIndex(s: string, cs: set<char>): (k: nat)
    ensures k <= |s|
    ensures forall j :: 0 <= j < k ==> s[j] !in cs
    ensures k < |s| ==> s[k] in cs
  {
    if s == [] || s[0] in cs then 0 else 1 + FirstIndex(s[1..], cs)
  }

  /** `x * 10^e` for an exponent of either sign, one factor of ten at a time. */
  function Scaled(x: real, e: int): real
    decreases if e < 0 then -e else e
  {
    if e == 0 then x
    else if e > 0 then Scaled(x * 10.0, e - 1)
    else Scaled(x / 10.0, e + 1)
  }

  /** A float literal as read: `(-1)^negative * digits * 10^exponent`. */
  datatype Decimal = Decimal(negative: bool, digits: nat, exponent: int) {
    function Value(): real {
      Scaled(if negative then -(digits as real) else digits as real, exponent)
    }
  }

  /** The mantissa of a float literal: `digits`, `digits.`, `digits.digits` or `.digits`;
      the fraction digits become a negative exponent. */
  function ParseMantissa(m: string): Option<Decimal> {
    var k := FirstIndex(m, {'.'});
    var whole, frac := m[..k], if k < |m| then m[k + 1..] else [];
    if AllDigits(whole) && AllDigits(frac) && (|whole| > 0 || |frac| > 0) then
      Some(Decimal(false, DigitsValue(whole + frac), -|frac|))
    else
      None
  }

  /** The exponent of a float literal: an optional sign and at least one digit. */
  function ParseExponent(e: string): Option<int> {
    var neg := |e| > 0 && e[0] == '-';
    var digits := if |e| > 0 && (e[0] == '-' || e[0] == '+') then e[1..] else e;
    if |digits| > 0 && AllDigits(digits) then
      Some(if neg then -(DigitsValue(digits) as int) else DigitsValue(digits))
    else
      None
  }

  /** An unsigned float literal: a mantissa with an optional `e`/`E` exponent. */
  function ParseUnsigned(t: string): Option<Decimal> {
    var k := FirstIndex(t, {'e', 'E'});
    var mantissa := ParseMantissa(t[..k]);
    var exponent := if k < |t| then ParseExponent(t[k + 1..]) else Some(0);
    if mantissa.Some? && exponent.Some? then
      Some(Decimal(false, mantissa.value.digits, mantissa.value.exponent + exponent.value))
    else
      None
  }

  /** A float literal in decimal notation, surrounded by optional whitespace. */
  function ParseLiteral(s: string): Option<Decimal> {
    var t := Strip(s);
    if |t| > 0 && (t[0] == '-' || t[0] == '+') then
      match ParseUnsigned(t[1..])
      case Some(d) => Some(d.(negative := t[0] == '-'))
      case None => None
    else
      ParseUnsigned(t)
  }

  /** Python `float()` of a string, or None where Python raises ValueError. */
  function ParseFloat(s: string): Option<real> {
    match ParseLiteral(s)
    case Some(d) => Some(d.Value())
    case None => None
  }

  /** Python `float(v)`. */
  function Float(v: Value): (r: Result<real>)
    ensures v.Num? ==> r == Ok(v.r)
    ensures v.Str? ==> (r.Ok? <==> ParseFloat(v.s).Some?)
    ensures r.Err? ==> r.error == (if v.Null? then TypeError else ValueError)
  {
    match v
    case Null => Err(TypeError)
    case Bool(b) => Ok(if b then 1.0 else 0.0)
    case Num(x) => Ok(x)
    case Str(s) =>
      match ParseFloat(s)
      case Some(x) => Ok(x)
      case None => Err(ValueError)
  }

  lemma FirstIndexAbsent(s: string, cs: set<char>)
    requires forall i :: 0 <= i < |s| ==> s[i] !in cs
    ensures FirstIndex(s, cs) == |s|
  {
  }

  lemma DigitsMantissa(d: string)
    requires |d| > 0 && AllDigits(d)
    ensures ParseMantissa(d) == Some(Decimal(false, DigitsValue(d), 0))
  {
    assert forall i :: 0 <= i < |d| ==> d[i] !in {'.'} by {
      forall i | 0 <= i < |d|
        ensures d[i] !in {'.'}
      {
        assert IsDigit(d[i]);
      }
    }
    FirstIndexAbsent(d, {'.'});
    var k := FirstIndex(d, {'.'});
    var whole, frac: string := d[..k], [];
    assert k == |d| && whole == d;
    assert whole + frac == d;
    assert AllDigits(frac);
  }

  lemma DigitsParse(d: string)
    requires |d| > 0 && AllDigits(d)
    ensures ParseUnsigned(d) == Some(Decimal(false, DigitsValue(d), 0))
  {
    FirstIndexAbsent(d, {'e', 'E'});
    var k := FirstIndex(d, {'e', 'E'});
    assert d[..k] == d;
    DigitsMantissa(d);
  }

  lemma StripUnspaced(s: string)
    requires |s| > 0 && !IsSpace(s[0]) && !IsSpace(s[|s| - 1])
    ensures Strip(s) == s
  {
  }

  lemma IntToStringLiteral(i: int)
    ensures ParseLiteral(IntToString(i)) == Some(Decimal(i < 0, if i < 0 then -i else i, 0))
  {
    var s := IntToString(i);
    var n: nat := if i < 0 then -i else i;
    StripUnspaced(s);
    DigitsOfNatToString(n);
    if i < 0 {
      assert s[1..] == NatToString(n);
      DigitsParse(NatToString(n));
    } else {
      DigitsParse(s);
    }
  }

  /** `float(str(i)) == i`: the decimal rendering of an integer reads back as that integer. */
  lemma IntToStringParses(i: int)
    ensures ParseFloat(IntToString(i)) == Some(i as real)
  {
    IntToStringLiteral(i);
  }

  /** `float("0") == 0.0` and `float("1") == 1.0`, and so on for every digit. */
  lemma FloatOfDigitString(n: nat)
    requires n < 10
    ensures Float(Str([DigitChar(n)])) == Ok(n as real)
  {
    IntToStringParses(n);
  }

  lemma {:induction false} DigitsValueAppend(w: string, f: string)
    requires AllDigits(w) && AllDigits(f)
    ensures AllDigits(w + f)
    ensures DigitsValue(w + f) == DigitsValue(w) * Pow10(|f|) + DigitsValue(f)
  {
    if f == [] {
      assert w + f == w;
    } else {
      var init := f[..|f| - 1];
      DigitsValueAppend(w, init);
      assert (w + f)[..|w + f| - 1] == w + init;
      var d := DigitValue(f[|f| - 1]);
      assert DigitsValue(f) == DigitsValue(init) * 10 + d by {
        assert f[..|f| - 1] == init;
      }
      Regroup(DigitsValue(w), Pow10(|init|), DigitsValue(init), d);
    }
  }

  lemma Regroup(a: nat, p: nat, b: nat, d: nat)
    ensures (a * p + b) * 10 + d == a * (10 * p) + (b * 10 + d)
  {
  }

  lemma FirstIndexAt(s: string, cs: set<char>, k: nat)
    requires k < |s| && s[k] in cs
    requires forall j :: 0 <= j < k ==> s[j] !in cs
    ensures FirstIndex(s, cs) == k
  {
  }

  lemma FractionMantissa(w: string, f: string)
    requires |w| > 0 && |f| > 0 && AllDigits(w) && AllDigits(f)
    ensures AllDigits(w + f)
    ensures ParseMantissa(w + "." + f) == Some(Decimal(false, DigitsValue(w + f), -|f|))
  {
    AllDigitsAppend(w, f);
    var s := w + "." + f;
    FirstIndexAt(s, {'.'}, |w|);
    var whole, frac := s[..|w|], s[|w| + 1..];
    assert whole == w && frac == f;
    assert whole + frac == w + f;
  }

  lemma AllDigitsAppend(w: string, f: string)
    requires AllDigits(w) && AllDigits(f)
    ensures AllDigits(w + f)
  {
  }

  /** Without an exponent marker, an unsigned literal is its mantissa. */
  lemma UnsignedWithoutExponent(t: string)
    requires forall k :: 0 <= k < |t| ==> t[k] != 'e' && t[k] != 'E'
    ensures ParseMantissa(t).Some? ==> ParseUnsigned(t) == Some(ParseMantissa(t).value.(negative := false))
  {
    FirstIndexAbsent(t, {'e', 'E'});
    assert t[..|t|] == t;
  }

  lemma FractionUnsigned(w: string, f: string)
    requires |w| > 0 && |f| > 0 && AllDigits(w) && AllDigits(f)
    ensures AllDigits(w + f)
    ensures ParseUnsigned(w + "." + f) == Some(Decimal(false, DigitsValue(w + f), -|f|))
  {
    FractionMantissa(w, f);
    var s := w + "." + f;
    forall k | 0 <= k < |s| ensures s[k] != 'e' && s[k] != 'E' {
      if k < |w| {
        assert s[k] == w[k];
      } else if k > |w| {
        assert s[k] == f[k - |w| - 1];
      }
    }
    UnsignedWithoutExponent(s);
  }

  lemma FractionLiteralDecimal(w: string, f: string)
    requires |w| > 0 && |f| > 0 && AllDigits(w) && AllDigits(f)
    ensures AllDigits(w + f)
    ensures ParseLiteral(w + "." + f) == Some(Decimal(false, DigitsValue(w + f), -|f|))
  {
    FractionUnsigned(w, f);
    var s := w + "." + f;
    assert s[0] == w[0] && s[|s| - 1] == f[|f| - 1];
    StripUnspaced(s);
  }

  /** Scaling down by `n` places divides by `10^n`. */
  lemma {:induction false} ScaledDown(x: real, n: nat)
    ensures Scaled(x, -(n as int)) == x / Pow10(n) as real
    decreases n
  {
    if n > 0 {
      ScaledDown(x / 10.0, n - 1);
      var p := Pow10(n - 1) as real;
      assert Pow10(n) as real == 10.0 * p;
      assert x / 10.0 / p == x / (10.0 * p);
    }
  }

  lemma ShiftedFraction(whole: nat, frac: nat, scale: nat)
    requires scale > 0
    ensures (whole * scale + frac) as real / scale as real == whole as real + frac as real / scale as real
  {
    var p := scale as real;
    assert (whole * scale + frac) as real == whole as real * p + frac as real;
    assert (whole as real * p + frac as real) / p == whole as real * p / p + frac as real / p;
  }

  lemma FloatOfLiteral(s: string, d: Decimal, x: real)
    requires ParseLiteral(s) == Some(d) && d.Value() == x
    ensures ParseFloat(s) == Some(x) && Float(Str(s)) == Ok(x)
  {
  }

  lemma FractionValue(whole: nat, frac: nat, places: nat, digits: nat)
    requires digits == whole * Pow10(places) + frac
    ensures Decimal(false, digits, -(places as int)).Value() == whole as real + frac as real / Pow10(places) as real
  {
    ScaledDown(digits as real, places);
    ShiftedFraction(whole, frac, Pow10(places));
  }

  lemma FractionDecimalValue(w: string, f: string)
    requires AllDigits(w) && AllDigits(f)
    ensures AllDigits(w + f)
    ensures Decimal(false, DigitsValue(w + f), -|f|).Value()
         == DigitsValue(w) as real + DigitsValue(f) as real / Pow10(|f|) as real
  {
    DigitsValueAppend(w, f);
    FractionValue(DigitsValue(w), DigitsValue(f), |f|, DigitsValue(w + f));
  }

  /** `float("12.25") == 12.25`: a literal with digits on both sides of the
      point reads as the whole part plus the fraction digits over their scale. */
  lemma FractionLiteralParses(w: string, f: string)
    requires |w| > 0 && |f| > 0 && AllDigits(w) && AllDigits(f)
    ensures ParseFloat(w + "." + f) == Some(DigitsValue(w) as real + DigitsValue(f) as real / Pow10(|f|) as real)
    ensures Float(Str(w + "." + f)) == Ok(DigitsValue(w) as real + DigitsValue(f) as real / Pow10(|f|) as real)
  {
    var s := w + "." + f;
    var d := Decimal(false, DigitsValue(w + f), -|f|);
    var x := DigitsValue(w) as real + DigitsValue(f) as real / Pow10(|f|) as real;
    FractionLiteralDecimal(w, f);
    FractionDecimalValue(w, f);
    assert ParseLiteral(s) == Some(d) && d.Value() == x;
    FloatOfLiteral(s, d, x);
  }
}
