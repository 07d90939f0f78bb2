/** Decimal numbers as the scripts read and write them: Python's `int(text)`
    and `float(text)` on plain decimal literals, `int(x)` truncation of a
    float, and the zero-padded `{i:06d}` format. */
module Numbers {
  import opened Options
  import opened Text

  predicate IsDigit(c: char) {
    '0' <= c <= '9'
  }

  predicate AllDigits(s: string) {
    forall k :: 0 <= k < |s| ==> IsDigit(s[k])
  }

  function DigitValue(c: char): nat
    requires IsDigit(c)
  {
    c as int - '0' as int
  }

  function DigitChar(d: nat): (c: char)
    requires d < 10
    ensures IsDigit(c) && DigitValue(c) == d
  {
    ('0' as int + d) as char
  }

  function Pow10(n: nat): (p: nat)
    ensures p >= 1
  {
    if n == 0 then 1 else 10 * Pow10(n - 1)
  }

  /** The value of a string of decimal digits, most significant first. */
  function DigitsValue(s: string): nat
    requires AllDigits(s)
  {
    if |s| == 0 then 0 else 10 * DigitsValue(s[..|s| - 1]) + DigitValue(s[|s| - 1])
  }

  /** Appending digits `b` shifts the value of `a` by `|b|` places. */
  lemma {:induction false} DigitsValueAppend(a: string, b: string)
    requires AllDigits(a) && AllDigits(b)
    ensures AllDigits(a + b)
    ensures DigitsValue(a + b) == DigitsValue(a) * Pow10(|b|) + DigitsValue(b)
    decreases |b|
  {
    if |b| == 0 {
      assert a + b == a;
    } else {
      var b' := b[..|b| - 1];
      assert (a + b)[..|a + b| - 1] == a + b';
      DigitsValueAppend(a, b');
      assert (a + b)[|a + b| - 1] == b[|b| - 1];
      ShiftStep(DigitsValue(a), Pow10(|b'|), DigitsValue(b'), DigitValue(b[|b| - 1]));
    }
  }

  lemma ShiftStep(x: int, p: int, y: int, d: int)
    ensures 10 * (x * p + y) + d == x * (10 * p) + (10 * y + d)
  {
  }

  /** `str(n)` for `n >= 0`: decimal digits without leading zeros. */
  function NatToDigits(n: nat): (s: string)
    ensures |s| >= 1 && AllDigits(s)
    ensures |s| > 1 ==> s[0] != '0'
    ensures DigitsValue(s) == n
  {
    if n < 10 then [DigitChar(n)]
    else
      var init := NatToDigits(n / 10);
      var s := init + [DigitChar(n % 10)];
      assert s[..|s| - 1] == init;
      s
  }

  /** A number below `10^w` needs at most `w` digits. */
  lemma {:induction false} NatToDigitsLength(n: nat, w: nat)
    requires w >= 1 && n < Pow10(w)
    ensures |NatToDigits(n)| <= w
    decreases w
  {
    if n >= 10 {
      NatToDigitsLength(n / 10, w - 1);
    }
  }

  function Zeros(n: nat): (s: string)
    ensures |s| == n && AllDigits(s) && DigitsValue(s) == 0
  {
    if n == 0 then ""
    else
      var s := Zeros(n - 1) + "0";
      assert s[..|s| - 1] == Zeros(n - 1);
      s
  }

  /** `f"{n:0{width}d}"` for `n >= 0`: the decimal digits of `n`, left-padded
      with '0' to at least `width` characters. */
  function ZeroPad(n: nat, width: nat): (s: string)
    ensures AllDigits(s)
    ensures DigitsValue(s) == n
    ensures |s| >= width
    ensures |s| > width ==> s == NatToDigits(n)
  {
    var d := NatToDigits(n);
    if |d| >= width then d
    else
      var z := Zeros(width - |d|);
      DigitsValueAppend(z, d);
      z + d
  }

  /** A number below `10^width` is rendered in exactly `width` characters. */
  lemma ZeroPadWidth(n: nat, width: nat)
    requires width >= 1 && n < Pow10(width)
    ensures |ZeroPad(n, width)| == width
  {
    NatToDigitsLength(n, width);
  }

  /** Distinct numbers never share a padded rendering. */
  lemma ZeroPadInjective(a: nat, b: nat, width: nat)
    requires ZeroPad(a, width) == ZeroPad(b, width)
    ensures a == b
  {
  }

  /** Sign and digits of a literal after surrounding whitespace is removed. */
  function SignedBody(t: string): (r: (bool, string))
    ensures |r.1| <= |t|
  {
    if |t| > 0 && (t[0] == '-' || t[0] == '+') then (t[0] == '-', t[1..]) else (false, t)
  }

  /** Python `int(text)` on a decimal literal: surrounding whitespace, an
      optional sign, then one or more ASCII digits; anything else is the
      `ValueError` path, here `None`. */
  function ParseInt(text: string): Option<int>
  {
    var (neg, body) := SignedBody(Strip(text));
    if |body| > 0 && AllDigits(body) then
      var v: int := DigitsValue(body);
      Some(if neg then -v else v)
    else None
  }

  /** Python `str(n)`. */
  function IntToString(n: int): string {
    if n < 0 then "-" + NatToDigits(-n) else NatToDigits(n)
  }

  /** `int` reads back what `str` writes. */
  lemma ParseIntRoundTrip(n: int)
    ensures ParseInt(IntToString(n)) == Some(n)
  {
    var s := IntToString(n);
    if n < 0 {
      var d := NatToDigits(-n);
      StripDigits(d, "-");
      assert s == "-" + d && s[1..] == d;
      ParseIntOf(s, true, d);
    } else {
      var d := NatToDigits(n);
      assert IsDigit(d[0]);
      ParseIntOf(s, false, d);
    }
  }

  /** `int` of a string that needs no stripping and splits into a sign and
      digits. */
  lemma ParseIntOf(t: string, neg: bool, d: string)
    requires Strip(t) == t && SignedBody(t) == (neg, d)
    requires |d| > 0 && AllDigits(d)
    ensures ParseInt(t) == Some(if neg then -(DigitsValue(d) as int) else DigitsValue(d))
  {
  }

  /** A digit string, optionally signed, has no surrounding whitespace to
      strip. */
  lemma StripDigits(d: string, sign: string)
    requires |d| > 0 && AllDigits(d) && |sign| <= 1 && (|sign| == 1 ==> sign[0] == '-')
    ensures Strip(sign + d) == sign + d
  {
    var s := sign + d;
    assert s[|s| - 1] == d[|d| - 1];
    assert !IsSpace(s[0]) && !IsSpace(s[|s| - 1]);
    StripNoop(s);
  }

  /** Index of the first `c` in `s`, or `|s|`. */
  function FirstIndex(s: string, c: char): (i: nat)
    ensures i <= |s|
    ensures forall k :: 0 <= k < i ==> s[k] != c
    ensures i < |s| ==> s[i] == c
    decreases |s|
  {
    if |s| == 0 then 0
    else if s[0] == c then 0
    else 1 + FirstIndex(s[1..], c)
  }

  /** The value of `whole.frac`. */
  function DecimalValue(whole: string, frac: string): (v: real)
    requires AllDigits(whole) && AllDigits(frac)
    ensures v >= 0.0
    ensures frac == "" ==> v == DigitsValue(whole) as real
  {
    DigitsValue(whole) as real + DigitsValue(frac) as real / Pow10(|frac|) as real
  }

  /** Value of an unsigned decimal: digits, optionally a '.' and more digits,
      at least one digit in all. */
  function UnsignedDecimal(s: string): (r: Option<real>)
    ensures r.Some? ==> r.value >= 0.0
  {
    var i := FirstIndex(s, '.');
    var whole := s[..i];
    var frac := if i < |s| then s[i + 1..] else "";
    if AllDigits(whole) && AllDigits(frac) && |whole| + |frac| > 0 then
      Some(DecimalValue(whole, frac))
    else None
  }

  /** Python `float(text)` on a plain decimal literal: surrounding whitespace,
      an optional sign, digits with at most one '.'; anything else is the
      `ValueError` path, here `None`. */
  function ParseDecimal(text: string): (r: Option<real>)
  {
    var (neg, body) := SignedBody(Strip(text));
    match UnsignedDecimal(body)
    case None => None
    case Some(x) => Some(if neg then -x else x)
  }

  /** Every integer literal `int` accepts, `float` accepts with the same
      value. */
  lemma ParseDecimalExtendsParseInt(text: string, n: int)
    requires ParseInt(text) == Some(n)
    ensures ParseDecimal(text) == Some(n as real)
  {
    var sb := SignedBody(Strip(text));
    var v: int := DigitsValue(sb.1);
    assert n == if sb.0 then -v else v;
    IntegerIsDecimal(sb.1);
    assert UnsignedDecimal(sb.1) == Some(v as real);
  }

  lemma IntegerIsDecimal(body: string)
    requires |body| > 0 && AllDigits(body)
    ensures UnsignedDecimal(body) == Some(DigitsValue(body) as real)
  {
    var i := FirstIndex(body, '.');
    assert i == |body|;
    assert body[..i] == body;
  }

  /** Python `int(x)` on a float: truncation toward zero. */
  function Trunc(x: real): (r: int)
    ensures 0.0 <= x ==> 0 <= r && r as real <= x < r as real + 1.0
    ensures x < 0.0 ==> r <= 0 && r as real - 1.0 < x <= r as real
  {
    if x >= 0.0 then x.Floor else -((-x).Floor)
  }
}
