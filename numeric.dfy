/** Numbers in cells: the decimal-literal grammar that stands for
    `isNumeric` (app.js:46) and `Number(raw)` (app.js:64), the decimal
    rendering of a natural number used for default names (app.js:61), and
    rounding to hundredths, which stands for `+x.toFixed(2)` (app.js:71, 75). */
module Numeric {

  datatype Option<T> = None | Some(value: T)

  predicate IsDigit(c: char) {
    '0' <= c <= '9'
  }

  function DigitValue(c: char): (d: nat)
    requires IsDigit(c)
    ensures d < 10
  {
    c as int - '0' as int
  }

  function DigitChar(d: nat): (c: char)
    requires d < 10
    ensures IsDigit(c) && DigitValue(c) == d
  {
    ('0' as int + d) as char
  }

  predicate AllDigits(s: string) {
    forall k :: 0 <= k < |s| ==> IsDigit(s[k])
  }

  /** The value of a string of decimal digits, most significant first. */
  function DigitsValue(s: string): nat
    requires AllDigits(s)
  {
    if s == [] then 0 else DigitsValue(s[..|s| - 1]) * 10 + DigitValue(s[|s| - 1])
  }

  function Pow10(n: nat): (r: nat)
    ensures r >= 1
  {
    if n == 0 then 1 else 10 * Pow10(n - 1)
  }

  /** 10 raised to an integer power, as a real. */
  function Scale(e: int): (r: real)
    ensures r > 0.0
  {
    if e >= 0 then Pow10(e) as real else 1.0 / (Pow10(-e) as real)
  }

  /** Index of the first occurrence of c in s, or |s| when there is none. */
  function IndexOf(s: string, c: char): (k: nat)
    ensures k <= |s|
    ensures k < |s| ==> s[k] == c
    ensures forall j :: 0 <= j < k ==> s[j] != c
  {
    if s == [] then 0 else if s[0] == c then 0 else 1 + IndexOf(s[1..], c)
  }

  /** Index of the first exponent marker, `e` or `E`, or |s|. */
  function ExponentAt(s: string): (k: nat)
    ensures k <= |s|
    ensures k < |s| ==> s[k] == 'e' || s[k] == 'E'
    ensures forall j :: 0 <= j < k ==> s[j] != 'e' && s[j] != 'E'
  {
    if s == [] then 0 else if s[0] == 'e' || s[0] == 'E' then 0 else 1 + ExponentAt(s[1..])
  }

  /** An optional sign and its remainder. */
  function SignOf(s: string): (bool, string) {
    if |s| > 0 && (s[0] == '+' || s[0] == '-') then (s[0] == '-', s[1..]) else (false, s)
  }

  /** The characters a decimal literal may contain. */
  predicate IsNumberChar(c: char) {
    IsDigit(c) || c == '+' || c == '-' || c == '.' || c == 'e' || c == 'E'
  }

  /** An exponent: an optional sign and at least one digit. */
  function ParseExponent(s: string): (r: Option<int>)
    ensures r.Some? ==> |s| > 0 && forall k :: 0 <= k < |s| ==> IsNumberChar(s[k])
  {
    var (neg, digits) := SignOf(s);
    if |digits| > 0 && AllDigits(digits) then
      Some(if neg then -(DigitsValue(digits) as int) else DigitsValue(digits))
    else None
  }

  /** The unsigned part before any exponent:
        mantissa ::= digit+ ( '.' digit* )? | '.' digit+ */
  function ParseMantissa(m: string): (r: Option<real>)
    ensures r.Some? ==> forall k :: 0 <= k < |m| ==> IsDigit(m[k]) || m[k] == '.'
    ensures r.Some? ==> exists k :: 0 <= k < |m| && IsDigit(m[k])
    ensures r.Some? ==> r.value >= 0.0
  {
    var d := IndexOf(m, '.');
    var whole := m[..d];
    var frac := if d < |m| then m[d + 1..] else "";
    if AllDigits(whole) && AllDigits(frac) && |whole| + |frac| > 0 then
      assert m == whole + m[d..];
      assert |whole| == 0 ==> m[d + 1] == frac[0];
      Some(MantissaValue(whole, frac))
    else None
  }

  /** The value of whole digits, a point and fraction digits. */
  function MantissaValue(whole: string, frac: string): (v: real)
    requires AllDigits(whole) && AllDigits(frac)
    ensures v >= 0.0
  {
    DigitsValue(whole) as real + DigitsValue(frac) as real / Pow10(|frac|) as real
  }

  /** Every index of s falls before k or at or after it. */
  lemma SplitAt(s: string, k: nat)
    requires k <= |s|
    ensures forall j :: 0 <= j < |s| ==> (j < k && s[j] == s[..k][j]) || (j >= k && s[j] == s[k..][j - k])
  {
  }

  /** An unsigned literal: a mantissa and an optional exponent. */
  function ParseUnsigned(body: string): (r: Option<real>)
    ensures r.Some? ==> forall k :: 0 <= k < |body| ==> IsNumberChar(body[k])
    ensures r.Some? ==> exists k :: 0 <= k < |body| && IsDigit(body[k])
  {
    var e := ExponentAt(body);
    var mantissa := ParseMantissa(body[..e]);
    var exponent := if e < |body| then ParseExponent(body[e + 1..]) else Some(0);
    if mantissa.None? || exponent.None? then None
    else
      SplitAt(body, e);
      Some(Scaled(mantissa.value, exponent.value))
  }

  /** A mantissa times ten to the power of an exponent. */
  function Scaled(m: real, x: int): real {
    m * Scale(x)
  }

  /** The decimal-literal grammar that the model uses for a numeric cell:
        literal  ::= sign? mantissa exponent?
        mantissa ::= digit+ ( '.' digit* )? | '.' digit+
        exponent ::= ( 'e' | 'E' ) sign? digit+
      and the exact value it denotes. Every string outside the grammar
      (the empty string, `NaN`, `Infinity`, `12abc`, `1.2.3`) is None. */
  function ParseNumber(s: string): (r: Option<real>)
    ensures r.Some? ==> |s| > 0 && forall k :: 0 <= k < |s| ==> IsNumberChar(s[k])
    ensures r.Some? ==> exists k :: 0 <= k < |s| && IsDigit(s[k])
  {
    var (neg, body) := SignOf(s);
    var u := ParseUnsigned(body);
    if u.None? then None
    else
      assert s == body || s == [s[0]] + body;
      Some(if neg then -u.value else u.value)
  }

  /** `isNumeric` on a cell: the cell is a decimal literal. Such a cell is
      non-empty, uses only number characters and holds a digit. */
  function IsNumeric(s: string): (b: bool)
    ensures b ==> |s| > 0 && forall k :: 0 <= k < |s| ==> IsNumberChar(s[k])
    ensures b ==> exists k :: 0 <= k < |s| && IsDigit(s[k])
  {
    ParseNumber(s).Some?
  }

  /** Decimal rendering of a natural number, as JavaScript's String(n). */
  function NatToString(n: nat): (s: string)
    ensures |s| >= 1 && AllDigits(s)
    ensures |s| > 1 ==> s[0] != '0'
  {
    if n < 10 then [DigitChar(n)] else NatToString(n / 10) + [DigitChar(n % 10)]
  }

  /** The digits NatToString writes denote n again. */
  lemma {:induction false} NatToStringValue(n: nat)
    ensures DigitsValue(NatToString(n)) == n
  {
    var s := NatToString(n);
    if n >= 10 {
      NatToStringValue(n / 10);
      assert s[..|s| - 1] == NatToString(n / 10);
    }
  }

  /** A non-empty run of digits is a mantissa worth its digits. */
  lemma DigitsMantissa(s: string)
    requires |s| > 0 && AllDigits(s)
    ensures ParseMantissa(s) == Some(DigitsValue(s) as real)
  {
    assert forall j :: 0 <= j < |s| ==> s[j] != '.';
    assert s[..|s|] == s;
  }

  /** A non-empty run of digits is an unsigned literal worth its digits. */
  lemma DigitsUnsigned(s: string)
    requires |s| > 0 && AllDigits(s)
    ensures ParseUnsigned(s) == Some(DigitsValue(s) as real)
  {
    DigitsMantissa(s);
    NoExponent(s, DigitsValue(s) as real);
  }



  /** Every rendered natural number is a numeric cell, and it reads back as
      the same number. */
  lemma NatLiteralIsNumeric(n: nat)
    ensures ParseNumber(NatToString(n)) == Some(n as real)
  {
    var s := NatToString(n);
    NatToStringValue(n);
    assert SignOf(s) == (false, s);
    DigitsUnsigned(s);
  }

  // ---- The grammar's strings are accepted, with the value they denote ----

  /** A mantissa with a point: the whole digits plus the fraction digits
      over the matching power of ten; either side may be empty, not both. */
  lemma DecimalMantissa(w: string, f: string)
    requires AllDigits(w) && AllDigits(f) && |w| + |f| > 0
    ensures ParseMantissa(w + "." + f) == Some(MantissaValue(w, f))
  {
    var m := w + "." + f;
    assert m[|w|] == '.';
    assert m[..|w|] == w && m[|w| + 1..] == f;
    PointAt(m, |w|);
  }

  /** The first point of m at index d splits it into the whole and the
      fraction digits. */
  lemma PointAt(m: string, d: nat)
    requires d < |m| && m[d] == '.'
    requires AllDigits(m[..d]) && AllDigits(m[d + 1..]) && |m| > 1
    ensures ParseMantissa(m) == Some(MantissaValue(m[..d], m[d + 1..]))
  {
    assert forall j :: 0 <= j < d ==> m[..d][j] == m[j];
    assert IndexOf(m, '.') == d;
  }

  /** A mantissa holds no exponent marker. */
  lemma MantissaHasNoMarker(m: string)
    requires ParseMantissa(m).Some?
    ensures ExponentAt(m) == |m|
  {
    assert forall j :: 0 <= j < |m| ==> m[j] != 'e' && m[j] != 'E';
  }

  /** A literal without an exponent is worth its mantissa. */
  lemma NoExponent(m: string, v: real)
    requires ParseMantissa(m) == Some(v)
    ensures ParseUnsigned(m) == Some(v)
  {
    MantissaHasNoMarker(m);
    assert m[..|m|] == m;
    assert Scale(0) == 1.0;
  }

  /** A mantissa, `e` or `E`, and an exponent: the mantissa times ten to
      the exponent. */
  lemma WithExponent(m: string, mark: char, x: string, v: real, e: int)
    requires ParseMantissa(m) == Some(v) && (mark == 'e' || mark == 'E') && ParseExponent(x) == Some(e)
    ensures ParseUnsigned(m + [mark] + x) == Some(Scaled(v, e))
  {
    var body := m + [mark] + x;
    MantissaHasNoMarker(m);
    assert forall j :: 0 <= j < |m| ==> body[j] == m[j];
    assert body[|m|] == mark;
    assert body[..|m|] == m && body[|m| + 1..] == x;
    MarkerAt(body, |m|);
  }

  /** The first exponent marker of body at index e splits it into the
      mantissa and the exponent. */
  lemma MarkerAt(body: string, e: nat)
    requires e < |body| && (body[e] == 'e' || body[e] == 'E')
    requires forall j :: 0 <= j < e ==> body[j] != 'e' && body[j] != 'E'
    requires ParseMantissa(body[..e]).Some? && ParseExponent(body[e + 1..]).Some?
    ensures ParseUnsigned(body) ==
      Some(Scaled(ParseMantissa(body[..e]).value, ParseExponent(body[e + 1..]).value))
  {
    assert ExponentAt(body) == e;
  }

  /** An exponent of digits, with an optional sign, is worth its digits,
      negated after a minus. */
  lemma ExponentValue(d: string)
    requires |d| > 0 && AllDigits(d)
    ensures ParseExponent(d) == Some(DigitsValue(d) as int)
    ensures ParseExponent("+" + d) == Some(DigitsValue(d) as int)
    ensures ParseExponent("-" + d) == Some(-(DigitsValue(d) as int))
  {
    assert IsDigit(d[0]);
    assert ("+" + d)[1..] == d && ("-" + d)[1..] == d;
    ExponentOf(d, false, d);
    ExponentOf("+" + d, false, d);
    ExponentOf("-" + d, true, d);
  }

  /** An exponent whose sign has been read. */
  lemma ExponentOf(s: string, neg: bool, d: string)
    requires SignOf(s) == (neg, d) && |d| > 0 && AllDigits(d)
    ensures ParseExponent(s) == Some(if neg then -(DigitsValue(d) as int) else DigitsValue(d) as int)
  {
  }

  /** An unsigned literal does not start with a sign. */
  lemma UnsignedStart(u: string)
    requires ParseUnsigned(u).Some?
    ensures |u| > 0 && u[0] != '+' && u[0] != '-'
  {
    var e := ExponentAt(u);
    assert AllDigits(u[..0]) && |u[..0]| == 0;
    assert e > 0;
    assert u[..e][0] == u[0];
  }

  /** A sign before an unsigned literal: none or `+` keeps its value, `-`
      negates it. */
  lemma SignedNumber(u: string, v: real)
    requires ParseUnsigned(u) == Some(v)
    ensures ParseNumber(u) == Some(v)
    ensures ParseNumber("+" + u) == Some(v)
    ensures ParseNumber("-" + u) == Some(-v)
  {
    UnsignedStart(u);
    assert ("+" + u)[1..] == u && ("-" + u)[1..] == u;
    NumberOf(u, false, u);
    NumberOf("+" + u, false, u);
    NumberOf("-" + u, true, u);
  }

  /** A literal whose sign has been read. */
  lemma NumberOf(s: string, neg: bool, u: string)
    requires SignOf(s) == (neg, u) && ParseUnsigned(u).Some?
    ensures ParseNumber(s) == Some(if neg then -ParseUnsigned(u).value else ParseUnsigned(u).value)
  {
  }

  /** Whole and fraction digits around a point: the mantissa's value. */
  lemma DecimalNumber(w: string, f: string)
    requires AllDigits(w) && AllDigits(f) && |w| + |f| > 0
    ensures ParseNumber(w + "." + f) == Some(MantissaValue(w, f))
  {
    var m, v := w + "." + f, MantissaValue(w, f);
    DecimalMantissa(w, f);
    NoExponent(m, v);
    SignedNumber(m, v);
  }

  /** A minus before a mantissa worth `v`, such as whole and fraction
      digits around a point (`DecimalMantissa`): a literal worth `-v`. */
  lemma NegativeNumber(m: string, v: real)
    requires ParseMantissa(m) == Some(v)
    ensures ParseNumber("-" + m) == Some(-v)
  {
    NoExponent(m, v);
    SignedNumber(m, v);
  }

  /** Whole and fraction digits around a point, then `e` and exponent
      digits: the mantissa times ten to the exponent. */
  lemma ExponentNumber(w: string, f: string, d: string)
    requires AllDigits(w) && AllDigits(f) && |w| + |f| > 0 && |d| > 0 && AllDigits(d)
    ensures ParseNumber(w + "." + f + ['e'] + d) == Some(Scaled(MantissaValue(w, f), DigitsValue(d)))
  {
    var m, v := w + "." + f, MantissaValue(w, f);
    DecimalMantissa(w, f);
    ExponentValue(d);
    WithExponent(m, 'e', d, v, DigitsValue(d));
    SignedNumber(m + ['e'] + d, Scaled(v, DigitsValue(d)));
  }

  // ---- Only the grammar's strings are accepted ----

  /** An accepted mantissa is a run of digits, or whole and fraction digits
      around a single point, and is worth what they denote. */
  lemma MantissaShape(m: string)
    requires ParseMantissa(m).Some?
    ensures
      (|m| > 0 && AllDigits(m) && ParseMantissa(m) == Some(DigitsValue(m) as real)) ||
      (exists w, f {:trigger MantissaValue(w, f)} ::
         AllDigits(w) && AllDigits(f) && |w| + |f| > 0 && m == w + "." + f &&
         ParseMantissa(m) == Some(MantissaValue(w, f)))
  {
    var d := IndexOf(m, '.');
    if d == |m| {
      DigitsOnly(m);
      DigitsMantissa(m);
    } else {
      PointSplit(m, d);
      PointText(m, d);
    }
  }

  /** An accepted mantissa without a point is a run of digits. */
  lemma DigitsOnly(m: string)
    requires ParseMantissa(m).Some? && IndexOf(m, '.') == |m|
    ensures |m| > 0 && AllDigits(m)
  {
    assert m[..|m|] == m;
  }

  /** An accepted mantissa splits at its first point into whole and
      fraction digits. */
  lemma PointSplit(m: string, d: nat)
    requires ParseMantissa(m).Some? && d == IndexOf(m, '.') && d < |m|
    ensures AllDigits(m[..d]) && AllDigits(m[d + 1..]) && |m[..d]| + |m[d + 1..]| > 0
    ensures ParseMantissa(m) == Some(MantissaValue(m[..d], m[d + 1..]))
  {
    var whole, frac := m[..d], m[d + 1..];
    assert ParseMantissa(m) ==
      if AllDigits(whole) && AllDigits(frac) && |whole| + |frac| > 0 then Some(MantissaValue(whole, frac)) else None;
  }

  /** A string is the part before a point, the point and the part after. */
  lemma PointText(m: string, d: nat)
    requires d < |m| && m[d] == '.'
    ensures m == m[..d] + "." + m[d + 1..]
  {
    assert m == m[..d] + [m[d]] + m[d + 1..];
  }


  /** An accepted unsigned literal is a mantissa alone, or a mantissa, `e`
      or `E`, and an exponent, and is worth the mantissa times ten to the
      exponent. */
  lemma UnsignedShape(u: string)
    requires ParseUnsigned(u).Some?
    ensures
      (ParseMantissa(u).Some? && ParseUnsigned(u) == ParseMantissa(u)) ||
      (exists m, x {:trigger ParseMantissa(m), ParseExponent(x)} :: ParseMantissa(m).Some? && ParseExponent(x).Some? &&
         (u == m + "e" + x || u == m + "E" + x) &&
         ParseUnsigned(u) == Some(Scaled(ParseMantissa(m).value, ParseExponent(x).value)))
  {
    if ExponentAt(u) == |u| {
      MantissaOnly(u);
    } else {
      WithMarker(u);
    }
  }

  /** An accepted unsigned literal without an exponent marker is a
      mantissa, worth the same. */
  lemma MantissaOnly(u: string)
    requires ParseUnsigned(u).Some? && ExponentAt(u) == |u|
    ensures ParseMantissa(u).Some? && ParseUnsigned(u) == ParseMantissa(u)
  {
    assert u[..|u|] == u;
    NoExponent(u, ParseMantissa(u).value);
  }

  /** An accepted unsigned literal with an exponent marker is a mantissa,
      the marker and an exponent. */
  lemma WithMarker(u: string)
    requires ParseUnsigned(u).Some? && ExponentAt(u) < |u|
    ensures exists m, x {:trigger ParseMantissa(m), ParseExponent(x)} ::
      ParseMantissa(m).Some? && ParseExponent(x).Some? &&
      (u == m + "e" + x || u == m + "E" + x) &&
      ParseUnsigned(u) == Some(Scaled(ParseMantissa(m).value, ParseExponent(x).value))
  {
    var e := ExponentAt(u);
    MarkerSplit(u, e);
    MarkerText(u, e);
  }

  /** An accepted unsigned literal splits at its first exponent marker into
      a mantissa and an exponent. */
  lemma MarkerSplit(u: string, e: nat)
    requires ParseUnsigned(u).Some? && e == ExponentAt(u) && e < |u|
    ensures ParseMantissa(u[..e]).Some? && ParseExponent(u[e + 1..]).Some?
    ensures ParseUnsigned(u) == Some(Scaled(ParseMantissa(u[..e]).value, ParseExponent(u[e + 1..]).value))
  {
    var mantissa, exponent := ParseMantissa(u[..e]), ParseExponent(u[e + 1..]);
    assert ParseUnsigned(u) ==
      if mantissa.None? || exponent.None? then None else Some(Scaled(mantissa.value, exponent.value));
  }

  /** A string is the part before a marker, the marker and the part after. */
  lemma MarkerText(u: string, e: nat)
    requires e < |u| && (u[e] == 'e' || u[e] == 'E')
    ensures u == u[..e] + "e" + u[e + 1..] || u == u[..e] + "E" + u[e + 1..]
  {
    assert u == u[..e] + [u[e]] + u[e + 1..];
  }


  /** An accepted cell is an unsigned literal with no sign, `+` or `-`
      before it; the minus negates its value. */
  lemma NumberShape(s: string)
    requires ParseNumber(s).Some?
    ensures exists u ::
      ParseUnsigned(u).Some? &&
      (((s == u || s == "+" + u) && ParseNumber(s) == ParseUnsigned(u)) ||
       (s == "-" + u && ParseNumber(s) == Some(-ParseUnsigned(u).value)))
  {
    var (neg, u) := SignOf(s);
    if u != s {
      assert s == [s[0]] + u;
    }
  }

  /** Digits and points hold no exponent marker. */
  lemma NoMarker(s: string)
    requires forall j :: 0 <= j < |s| ==> IsDigit(s[j]) || s[j] == '.'
    ensures ExponentAt(s) == |s|
  {
    assert forall j :: 0 <= j < |s| ==> s[j] != 'e' && s[j] != 'E';
  }

  /** The first point of s is at index d. */
  lemma FirstPoint(s: string, d: nat)
    requires d < |s| && s[d] == '.' && forall j :: 0 <= j < d ==> s[j] != '.'
    ensures IndexOf(s, '.') == d
  {
  }

  /** A mantissa whose fraction holds another point is refused. */
  lemma SecondPointRefused(m: string, d: nat)
    requires d == IndexOf(m, '.') && d < |m| && !AllDigits(m[d + 1..])
    ensures ParseMantissa(m) == None
  {
  }

  /** Digits and points whose first point is followed by another one are
      not numeric. */
  lemma SecondPointNotNumeric(s: string, d: nat)
    requires forall j :: 0 <= j < |s| ==> IsDigit(s[j]) || s[j] == '.'
    requires d < |s| && s[d] == '.' && (forall j :: 0 <= j < d ==> s[j] != '.') && !AllDigits(s[d + 1..])
    ensures ParseNumber(s) == None
  {
    FirstPoint(s, d);
    SecondPointRefused(s, d);
    NoMarker(s);
    assert s[..|s|] == s;
    assert ParseUnsigned(s) == None;
    assert SignOf(s) == (false, s);
  }

  /** Digits, a point, digits, a point and digits: two points are one too
      many, so the cell is not numeric. */
  lemma TwoPoints(w: string, f: string, g: string)
    requires AllDigits(w) && AllDigits(f) && AllDigits(g)
    ensures ParseNumber(w + "." + f + "." + g) == None
  {
    var t := f + "." + g;
    var s := w + "." + t;
    assert w + "." + f + "." + g == s;
    assert s[|w|] == '.' && forall j :: 0 <= j < |w| ==> s[j] == w[j];
    assert s[|w| + 1..] == t && t[|f|] == '.';
    assert forall j :: 0 <= j < |s| ==> IsDigit(s[j]) || s[j] == '.';
    SecondPointNotNumeric(s, |w|);
  }

  /** A sign followed by another sign: not numeric, since an unsigned
      literal never starts with a sign. */
  lemma SignedTwice(c: char, t: string)
    requires (c == '+' || c == '-') && |t| > 0 && (t[0] == '+' || t[0] == '-')
    ensures ParseNumber([c] + t) == None
  {
    assert ([c] + t)[1..] == t;
    if ParseUnsigned(t).Some? {
      UnsignedStart(t);
      assert false;
    }
  }

  /** A mantissa and an exponent marker followed by something that is not
      an exponent: not numeric. */
  lemma BadExponent(m: string, mark: char, x: string)
    requires ParseMantissa(m).Some? && (mark == 'e' || mark == 'E') && ParseExponent(x) == None
    ensures ParseNumber(m + [mark] + x) == None
  {
    var u := m + [mark] + x;
    MantissaHasNoMarker(m);
    assert forall j :: 0 <= j < |m| ==> u[j] == m[j];
    assert u[|m|] == mark;
    assert ExponentAt(u) == |m|;
    assert u[|m| + 1..] == x;
    assert ParseUnsigned(u) == None;
    assert IsDigit(u[0]) || u[0] == '.';
    assert SignOf(u) == (false, u);
  }

  /** A mantissa and an exponent marker with nothing after it: not
      numeric, since an exponent needs a digit. */
  lemma MissingExponent(m: string, mark: char)
    requires ParseMantissa(m).Some? && (mark == 'e' || mark == 'E')
    ensures ParseNumber(m + [mark]) == None
  {
    BadExponent(m, mark, "");
    assert m + [mark] + "" == m + [mark];
  }

  /** An accepted exponent is digits with no sign or `+` before them,
      worth their value, or digits with `-` before them, worth their value
      negated. */
  lemma ExponentShape(x: string)
    requires ParseExponent(x).Some?
    ensures exists d ::
      |d| > 0 && AllDigits(d) &&
      (((x == d || x == "+" + d) && ParseExponent(x) == Some(DigitsValue(d) as int)) ||
       (x == "-" + d && ParseExponent(x) == Some(-(DigitsValue(d) as int))))
  {
    var (neg, d) := SignOf(x);
    if d != x {
      assert x == [x[0]] + d;
    }
  }

  /** An exponent holding a second marker is refused. */
  lemma SecondMarker(x: string, k: nat)
    requires k < |x| && (x[k] == 'e' || x[k] == 'E')
    ensures ParseExponent(x) == None
  {
    var (neg, digits) := SignOf(x);
    if |x| > 0 && (x[0] == '+' || x[0] == '-') {
      assert digits[k - 1] == x[k];
    } else {
      assert digits[k] == x[k];
    }
  }

  /** `1.2.3` has a second point, `--5` two signs, `5e` no exponent
      digits: none of them is numeric. */
  lemma RejectedExamples()
    ensures ParseNumber("1.2.3") == None
    ensures ParseNumber("--5") == None
    ensures ParseNumber("5e") == None
  {
    assert AllDigits("1") && AllDigits("2") && AllDigits("3");
    TwoPoints("1", "2", "3");
    assert "1" + "." + "2" + "." + "3" == "1.2.3";
    SignedTwice('-', "-5");
    assert ['-'] + "-5" == "--5";
    ExampleDigits();
    DigitsMantissa("5");
    MissingExponent("5", 'e');
    assert "5" + ['e'] == "5e";
  }

  /** `1e2e3` has a second exponent marker: not numeric. */
  lemma SecondMarkerExample()
    ensures ParseNumber("1e2e3") == None
  {
    assert AllDigits("1");
    DigitsMantissa("1");
    SecondMarker("2e3", 1);
    BadExponent("1", 'e', "2e3");
    assert "1" + ['e'] + "2e3" == "1e2e3";
  }

  /** `72.5`, `-72.5` and `72.5e1` are numeric cells worth 72.5, -72.5 and
      725. */
  lemma LiteralExamples()
    ensures ParseNumber("72.5") == Some(72.5)
    ensures ParseNumber("-72.5") == Some(-72.5)
    ensures ParseNumber("72.5e1") == Some(725.0)
  {
    FractionExample();
    NegativeExample();
    ExponentExample();
  }

  /** The digit strings of the examples and their values. */
  lemma ExampleDigits()
    ensures AllDigits("72") && AllDigits("5") && AllDigits("1")
    ensures MantissaValue("72", "5") == 72.5 && DigitsValue("1") == 1
  {
    assert NatToString(7) == "7" && NatToString(72) == "72";
    assert NatToString(5) == "5" && NatToString(1) == "1";
    NatToStringValue(72);
    NatToStringValue(5);
    NatToStringValue(1);
  }

  lemma FractionExample()
    ensures ParseNumber("72.5") == Some(72.5)
  {
    ExampleDigits();
    DecimalNumber("72", "5");
    assert "72" + "." + "5" == "72.5";
  }

  lemma NegativeExample()
    ensures ParseNumber("-72.5") == Some(-72.5)
  {
    ExampleDigits();
    DecimalMantissa("72", "5");
    NegativeNumber("72" + "." + "5", 72.5);
    assert "-" + ("72" + "." + "5") == "-72.5";
  }

  lemma ExponentExample()
    ensures ParseNumber("72.5e1") == Some(725.0)
  {
    ExampleDigits();
    ExponentNumber("72", "5", "1");
    assert "72" + "." + "5" + ['e'] + "1" == "72.5e1";
    assert Scaled(72.5, 1) == 725.0;
  }

  /** `+x.toFixed(2)` on the exact value: the nearest multiple of 1/100,
      ties away from zero. */
  function Round2(x: real): (r: real)
    ensures -1.0 / 200.0 <= r - x <= 1.0 / 200.0
    ensures IsHundredths(r)
    ensures x >= 0.0 ==> r >= 0.0
    ensures x <= 0.0 ==> r <= 0.0
  {
    var n := if x >= 0.0 then (x * 100.0 + 0.5).Floor else -(((-x) * 100.0 + 0.5).Floor);
    NearestWhole(if x >= 0.0 then x * 100.0 else (-x) * 100.0);
    HundredthsOf(n);
    n as real / 100.0
  }

  /** Adding one half and taking the floor lands within one half. */
  lemma NearestWhole(y: real)
    requires y >= 0.0
    ensures (y + 0.5).Floor >= 0
    ensures -0.5 <= (y + 0.5).Floor as real - y <= 0.5
  {
  }

  /** n / 100 is a whole number of hundredths. */
  lemma HundredthsOf(n: int)
    ensures IsHundredths(n as real / 100.0)
  {
    assert (n as real / 100.0) * 100.0 == n as real;
  }

  /** r is a whole number of hundredths. */
  predicate IsHundredths(r: real) {
    (r * 100.0).Floor as real == r * 100.0
  }

  /** Rounding never reverses the order of two values. */
  lemma Round2Monotone(x: real, y: real)
    requires x <= y
    ensures Round2(x) <= Round2(y)
  {
    if x >= 0.0 {
      assert (x * 100.0 + 0.5).Floor <= (y * 100.0 + 0.5).Floor;
    } else if y < 0.0 {
      assert ((-y) * 100.0 + 0.5).Floor <= ((-x) * 100.0 + 0.5).Floor;
    }
  }

  /** A value that already is a whole number of hundredths is left as it is. */
  lemma Round2Fixed(x: real)
    requires IsHundredths(x)
    ensures Round2(x) == x
  {
    var n := (x * 100.0).Floor;
    if x >= 0.0 {
      assert (x * 100.0 + 0.5).Floor == n;
    } else {
      assert ((-x) * 100.0 + 0.5).Floor == -n;
    }
  }
}
