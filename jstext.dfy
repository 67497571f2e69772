/**
 * The ECMAScript string and number conversions the core relies on:
 * the Number-to-String conversion of integers (template literals), `String.prototype.split`
 * on one character, `parseInt` (section 19.2.5 of ECMA-262) and `parseFloat`
 * (section 19.2.4 of ECMA-262). NaN is `None` for `parseInt`, `NaN` for `parseFloat`.
 */
module JsText {
  import opened Wrappers

  // ---------------------------------------------------------------------------
  // characters

  /** StrWhiteSpaceChar: the WhiteSpace and LineTerminator code points. */
  predicate IsWhiteSpace(c: char) {
    var u := c as int;
    u == 0x09 || u == 0x0B || u == 0x0C || u == 0x20 || u == 0xA0 || u == 0xFEFF
    || u == 0x1680 || (0x2000 <= u <= 0x200A) || u == 0x202F || u == 0x205F || u == 0x3000
    || u == 0x0A || u == 0x0D || u == 0x2028 || u == 0x2029
  }

  predicate AllWhiteSpace(s: string) {
    forall i :: 0 <= i < |s| ==> IsWhiteSpace(s[i])
  }

  /** The value of a letter-or-digit in radix 36, or 36 for any other character. */
  function DigitOf(c: char): (d: nat)
    ensures d <= 36
  {
    if '0' <= c <= '9' then c as int - '0' as int
    else if 'a' <= c <= 'z' then c as int - 'a' as int + 10
    else if 'A' <= c <= 'Z' then c as int - 'A' as int + 10
    else 36
  }

  predicate IsRadixDigit(c: char, radix: nat) {
    DigitOf(c) < radix
  }

  predicate IsDecimalDigit(c: char) {
    '0' <= c <= '9'
  }

  predicate AllDecimalDigits(s: string) {
    forall i :: 0 <= i < |s| ==> IsDecimalDigit(s[i])
  }

  function DigitChar(d: nat): (c: char)
    requires d < 10
    ensures IsDecimalDigit(c) && DigitOf(c) == d
  {
    ('0' as int + d) as char
  }

  /** The number a string of radix digits denotes, most significant digit first. */
  function DigitsValue(s: string, radix: nat): nat
    decreases |s|
  {
    if s == [] then 0
    else DigitsValue(s[..|s| - 1], radix) * radix + DigitOf(s[|s| - 1])
  }

  // ---------------------------------------------------------------------------
  // Number to String, for integers

  /** The shortest decimal numeral of `n`. */
  function NatToDecimal(n: nat): (s: string)
    ensures |s| >= 1 && AllDecimalDigits(s)
    ensures s[0] == '0' ==> n == 0
    decreases n
  {
    if n < 10 then [DigitChar(n)] else NatToDecimal(n / 10) + [DigitChar(n % 10)]
  }

  /** An integer as a template literal prints it (magnitudes below 10^21). */
  function IntToString(n: int): string {
    if n < 0 then "-" + NatToDecimal(-n) else NatToDecimal(n)
  }

  /** Reading the printed numeral back gives the number. */
  lemma {:induction false} DecimalRoundTrip(n: nat)
    ensures DigitsValue(NatToDecimal(n), 10) == n
    decreases n
  {
    if n >= 10 {
      DecimalRoundTrip(n / 10);
      var s := NatToDecimal(n);
      assert s[..|s| - 1] == NatToDecimal(n / 10);
    }
  }

  // ---------------------------------------------------------------------------
  // scanning

  /** The string without its leading StrWhiteSpaceChar code points. */
  function TrimStart(s: string): (r: string)
    ensures |r| <= |s| && r == s[|s| - |r|..]
    ensures AllWhiteSpace(s[..|s| - |r|])
    ensures r == [] || !IsWhiteSpace(r[0])
    decreases |s|
  {
    if s != [] && IsWhiteSpace(s[0]) then TrimStart(s[1..]) else s
  }

  lemma {:induction false} TrimStartAfterWhiteSpace(w: string, s: string)
    requires AllWhiteSpace(w)
    requires s == [] || !IsWhiteSpace(s[0])
    ensures TrimStart(w + s) == s
    decreases |w|
  {
    if w != [] {
      assert (w + s)[1..] == w[1..] + s;
      TrimStartAfterWhiteSpace(w[1..], s);
    } else {
      assert w + s == s;
    }
  }

  /** The longest prefix made of radix digits. */
  function LeadingDigits(s: string, radix: nat): (r: string)
    ensures |r| <= |s| && r == s[..|r|]
    ensures forall i :: 0 <= i < |r| ==> IsRadixDigit(r[i], radix)
    ensures |r| == |s| || !IsRadixDigit(s[|r|], radix)
    decreases |s|
  {
    if s != [] && IsRadixDigit(s[0], radix) then [s[0]] + LeadingDigits(s[1..], radix) else []
  }

  lemma {:induction false} LeadingDigitsOf(ds: string, t: string, radix: nat)
    requires forall i :: 0 <= i < |ds| ==> IsRadixDigit(ds[i], radix)
    requires t == [] || !IsRadixDigit(t[0], radix)
    ensures LeadingDigits(ds + t, radix) == ds
    decreases |ds|
  {
    if ds == [] {
      assert ds + t == t;
    } else {
      assert (ds + t)[0] == ds[0];
      assert (ds + t)[1..] == ds[1..] + t;
      LeadingDigitsOf(ds[1..], t, radix);
      assert ds == [ds[0]] + ds[1..];
    }
  }

  // ---------------------------------------------------------------------------
  // split on one character

  predicate Lacks(s: string, c: char) {
    forall i :: 0 <= i < |s| ==> s[i] != c
  }

  /** `s.split(sep)` for a one-character separator: every maximal run between separators. */
  function Split(s: string, sep: char): (r: seq<string>)
    ensures |r| >= 1
    decreases |s|
  {
    if s == [] then [[]]
    else
      var rest := Split(s[1..], sep);
      if s[0] == sep then [[]] + rest else [[s[0]] + rest[0]] + rest[1..]
  }

  lemma {:induction false} SplitWithout(s: string, sep: char)
    requires Lacks(s, sep)
    ensures Split(s, sep) == [s]
    decreases |s|
  {
    if s != [] {
      SplitWithout(s[1..], sep);
      assert s == [s[0]] + s[1..];
    }
  }

  lemma {:induction false} SplitAt(a: string, b: string, sep: char)
    requires Lacks(a, sep)
    ensures Split(a + [sep] + b, sep) == [a] + Split(b, sep)
    decreases |a|
  {
    if a == [] {
      assert a + [sep] + b == [sep] + b;
      assert ([sep] + b)[1..] == b;
    } else {
      var s := a + [sep] + b;
      assert s[0] == a[0];
      assert s[1..] == a[1..] + [sep] + b;
      SplitAt(a[1..], b, sep);
      assert a == [a[0]] + a[1..];
    }
  }

  // ---------------------------------------------------------------------------
  // parseInt (ECMA-262 section 19.2.5), radix argument absent

  /** Drops one leading `+` or `-`. */
  function DropSign(t: string): string {
    if |t| > 0 && (t[0] == '+' || t[0] == '-') then t[1..] else t
  }

  predicate HasHexPrefix(u: string) {
    |u| >= 2 && u[0] == '0' && (u[1] == 'x' || u[1] == 'X')
  }

  /**
   * Skips leading white space, reads an optional sign, switches to radix 16 after
   * `0x`/`0X`, and returns the value of the longest digit prefix; None is NaN.
   */
  function ParseInt(s: string): Option<int> {
    ParseSignedInt(TrimStart(s))
  }

  /** Steps 4 to 16 of parseInt, on the string without leading white space. */
  function ParseSignedInt(t: string): Option<int> {
    match ParseMagnitude(DropSign(t))
    case None => None
    case Some(v) => if StartsWith(t, '-') then Some(-(v as int)) else Some(v)
  }

  /** The value of the longest radix-10 (or, after `0x`, radix-16) digit prefix. */
  function ParseMagnitude(u: string): Option<nat> {
    var z := if HasHexPrefix(u) then LeadingDigits(u[2..], 16) else LeadingDigits(u, 10);
    if z == [] then None
    else Some(DigitsValue(z, if HasHexPrefix(u) then 16 else 10))
  }

  predicate StartsWith(s: string, c: char) {
    |s| > 0 && s[0] == c
  }

  lemma ParseIntAfterWhiteSpace(w: string, u: string)
    requires AllWhiteSpace(w)
    requires u == [] || !IsWhiteSpace(u[0])
    ensures ParseInt(w + u) == ParseSignedInt(u)
  {
    TrimStartAfterWhiteSpace(w, u);
  }

  lemma DecimalMagnitude10(ds: string, t: string)
    requires |ds| >= 1 && AllDecimalDigits(ds)
    requires t == [] || !IsDecimalDigit(t[0])
    requires !HasHexPrefix(ds + t)
    ensures ParseMagnitude(ds + t) == Some(DigitsValue(ds, 10))
  {
    assert forall i :: 0 <= i < |ds| ==> IsRadixDigit(ds[i], 10);
    LeadingDigitsOf(ds, t, 10);
  }

  /** Printing an integer and parsing it back is the identity. */
  lemma ParseIntOfIntToString(n: int)
    ensures ParseInt(IntToString(n)) == Some(n)
  {
    ParseIntOfIntToStringThen(n, []);
    assert IntToString(n) + [] == IntToString(n);
  }

  /**
   * An integer printed and followed by a non-digit is read back as the integer;
   * after `0` the tail must not start with `x` or `X`, which would make a hex prefix.
   */
  lemma ParseIntOfIntToStringThen(n: int, t: string)
    requires t == [] || (!IsDecimalDigit(t[0]) && (n == 0 ==> t[0] != 'x' && t[0] != 'X'))
    ensures ParseInt(IntToString(n) + t) == Some(n)
  {
    var m := if n < 0 then -n else n;
    IntToStringScan(n, t);
    DecimalNumeralMagnitude(m, t);
  }

  lemma IntToStringScan(n: int, t: string)
    ensures TrimStart(IntToString(n) + t) == IntToString(n) + t
    ensures StartsWith(IntToString(n) + t, '-') <==> n < 0
    ensures DropSign(IntToString(n) + t) == NatToDecimal(if n < 0 then -n else n) + t
  {
    var ds := NatToDecimal(if n < 0 then -n else n);
    assert IsDecimalDigit(ds[0]);
    if n < 0 {
      assert IntToString(n) + t == "-" + (ds + t);
      NotWhiteSpace("-" + (ds + t));
    } else {
      NotWhiteSpace(ds + t);
    }
  }

  lemma DecimalNumeralMagnitude(m: nat, t: string)
    requires t == [] || (!IsDecimalDigit(t[0]) && (m == 0 ==> t[0] != 'x' && t[0] != 'X'))
    ensures ParseMagnitude(NatToDecimal(m) + t) == Some(m)
  {
    var ds := NatToDecimal(m);
    assert !HasHexPrefix(ds + t) by {
      if |ds| >= 2 { assert IsDecimalDigit(ds[1]); }
      else if m != 0 { assert ds[0] != '0'; }
    }
    DecimalMagnitude10(ds, t);
    DecimalRoundTrip(m);
  }

  lemma NotWhiteSpace(s: string)
    requires s != [] && (s[0] == '-' || IsDecimalDigit(s[0]))
    ensures TrimStart(s) == s
  {
  }

  /** No digit after white space and the optional sign: parseInt is NaN. */
  lemma ParseIntWithoutDigits(s: string)
    requires var u := DropSign(TrimStart(s)); u == [] || !IsDecimalDigit(u[0])
    ensures ParseInt(s) == None
  {
    var u := DropSign(TrimStart(s));
    assert !HasHexPrefix(u);
    assert LeadingDigits(u, 10) == [];
  }

  /** A positive parseInt result needs a decimal digit right after white space and an optional `+`. */
  lemma ParseIntPositive(s: string)
    ensures ParseInt(s).Some? && ParseInt(s).value > 0 ==>
      var u := DropSign(TrimStart(s));
      !StartsWith(TrimStart(s), '-') && u != [] && IsDecimalDigit(u[0])
  {
    var u := DropSign(TrimStart(s));
    if u == [] || !IsDecimalDigit(u[0]) {
      ParseIntWithoutDigits(s);
    }
  }

  // ---------------------------------------------------------------------------
  // parseFloat (ECMA-262 section 19.2.4)

  /** A Number as far as the comparisons of the validators can tell. */
  datatype Number = NaN | Finite(value: real) | Infinity(negative: bool)

  function Pow10(n: nat): (r: real)
    ensures r >= 1.0
  {
    if n == 0 then 1.0 else 10.0 * Pow10(n - 1)
  }

  function ScaleByPow10(x: real, e: int): (r: real)
    ensures x >= 0.0 ==> r >= 0.0
    ensures x > 0.0 ==> r > 0.0
    ensures e == 0 ==> r == x
  {
    if e >= 0 then x * Pow10(e) else x / Pow10(-e)
  }

  /** The signed exponent of an ExponentPart at the start of `s`, or 0 when there is none. */
  function ExponentOf(s: string): int {
    if StartsWith(s, 'e') || StartsWith(s, 'E') then
      var t := s[1..];
      var ds := LeadingDigits(DropSign(t), 10);
      if ds == [] then 0
      else if StartsWith(t, '-') then -(DigitsValue(ds, 10) as int)
      else DigitsValue(ds, 10)
    else 0
  }

  predicate IsPrefix(p: string, s: string) {
    |p| <= |s| && s[..|p|] == p
  }

  /** The value of the digits after a decimal point. */
  function FractionValue(ds: string): (r: real)
    ensures r >= 0.0
    ensures ds == [] ==> r == 0.0
  {
    var d := Pow10(|ds|);
    var n := DigitsValue(ds, 10) as real;
    assert n / d >= 0.0 by {
      assert n >= 0.0 && d >= 1.0;
    }
    n / d
  }

  /** The magnitude of the decimal literal at the start of `u`, or None when it has no digits. */
  function DecimalMagnitude(u: string): (r: Option<real>)
    ensures r.Some? ==> r.value >= 0.0
    ensures LeadingDigits(u, 10) != [] ==> r.Some?
    ensures DigitsValue(LeadingDigits(u, 10), 10) > 0 ==> r.Some? && r.value > 0.0
  {
    var whole := LeadingDigits(u, 10);
    var rest := u[|whole|..];
    var hasPoint := StartsWith(rest, '.');
    var fraction := if hasPoint then LeadingDigits(rest[1..], 10) else [];
    if whole == [] && fraction == [] then None
    else
      var tail := if hasPoint then rest[1 + |fraction|..] else rest;
      var mantissa := DigitsValue(whole, 10) as real + FractionValue(fraction);
      Some(ScaleByPow10(mantissa, ExponentOf(tail)))
  }

  /**
   * Skips leading white space and reads the longest prefix that is a StrDecimalLiteral:
   * an optional sign, then `Infinity` or digits with an optional fraction and exponent.
   */
  function ParseFloat(s: string): Number {
    var t := TrimStart(s);
    SignedNumber(StartsWith(t, '-'), DropSign(t))
  }

  /** The number read from `u`, the text after the sign, negated when the sign was `-`. */
  function SignedNumber(negative: bool, u: string): Number {
    if IsPrefix("Infinity", u) then Infinity(negative)
    else
      match DecimalMagnitude(u)
      case None => NaN
      case Some(m) => Finite(if negative then -m else m)
  }

  /** A string of digits alone is read as the number it denotes. */
  lemma DecimalMagnitudeOfDigits(ds: string)
    requires ds != [] && AllDecimalDigits(ds)
    ensures DecimalMagnitude(ds) == Some(DigitsValue(ds, 10) as real)
  {
    assert LeadingDigits(ds, 10) == ds by {
      assert forall i :: 0 <= i < |ds| ==> IsRadixDigit(ds[i], 10);
      LeadingDigitsOf(ds, [], 10);
      assert ds + [] == ds;
    }
    assert ds[|ds|..] == [];
    assert ExponentOf([]) == 0;
  }

  /** Past white space and the sign, the text is read as what `DecimalMagnitude` reads. */
  lemma ParseFloatOfMagnitude(s: string, m: real)
    requires !StartsWith(TrimStart(s), '-')
    requires !IsPrefix("Infinity", DropSign(TrimStart(s)))
    requires DecimalMagnitude(DropSign(TrimStart(s))) == Some(m)
    ensures ParseFloat(s) == Finite(m)
  {
  }

  /** A non-negative integer numeral is read by parseFloat as its value. */
  lemma ParseFloatOfNatural(n: nat)
    ensures ParseFloat(NatToDecimal(n)) == Finite(n as real)
  {
    var ds := NatToDecimal(n);
    assert TrimStart(ds) == ds && DropSign(ds) == ds by {
      assert IsDecimalDigit(ds[0]);
      NotWhiteSpace(ds);
    }
    assert !IsPrefix("Infinity", ds) by {
      assert IsDecimalDigit(ds[0]);
    }
    assert DecimalMagnitude(ds) == Some(n as real) by {
      DecimalMagnitudeOfDigits(ds);
      DecimalRoundTrip(n);
    }
    ParseFloatOfMagnitude(ds, n as real);
  }

  /** No digit, point or `Infinity` after white space and the optional sign: parseFloat is NaN. */
  lemma ParseFloatWithoutDigits(s: string)
    requires var u := DropSign(TrimStart(s)); u == [] || (!IsDecimalDigit(u[0]) && u[0] != '.' && u[0] != 'I')
    ensures ParseFloat(s) == NaN
  {
    var t := TrimStart(s);
    SignedWithoutDigits(StartsWith(t, '-'), DropSign(t));
  }

  lemma SignedWithoutDigits(negative: bool, u: string)
    requires u == [] || (!IsDecimalDigit(u[0]) && u[0] != '.' && u[0] != 'I')
    ensures SignedNumber(negative, u) == NaN
  {
    assert !IsPrefix("Infinity", u);
    assert LeadingDigits(u, 10) == [];
    assert u[0..] == u;
  }

  /** A decimal digit after white space and an optional `+`: parseFloat reads a finite value of at least 0. */
  lemma ParseFloatOfDigits(s: string)
    requires !StartsWith(TrimStart(s), '-')
    requires var u := DropSign(TrimStart(s)); u != [] && IsDecimalDigit(u[0])
    ensures ParseFloat(s).Finite? && ParseFloat(s).value >= 0.0
  {
    SignedOfDigits(DropSign(TrimStart(s)));
  }

  lemma SignedOfDigits(u: string)
    requires u != [] && IsDecimalDigit(u[0])
    ensures SignedNumber(false, u).Finite? && SignedNumber(false, u).value >= 0.0
  {
    assert !IsPrefix("Infinity", u);
    assert LeadingDigits(u, 10) != [] by {
      assert IsRadixDigit(u[0], 10);
    }
  }

  /** A minus sign and digits of positive value: parseFloat reads a negative value. */
  lemma ParseFloatNegative(s: string)
    requires StartsWith(TrimStart(s), '-')
    requires DigitsValue(LeadingDigits(TrimStart(s)[1..], 10), 10) > 0
    ensures ParseFloat(s).Finite? && ParseFloat(s).value < 0.0
  {
    var u := DropSign(TrimStart(s));
    assert u == TrimStart(s)[1..];
    NegativeDigits(u);
  }

  lemma NegativeDigits(u: string)
    requires DigitsValue(LeadingDigits(u, 10), 10) > 0
    ensures SignedNumber(true, u).Finite? && SignedNumber(true, u).value < 0.0
  {
    assert !IsPrefix("Infinity", u) by {
      assert LeadingDigits(u, 10) != [];
      assert IsRadixDigit(u[0], 10);
    }
  }
}
