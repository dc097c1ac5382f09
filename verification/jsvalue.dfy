/** The JavaScript values a record field can hold (a string, `null` from a
    cancelled prompt, `undefined` from a missing CSV piece), their truthiness,
    and the `Number(...)` coercion that `isNaN` and `<`/`>` apply to them. */
module JsValue {
  import opened Wrappers

  datatype Value = Null | Undefined | Text(s: string)

  /** JavaScript truthiness of a string, `null` or `undefined`: only a
      non-empty string is truthy. */
  predicate Truthy(v: Value) {
    v.Text? && |v.s| > 0
  }

  /** `x || y`. */
  function Or(x: Value, y: Value): Value {
    if Truthy(x) then x else y
  }

  /** A JavaScript number: NaN, a finite value (kept exact, as a real) or an infinity. */
  datatype Number = NaN | Finite(v: real) | Infinite(negative: bool)

  /** White space and line terminators that `Number(...)` strips from both ends
      of a string (the WhiteSpace and LineTerminator productions of ECMA-262). */
  predicate IsJsSpace(c: char) {
    var n := c as int;
    n == 0x09 || n == 0x0A || n == 0x0B || n == 0x0C || n == 0x0D || n == 0x20 ||
    n == 0xA0 || n == 0x1680 || (0x2000 <= n <= 0x200A) || n == 0x2028 ||
    n == 0x2029 || n == 0x202F || n == 0x205F || n == 0x3000 || n == 0xFEFF
  }

  /** `s` without its leading white space. */
  function TrimStart(s: string): (r: string)
    ensures |r| <= |s|
    ensures |r| > 0 ==> !IsJsSpace(r[0])
  {
    if |s| > 0 && IsJsSpace(s[0]) then TrimStart(s[1..]) else s
  }

  /** `s` without its trailing white space. */
  function TrimEnd(s: string): (r: string)
    ensures |r| <= |s|
    ensures r == s[..|r|]
    ensures |r| > 0 ==> !IsJsSpace(r[|r| - 1])
  {
    if |s| > 0 && IsJsSpace(s[|s| - 1]) then TrimEnd(s[..|s| - 1]) else s
  }

  /** `s.trim()`. */
  function Trim(s: string): (r: string)
    ensures |r| <= |s|
    ensures |r| > 0 ==> !IsJsSpace(r[0]) && !IsJsSpace(r[|r| - 1])
  {
    TrimEnd(TrimStart(s))
  }

  /** The value of a digit character in bases up to 36; 36 for any other character. */
  function DigitValue(c: char): (r: nat)
    ensures r <= 36
  {
    if '0' <= c <= '9' then c as int - '0' as int
    else if 'a' <= c <= 'z' then c as int - 'a' as int + 10
    else if 'A' <= c <= 'Z' then c as int - 'A' as int + 10
    else 36
  }

  predicate AllDigits(s: string, radix: nat) {
    forall i :: 0 <= i < |s| ==> DigitValue(s[i]) < radix
  }

  /** The value of a digit string read in base `radix`, most significant digit first. */
  function DigitsValue(s: string, radix: nat): nat
    requires AllDigits(s, radix)
  {
    if |s| == 0 then 0
    else DigitsValue(s[..|s| - 1], radix) * radix + DigitValue(s[|s| - 1])
  }

  /** The length of the run of decimal digits at the start of `s`. */
  function LeadingDigits(s: string): (n: nat)
    ensures n <= |s|
    ensures AllDigits(s[..n], 10)
    ensures n < |s| ==> DigitValue(s[n]) >= 10
  {
    if |s| > 0 && DigitValue(s[0]) < 10 then
      var n := 1 + LeadingDigits(s[1..]);
      assert forall i :: 1 <= i < n ==> s[..n][i] == s[1..][..n - 1][i - 1];
      n
    else 0
  }

  function Pow10(e: nat): (r: nat)
    ensures r >= 1
  {
    if e == 0 then 1 else 10 * Pow10(e - 1)
  }

  /** `m` times ten to the power `e`. */
  function Scale(m: real, e: int): real {
    if e >= 0 then m * Pow10(e) as real else m / Pow10(-e) as real
  }

  /** The exponent part of a decimal literal (`e` or `E`, an optional sign and
      at least one digit); the empty string is exponent 0; anything else is not
      an exponent part. */
  function ExponentOf(t: string): Option<int> {
    if |t| == 0 then Some(0)
    else if t[0] != 'e' && t[0] != 'E' then None
    else
      var w := t[1..];
      var negative := |w| > 0 && w[0] == '-';
      var ds := if |w| > 0 && (w[0] == '-' || w[0] == '+') then w[1..] else w;
      if |ds| == 0 || !AllDigits(ds, 10) then None
      else if negative then Some(-(DigitsValue(ds, 10) as int))
      else Some(DigitsValue(ds, 10))
  }

  /** An unsigned decimal literal: `Infinity`, or digits with an optional
      fraction and exponent, at least one digit before the exponent. */
  function UnsignedDecimal(u: string): Number {
    if u == "Infinity" then Infinite(false)
    else
      var i := LeadingDigits(u);
      var intPart := u[..i];
      var afterInt := u[i..];
      var hasDot := |afterInt| > 0 && afterInt[0] == '.';
      var afterDot := if hasDot then afterInt[1..] else afterInt;
      var j := if hasDot then LeadingDigits(afterDot) else 0;
      var frac := afterDot[..j];
      if |intPart| + |frac| == 0 then NaN
      else
        match ExponentOf(afterDot[j..])
        case None => NaN
        case Some(e) => Finite(Scale(DigitsValue(intPart + frac, 10) as real, e - |frac|))
  }

  function Negate(n: Number): Number {
    match n
    case NaN => NaN
    case Finite(v) => Finite(-v)
    case Infinite(neg) => Infinite(!neg)
  }

  /** `0x`, `0o` or `0b` digits: at least one digit of the base. */
  function NonDecimal(ds: string, radix: nat): Number {
    if |ds| > 0 && AllDigits(ds, radix) then Finite(DigitsValue(ds, radix) as real) else NaN
  }

  /** `Number(s)` for a string: the StringToNumber conversion of ECMA-262
      section 7.1.4.1.1, computed exactly (binary64 rounding is not modelled). */
  function StringToNumber(s: string): Number {
    var t := Trim(s);
    if |t| == 0 then Finite(0.0)
    else if |t| >= 2 && t[0] == '0' && (t[1] == 'x' || t[1] == 'X') then NonDecimal(t[2..], 16)
    else if |t| >= 2 && t[0] == '0' && (t[1] == 'o' || t[1] == 'O') then NonDecimal(t[2..], 8)
    else if |t| >= 2 && t[0] == '0' && (t[1] == 'b' || t[1] == 'B') then NonDecimal(t[2..], 2)
    else if t[0] == '+' then UnsignedDecimal(t[1..])
    else if t[0] == '-' then Negate(UnsignedDecimal(t[1..]))
    else UnsignedDecimal(t)
  }

  /** `Number(v)`: `null` is 0, `undefined` is NaN, a string is parsed. */
  function ToNumber(v: Value): Number {
    match v
    case Null => Finite(0.0)
    case Undefined => NaN
    case Text(s) => StringToNumber(s)
  }

  /** The global `isNaN(v)`. */
  predicate IsNaN(v: Value) {
    ToNumber(v).NaN?
  }

  /** `v < n` for a number literal `n`: a numeric comparison, false on NaN. */
  predicate LessThan(v: Value, n: int) {
    match ToNumber(v)
    case NaN => false
    case Finite(x) => x < n as real
    case Infinite(neg) => neg
  }

  /** `v > n` for a number literal `n`: a numeric comparison, false on NaN. */
  predicate GreaterThan(v: Value, n: int) {
    match ToNumber(v)
    case NaN => false
    case Finite(x) => x > n as real
    case Infinite(neg) => !neg
  }

  /** `v` converts to a finite number between `lo` and `hi` inclusive. */
  predicate NumberBetween(v: Value, lo: int, hi: int) {
    ToNumber(v).Finite? && lo as real <= ToNumber(v).v <= hi as real
  }

  /** The JavaScript guard `isNaN(v) || v < lo || v > hi` rejects exactly the
      values that do not convert to a finite number in `[lo, hi]`. */
  lemma RangeGuard(v: Value, lo: int, hi: int)
    requires lo <= hi
    ensures !(IsNaN(v) || LessThan(v, lo) || GreaterThan(v, hi)) <==> NumberBetween(v, lo, hi)
  {
  }

  /** The decimal digits of `n`, without leading zeros. */
  function DecimalString(n: nat): (s: string)
    ensures |s| > 0
    ensures AllDigits(s, 10)
    ensures |s| > 1 ==> s[0] != '0'
  {
    var d := ['0' + (n % 10) as char];
    if n < 10 then d else DecimalString(n / 10) + d
  }

  lemma {:induction false} DecimalStringValue(n: nat)
    ensures DigitsValue(DecimalString(n), 10) == n
  {
    if n >= 10 {
      DecimalStringValue(n / 10);
      var s := DecimalString(n);
      assert s[..|s| - 1] == DecimalString(n / 10);
    }
  }

  lemma {:induction false} TrimDigits(s: string)
    requires |s| > 0 && AllDigits(s, 10)
    ensures Trim(s) == s
  {
    assert TrimStart(s) == s;
    assert TrimEnd(s) == s;
  }

  lemma {:induction false} LeadingDigitsAll(s: string)
    requires AllDigits(s, 10)
    ensures LeadingDigits(s) == |s|
  {
    if |s| > 0 {
      LeadingDigitsAll(s[1..]);
    }
  }

  /** A non-empty digit string is a decimal literal without fraction or exponent. */
  lemma {:induction false} UnsignedDecimalOfDigits(s: string)
    requires |s| > 0 && AllDigits(s, 10)
    ensures UnsignedDecimal(s) == Finite(DigitsValue(s, 10) as real)
  {
    LeadingDigitsAll(s);
    assert s != "Infinity" by {
      assert DigitValue(s[0]) < 10;
    }
    assert s[..|s|] == s;
    assert s[|s|..] == "";
    assert ExponentOf("") == Some(0);
    assert s + "" == s;
    assert Scale(DigitsValue(s, 10) as real, 0) == DigitsValue(s, 10) as real;
  }

  /** A digit string takes the unsigned-decimal branch of `StringToNumber`. */
  lemma DigitStringIsDecimal(s: string)
    requires |s| > 0 && AllDigits(s, 10)
    ensures StringToNumber(s) == UnsignedDecimal(s)
  {
    TrimDigits(s);
    var t := Trim(s);
    assert DigitValue(t[0]) < 10;
    assert t[0] != '+' && t[0] != '-';
    if |t| >= 2 {
      assert DigitValue(t[1]) < 10;
      assert t[1] != 'x' && t[1] != 'X' && t[1] != 'o' && t[1] != 'O' && t[1] != 'b' && t[1] != 'B';
    }
  }

  /** A non-empty string of decimal digits reads as its decimal value. */
  lemma DigitStringNumber(s: string)
    requires |s| > 0 && AllDigits(s, 10)
    ensures ToNumber(Text(s)) == Finite(DigitsValue(s, 10) as real)
  {
    DigitStringIsDecimal(s);
    UnsignedDecimalOfDigits(s);
  }

  /** `Number` reads back the decimal spelling of every natural number. */
  lemma NumberOfDecimal(n: nat)
    ensures ToNumber(Text(DecimalString(n))) == Finite(n as real)
  {
    DecimalStringValue(n);
    DigitStringNumber(DecimalString(n));
  }

  /** `Number(null)` is 0, so `isNaN(null)` is false. */
  lemma NullIsZero()
    ensures !IsNaN(Null) && ToNumber(Null) == Finite(0.0)
  {
  }

  /** A string of white space only (in particular the empty string) reads as 0. */
  lemma {:induction false} BlankIsZero(s: string)
    requires forall i :: 0 <= i < |s| ==> IsJsSpace(s[i])
    ensures ToNumber(Text(s)) == Finite(0.0)
  {
    BlankTrimsAway(s);
  }

  lemma {:induction false} BlankTrimsAway(s: string)
    requires forall i :: 0 <= i < |s| ==> IsJsSpace(s[i])
    ensures TrimStart(s) == ""
  {
    if |s| > 0 {
      assert forall i :: 0 <= i < |s[1..]| ==> s[1..][i] == s[i + 1];
      BlankTrimsAway(s[1..]);
    }
  }
}
