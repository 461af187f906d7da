/** The JavaScript number conversions the page-range parsers use:
    `parseInt(s, 10)`, `Number(s)` and `String(x)`. */
module JsNumber {
  import opened Wrappers
  import opened JsText

  /** A JavaScript number as the parsers can produce it. A finite value is kept
      exactly, as `mantissa * 10^exponent`. */
  datatype JsNum = NaN | PosInfinity | NegInfinity | Finite(mantissa: int, exponent: int)

  function Pow10(k: nat): (r: nat)
    ensures r >= 1
  {
    if k == 0 then 1 else 10 * Pow10(k - 1)
  }

  /** The exact value of a finite number. */
  function Value(x: JsNum): real
    requires x.Finite?
  {
    if x.exponent >= 0 then (x.mantissa * Pow10(x.exponent)) as real
    else x.mantissa as real / Pow10(-x.exponent) as real
  }

  /** An integer as a JavaScript number. */
  function FromInt(i: int): (x: JsNum)
    ensures x.Finite? && Value(x) == i as real
  {
    Finite(i, 0)
  }

  /** `a < b`; false whenever either side is NaN. */
  predicate Less(a: JsNum, b: JsNum) {
    match (a, b)
    case (NaN, _) => false
    case (_, NaN) => false
    case (NegInfinity, _) => !b.NegInfinity?
    case (_, NegInfinity) => false
    case (PosInfinity, _) => false
    case (_, PosInfinity) => true
    case (Finite(_, _), Finite(_, _)) => Value(a) < Value(b)
  }

  /** On integers, `Less` is the order of the integers. */
  lemma LessIntegers(i: int, j: int)
    ensures Less(FromInt(i), FromInt(j)) <==> i < j
  {
  }

  // ---------------------------------------------------------------- parseInt

  /** `parseInt(s, 10)`: skips leading white space, takes an optional sign and
      the longest run of decimal digits after it, and ignores whatever follows;
      `None` stands for NaN (no digit at all, as for `""` or `"abc"`). */
  function ParseInt(s: string): Option<int> {
    var t := TrimStart(s);
    var signed := t != [] && (t[0] == '+' || t[0] == '-');
    var u := if signed then t[1..] else t;
    var n := LeadingDigits(u);
    if n == 0 then None
    else if signed && t[0] == '-' then Some(-(DecimalValue(u[..n]) as int))
    else Some(DecimalValue(u[..n]))
  }

  /** A run of digits followed by a non-digit is read up to the non-digit. */
  lemma {:induction false} LeadingDigitsOfNumeral(d: string, rest: string)
    requires AllDigits(d)
    requires rest == [] || !IsDigit(rest[0])
    ensures LeadingDigits(d + rest) == |d|
    decreases |d|
  {
    if d != [] {
      assert (d + rest)[1..] == d[1..] + rest;
      LeadingDigitsOfNumeral(d[1..], rest);
    }
  }

  /** Text that starts with a digit is read by `parseInt` as its leading
      digits. */
  lemma ParseIntOfDigitFirst(s: string)
    requires s != [] && IsDigit(s[0])
    ensures LeadingDigits(s) >= 1
    ensures ParseInt(s) == Some(DecimalValue(s[..LeadingDigits(s)]))
  {
    TrimStartOfNonSpace(s);
  }

  /** A run of digits followed by a non-digit: `parseInt` reads the run. */
  lemma ParseIntOfNumeral(d: string, rest: string)
    requires d != [] && AllDigits(d)
    requires rest == [] || !IsDigit(rest[0])
    ensures ParseInt(d + rest) == Some(DecimalValue(d))
  {
    var s := d + rest;
    assert s[0] == d[0];
    ParseIntOfDigitFirst(s);
    LeadingDigitsOfNumeral(d, rest);
    assert s[..|d|] == d;
  }

  /** `parseInt` reads the numeral at the start of a string and ignores any
      text after it: `parseInt("12abc", 10)` is 12. */
  lemma ParseIntReadsNumeralPrefix(n: nat, rest: string)
    requires rest == [] || !IsDigit(rest[0])
    ensures ParseInt(NatToString(n) + rest) == Some(n)
  {
    ParseIntOfNumeral(NatToString(n), rest);
    DecimalValueOfNatToString(n);
  }

  /** A run of decimal digits, trimmed and read by `parseInt`, is its decimal
      value (leading zeros included: `"007"` reads as 7). */
  lemma ParseIntOfDigits(d: string)
    requires d != [] && AllDigits(d)
    ensures Trim(d) == d
    ensures ParseInt(Trim(d)) == Some(DecimalValue(d))
  {
    TrimOfNoSpace(d);
    ParseIntOfNumeral(d, "");
    assert d + "" == d;
  }

  // ------------------------------------------------------------------ Number

  /** The value of a hexadecimal, octal or binary digit. */
  function DigitValue(c: char): nat {
    if '0' <= c <= '9' then c as int - '0' as int
    else if 'a' <= c <= 'f' then c as int - 'a' as int + 10
    else if 'A' <= c <= 'F' then c as int - 'A' as int + 10
    else 16
  }

  /** The digits of `s` read in base `radix`; `None` when some character is not
      a digit of that base. */
  function RadixValue(s: string, radix: nat): Option<nat>
    decreases |s|
  {
    if s == [] then Some(0)
    else
      var d := DigitValue(s[|s| - 1]);
      match RadixValue(s[..|s| - 1], radix)
      case None => None
      case Some(v) => if d < radix then Some(v * radix + d) else None
  }

  /** The digits after `0x`, `0o` or `0b`: at least one, all of the base. */
  function NonDecimalInteger(digits: string, radix: nat): JsNum {
    if digits == [] then NaN
    else match RadixValue(digits, radix)
      case None => NaN
      case Some(v) => Finite(v, 0)
  }

  /** An optional exponent part `e[+|-]digits` ending the literal; `None` when
      the text is anything else. */
  function ExponentPart(s: string): Option<int> {
    if s == [] then Some(0)
    else if s[0] != 'e' && s[0] != 'E' then None
    else
      var t := s[1..];
      var d := if t != [] && (t[0] == '+' || t[0] == '-') then t[1..] else t;
      if d == [] || !AllDigits(d) then None
      else if t[0] == '-' then Some(-(DecimalValue(d) as int))
      else Some(DecimalValue(d))
  }

  /** An unsigned decimal literal other than `Infinity`: digits, optionally a
      point and more digits, optionally an exponent, with at least one digit
      before the exponent; the result is its mantissa and exponent. */
  function UnsignedDecimal(s: string): Option<(nat, int)> {
    var i := LeadingDigits(s);
    var whole := s[..i];
    var afterWhole := s[i..];
    var hasPoint := afterWhole != [] && afterWhole[0] == '.';
    var afterPoint := if hasPoint then afterWhole[1..] else afterWhole;
    var j := if hasPoint then LeadingDigits(afterPoint) else 0;
    var fraction := afterPoint[..j];
    if whole == [] && fraction == [] then None
    else
      assert AllDigits(whole + fraction);
      match ExponentPart(afterPoint[j..])
      case None => None
      case Some(e) => Some((DecimalValue(whole + fraction), e - |fraction|))
  }

  /** `Number(s)`: the whole string, trimmed, must be a numeric literal. Blank
      text is 0; `0x`, `0o` and `0b` introduce unsigned integers in base 16, 8
      and 2; otherwise an optional sign precedes `Infinity` or a decimal
      literal. Anything else is NaN. */
  function StringToNumber(s: string): JsNum {
    var t := Trim(s);
    if t == [] then Finite(0, 0)
    else if |t| >= 2 && t[0] == '0' && (t[1] == 'x' || t[1] == 'X') then NonDecimalInteger(t[2..], 16)
    else if |t| >= 2 && t[0] == '0' && (t[1] == 'o' || t[1] == 'O') then NonDecimalInteger(t[2..], 8)
    else if |t| >= 2 && t[0] == '0' && (t[1] == 'b' || t[1] == 'B') then NonDecimalInteger(t[2..], 2)
    else
      var negative := t[0] == '-';
      var u := if t[0] == '+' || t[0] == '-' then t[1..] else t;
      if u == "Infinity" then (if negative then NegInfinity else PosInfinity)
      else match UnsignedDecimal(u)
        case None => NaN
        case Some((m, e)) => Finite(if negative then -(m as int) else m, e)
  }

  /** `Number` of blank text is 0, where `parseInt` gives NaN. */
  lemma BlankIsZero(s: string)
    requires forall i :: 0 <= i < |s| ==> IsJsSpace(s[i])
    ensures StringToNumber(s) == Finite(0, 0)
    ensures ParseInt(s) == None
  {
    assert TrimStart(s) == [];
  }

  /** A plain run of digits is an unsigned decimal literal with exponent 0. */
  lemma UnsignedDecimalOfDigits(d: string)
    requires d != [] && AllDigits(d)
    ensures UnsignedDecimal(d) == Some((DecimalValue(d), 0))
  {
    LeadingDigitsOfNumeral(d, "");
    assert d + "" == d && d[..|d|] == d && d[|d|..] == "";
  }

  /** `Number` reads a run of digits as its value, leading zeros included. */
  lemma NumberOfDigits(d: string)
    requires d != [] && AllDigits(d)
    ensures StringToNumber(d) == Finite(DecimalValue(d), 0)
  {
    assert forall i :: 0 <= i < |d| ==> !IsJsSpace(d[i]);
    assert IsDigit(d[0]);
    if |d| >= 2 { assert IsDigit(d[1]); }
    NumberOfDigitFirst(d);
    UnsignedDecimalOfDigits(d);
  }

  /** `Number` reads a plain numeral as its value. */
  lemma NumberOfNumeral(n: nat)
    ensures StringToNumber(NatToString(n)) == Finite(n, 0)
  {
    NumberOfDigits(NatToString(n));
    DecimalValueOfNatToString(n);
  }

  /** A digit run then a character that can neither continue it nor start
      an exponent or a fraction is not an unsigned decimal literal. */
  lemma UnsignedDecimalRejectsTrailer(d: string, c: char)
    requires d != [] && AllDigits(d)
    requires !IsDigit(c) && c != '.' && c != 'e' && c != 'E'
    ensures UnsignedDecimal(d + [c]) == None
  {
    var s := d + [c];
    LeadingDigitsOfNumeral(d, [c]);
    assert s[..|d|] == d && s[|d|..] == [c];
  }

  /** Text of no white space that starts with a digit and not with a radix
      prefix is read by `Number` as an unsigned decimal literal. */
  lemma NumberOfDigitFirst(t: string)
    requires t != [] && IsDigit(t[0])
    requires forall i :: 0 <= i < |t| ==> !IsJsSpace(t[i])
    requires !(|t| >= 2 && t[0] == '0' && t[1] in "xXoObB")
    ensures StringToNumber(t) ==
      match UnsignedDecimal(t)
      case None => NaN
      case Some((m, e)) => Finite(m, e)
  {
    TrimOfNoSpace(t);
    assert t != "Infinity";
  }

  /** A radix prefix with no digits after it is NaN. */
  lemma NumberOfBarePrefix(c: char)
    requires c in "xXoObB"
    ensures StringToNumber(['0', c]) == NaN
  {
    TrimOfNoSpace(['0', c]);
    assert ['0', c][2..] == [];
  }

  /** `Number` of a digit run followed by such a character is NaN. */
  lemma NumberOfDigitsThen(d: string, c: char)
    requires d != [] && AllDigits(d)
    requires !IsDigit(c) && !IsJsSpace(c) && c != '.' && c != 'e' && c != 'E'
    ensures StringToNumber(d + [c]) == NaN
  {
    var s := d + [c];
    if |d| == 1 && d[0] == '0' && c in "xXoObB" {
      assert s == ['0', c];
      NumberOfBarePrefix(c);
    } else {
      forall i | 0 <= i < |s| ensures !IsJsSpace(s[i]) {
        if i < |d| { assert s[i] == d[i]; }
      }
      assert s[0] == d[0];
      if |d| >= 2 { assert s[1] == d[1]; }
      NumberOfDigitFirst(s);
      UnsignedDecimalRejectsTrailer(d, c);
    }
  }

  /** Where `parseInt` ignores text after a numeral, `Number` rejects it:
      `parseInt("3x", 10)` is 3 but `Number("3x")` is NaN. */
  lemma NumberRejectsTrailingText(n: nat, c: char)
    requires !IsDigit(c) && !IsJsSpace(c) && c != '.' && c != 'e' && c != 'E'
    ensures ParseInt(NatToString(n) + [c]) == Some(n)
    ensures StringToNumber(NatToString(n) + [c]) == NaN
  {
    ParseIntReadsNumeralPrefix(n, [c]);
    NumberOfDigitsThen(NatToString(n), c);
  }

  // ---------------------------------------------------------------- toString

  /** Drops the trailing zeros of a positive mantissa, raising the exponent. */
  function Normalize(m: nat, e: int): (r: (nat, int))
    requires m > 0
    ensures r.0 > 0 && r.0 % 10 != 0 && r.1 >= e
    ensures r.0 * Pow10(r.1 - e) == m
    decreases m
  {
    if m % 10 == 0 then
      var r := Normalize(m / 10, e + 1);
      assert Pow10(r.1 - e) == 10 * Pow10(r.1 - (e + 1));
      r
    else (m, e)
  }

  function Zeros(k: nat): (r: string)
    ensures |r| == k && forall i :: 0 <= i < k ==> r[i] == '0'
  {
    seq(k, _ => '0')
  }

  /** `String(x)` for a positive `m * 10^e`: with `s` the digits of the
      mantissa stripped of trailing zeros and `n` the position of the decimal
      point relative to them, plain notation for `-6 < n <= 21`, exponential
      notation otherwise. */
  function PositiveToString(m: nat, e: int): string
    requires m > 0
  {
    var (s, e0) := Normalize(m, e);
    var digits := NatToString(s);
    var k := |digits|;
    var n := k + e0;
    if k <= n <= 21 then digits + Zeros(n - k)
    else if 0 < n <= 21 then digits[..n] + "." + digits[n..]
    else if -6 < n <= 0 then "0." + Zeros(-n) + digits
    else
      var exp := n - 1;
      var expText := if exp >= 0 then "+" + NatToString(exp) else "-" + NatToString(-exp);
      if k == 1 then digits + "e" + expText
      else digits[..1] + "." + digits[1..] + "e" + expText
  }

  /** `String(x)` for a JavaScript number. */
  function NumberToString(x: JsNum): string {
    match x
    case NaN => "NaN"
    case PosInfinity => "Infinity"
    case NegInfinity => "-Infinity"
    case Finite(m, e) =>
      if m == 0 then "0"
      else if m < 0 then "-" + PositiveToString(-m, e)
      else PositiveToString(m, e)
  }

  /** Ten times a positive number is written as the number then `0`. */
  lemma NatToStringTimes10(m: nat)
    requires m > 0
    ensures NatToString(m * 10) == NatToString(m) + "0"
  {
    var k := m * 10;
    assert k >= 10 && k / 10 == m && k % 10 == 0;
  }

  lemma Pow10Step(s: nat, z: nat)
    requires z > 0
    ensures s * Pow10(z) == (s * Pow10(z - 1)) * 10
    ensures s > 0 ==> s * Pow10(z - 1) > 0
  {
    var p := Pow10(z - 1);
    assert Pow10(z) == 10 * p;
    assert s * (10 * p) == (s * p) * 10;
    if s > 0 {
      assert s * p >= s;
    }
  }

  /** Appending zero digits multiplies by a power of ten. */
  lemma {:induction false} NatToStringTimesPow10(s: nat, z: nat)
    requires s > 0
    ensures NatToString(s * Pow10(z)) == NatToString(s) + Zeros(z)
    decreases z
  {
    if z > 0 {
      NatToStringTimesPow10(s, z - 1);
      Pow10Step(s, z);
      NatToStringTimes10(s * Pow10(z - 1));
      assert Zeros(z) == Zeros(z - 1) + "0";
    }
  }

  /** A number below `10^k` has at most `k` digits. */
  lemma {:induction false} NatToStringLength(n: nat, k: nat)
    requires n < Pow10(k)
    ensures |NatToString(n)| <= k || (n == 0 && k == 0)
    decreases k
  {
    if n >= 10 {
      NatToStringLength(n / 10, k - 1);
    }
  }

  /** A positive integer of at most 21 digits is written as its numeral. */
  lemma PositiveIntegerToString(m: nat)
    requires m > 0 && |NatToString(m)| <= 21
    ensures PositiveToString(m, 0) == NatToString(m)
  {
    var (s, e0) := Normalize(m, 0);
    NatToStringTimesPow10(s, e0);
    assert NatToString(m) == NatToString(s) + Zeros(e0);
  }

  /** Integers below `10^21` in magnitude are written as their plain decimal
      numeral, as `String(n)` does in JavaScript. */
  lemma IntegerToString(i: int)
    requires -(Pow10(21) as int) < i < Pow10(21)
    ensures NumberToString(FromInt(i)) == IntToString(i)
  {
    if i > 0 {
      NatToStringLength(i, 21);
      PositiveIntegerToString(i);
      assert NumberToString(Finite(i, 0)) == PositiveToString(i, 0);
    } else if i < 0 {
      NatToStringLength(-i, 21);
      PositiveIntegerToString(-i);
      assert NumberToString(Finite(i, 0)) == "-" + PositiveToString(-i, 0);
    }
  }
}
