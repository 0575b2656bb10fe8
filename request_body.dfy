/** Values of a JSON request body or of a form row, with the two readings the
    code puts on them: JavaScript truthiness and `?.length` (the front-end
    forms), and express-validator's string form with its checks (the request
    validators). A field that is missing is `None`. */
module RequestBody {
  import opened Common

  /** A JSON value; non-integral numbers, arrays and objects are not part of
      this model. */
  datatype Value = JStr(s: string) | JNum(n: int) | JBool(b: bool) | JNull

  /** JavaScript truthiness of a possibly undefined field. */
  predicate Truthy(v: Option<Value>)
  {
    match v
    case None => false
    case Some(JStr(s)) => s != ""
    case Some(JNum(n)) => n != 0
    case Some(JBool(b)) => b
    case Some(JNull) => false
  }

  /** `!!value?.length`: only a non-empty string has a truthy length. */
  predicate HasLength(v: Option<Value>)
  {
    v.Some? && v.value.JStr? && |v.value.s| > 0
  }

  predicate IsDigit(c: char)
  {
    '0' <= c <= '9'
  }

  predicate AllDigits(s: string)
  {
    forall i :: 0 <= i < |s| ==> IsDigit(s[i])
  }

  function Digit(d: nat): (c: char)
    requires d < 10
    ensures IsDigit(c) && c as int - '0' as int == d
  {
    (d + '0' as int) as char
  }

  /** Decimal notation of a natural number, without leading zeros. */
  function NatDecimal(n: nat): (s: string)
    ensures |s| > 0 && AllDigits(s)
    ensures n >= 10 ==> |s| >= 2
    ensures n > 0 ==> s[0] != '0'
    ensures |s| > 1 ==> s[0] != '0'
  {
    if n < 10 then [Digit(n)] else NatDecimal(n / 10) + [Digit(n % 10)]
  }

  /** JavaScript's `String(n)` for an integer. */
  function Decimal(n: int): string
  {
    if n < 0 then "-" + NatDecimal(-n) else NatDecimal(n)
  }

  /** A decimal starts with a digit or a minus sign. */
  lemma DecimalHead(n: int)
    ensures Decimal(n) != [] && (Decimal(n)[0] == '-' || IsDigit(Decimal(n)[0]))
  {
  }

  /** The value of a string of decimal digits. */
  function DigitsValue(s: string): nat
    requires AllDigits(s)
  {
    if s == [] then 0 else DigitsValue(s[..|s| - 1]) * 10 + (s[|s| - 1] as int - '0' as int)
  }

  /** The integer read by validator.js's `isInt` (`/^[-+]?[0-9]+$/`), if the
      string has that shape. */
  function ParseInt(s: string): (r: Option<int>)
    ensures r.Some? <==> (s != [] && AllDigits(s)) || (|s| > 1 && s[0] in "+-" && AllDigits(s[1..]))
    ensures s != [] && AllDigits(s) ==> r == Some(DigitsValue(s))
    ensures |s| > 1 && s[0] == '+' && AllDigits(s[1..]) ==> r == Some(DigitsValue(s[1..]))
    ensures |s| > 1 && s[0] == '-' && AllDigits(s[1..]) ==> r == Some(-(DigitsValue(s[1..]) as int))
  {
    if s != [] && (s[0] == '-' || s[0] == '+') then
      var rest := s[1..];
      if rest != [] && AllDigits(rest) then
        var v: int := DigitsValue(rest);
        Some(if s[0] == '-' then -v else v)
      else None
    else if s != [] && AllDigits(s) then Some(DigitsValue(s))
    else None
  }

  lemma {:induction false} NatDecimalRoundTrip(n: nat)
    ensures DigitsValue(NatDecimal(n)) == n
  {
    if n >= 10 {
      var s := NatDecimal(n);
      assert s[..|s| - 1] == NatDecimal(n / 10);
      NatDecimalRoundTrip(n / 10);
    }
  }

  /** Reading back the decimal form of an integer gives the integer. */
  lemma DecimalRoundTrip(n: int)
    ensures ParseInt(Decimal(n)) == Some(n)
  {
    if n < 0 {
      var digits := NatDecimal(-n);
      NatDecimalRoundTrip(-n);
      assert Decimal(n) == "-" + digits;
      assert ("-" + digits)[1..] == digits;
    } else {
      var digits := NatDecimal(n);
      NatDecimalRoundTrip(n);
      assert IsDigit(digits[0]);
    }
  }

  /** express-validator's string form of a field: missing and null read as
      the empty string. */
  function ToStr(v: Option<Value>): string
  {
    match v
    case None => ""
    case Some(JStr(s)) => s
    case Some(JNum(n)) => Decimal(n)
    case Some(JBool(b)) => if b then "true" else "false"
    case Some(JNull) => ""
  }

  /** Mongoose's cast of a String path: scalars become their string form, a
      null or missing value stays unset. */
  function StringCast(v: Option<Value>): (r: Option<string>)
    ensures r.Some? <==> v.Some? && !v.value.JNull?
    ensures r.Some? ==> r.value == ToStr(v)
  {
    match v
    case None => None
    case Some(JNull) => None
    case Some(_) => Some(ToStr(v))
  }

  /** `.notEmpty()` */
  predicate NotEmpty(v: Option<Value>)
  {
    ToStr(v) != ""
  }

  /** `.isString()` */
  predicate IsString(v: Option<Value>)
  {
    v.Some? && v.value.JStr?
  }

  /** `.isIn(options)`: compared as strings. */
  predicate IsIn(v: Option<Value>, options: seq<string>)
  {
    ToStr(v) in options
  }

  /** `.isInt({ min })` */
  predicate IsIntAtLeast(v: Option<Value>, min: int)
  {
    var r := ParseInt(ToStr(v));
    r.Some? && r.value >= min
  }

  /** A number passes `.isIn` exactly when it is one of the listed numbers. */
  lemma NumberIsIn(n: int, options: seq<int>)
    ensures IsIn(Some(JNum(n)), DecimalsOf(options)) <==> n in options
  {
    if IsIn(Some(JNum(n)), DecimalsOf(options)) {
      var k :| 0 <= k < |options| && Decimal(n) == Decimal(options[k]);
      DecimalRoundTrip(n);
      DecimalRoundTrip(options[k]);
    }
    if n in options {
      var k :| 0 <= k < |options| && options[k] == n;
      assert DecimalsOf(options)[k] == Decimal(n);
    }
  }

  /** The string forms of a list of numbers, as `isIn` compares them. */
  function DecimalsOf(ns: seq<int>): (r: seq<string>)
    ensures |r| == |ns| && forall i :: 0 <= i < |ns| ==> r[i] == Decimal(ns[i])
  {
    if ns == [] then [] else [Decimal(ns[0])] + DecimalsOf(ns[1..])
  }

  /** A number passes `isInt({ min })` exactly when it is at least min. */
  lemma NumberIsIntAtLeast(n: int, min: int)
    ensures IsIntAtLeast(Some(JNum(n)), min) <==> n >= min
  {
    DecimalRoundTrip(n);
  }
}
