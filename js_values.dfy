/** The values a request carries (bodies, decoded responses, query-parameter
    values) and JavaScript's conversion of a value to a string, which
    `URLSearchParams.append` applies to every parameter value. */
module JsValues {

  /** A JSON-like JavaScript value. Numbers are integers here. */
  datatype Json =
    | Null
    | Bool(b: bool)
    | Number(n: int)
    | Str(s: string)
    | Array(items: seq<Json>)
    | Object(members: seq<(string, Json)>)

  predicate IsDigit(c: char) { '0' <= c <= '9' }

  function Digit(d: int): (c: char)
    requires 0 <= d < 10
    ensures IsDigit(c) && c as int - '0' as int == d
  {
    ('0' as int + d) as char
  }

  /** The shortest decimal numeral of `n`, as JavaScript prints an integer. */
  function NatToDecimal(n: nat): (s: string)
    ensures |s| >= 1
    ensures forall i :: 0 <= i < |s| ==> IsDigit(s[i])
    ensures s[0] == '0' ==> n == 0
  {
    if n < 10 then [Digit(n)] else NatToDecimal(n / 10) + [Digit(n % 10)]
  }

  /** The number a string of decimal digits denotes: the reference the
      numeral is checked against. */
  function DecimalValue(s: string): nat
    requires forall i :: 0 <= i < |s| ==> IsDigit(s[i])
  {
    if s == [] then 0
    else
      assert IsDigit(s[|s| - 1]);
      DecimalValue(s[..|s| - 1]) * 10 + (s[|s| - 1] as int - '0' as int)
  }

  lemma {:induction false} DecimalRoundTrip(n: nat)
    ensures DecimalValue(NatToDecimal(n)) == n
  {
    if n >= 10 {
      var s := NatToDecimal(n);
      assert s[..|s| - 1] == NatToDecimal(n / 10);
      DecimalRoundTrip(n / 10);
    }
  }

  /** `String(n)` for an integer: a minus sign before the numeral of |n|. */
  function IntToDecimal(n: int): (s: string)
    ensures n >= 0 ==> s == NatToDecimal(n)
    ensures n < 0 ==> s == "-" + NatToDecimal(-n)
  {
    if n < 0 then "-" + NatToDecimal(-n) else NatToDecimal(n)
  }

  /** The elements of `parts`, separated by `sep`. */
  function Join(parts: seq<string>, sep: string): (r: string)
    ensures |parts| == 1 ==> r == parts[0]
  {
    if parts == [] then ""
    else if |parts| == 1 then parts[0]
    else parts[0] + sep + Join(parts[1..], sep)
  }

  /** JavaScript's `String(v)`: an array joins its elements with ","
      (a null element becomes ""), any other object prints as
      "[object Object]". */
  function ToText(v: Json): string
  {
    match v
    case Null => "null"
    case Bool(b) => if b then "true" else "false"
    case Number(n) => IntToDecimal(n)
    case Str(s) => s
    case Array(items) =>
      Join(seq(|items|, i requires 0 <= i < |items| => if items[i].Null? then "" else ToText(items[i])), ",")
    case Object(_) => "[object Object]"
  }

  /** A number parameter prints as a numeral that reads back as the number. */
  lemma NumberTextRoundTrip(n: int)
    ensures var t := ToText(Number(n));
            if n >= 0 then forall i :: 0 <= i < |t| ==> IsDigit(t[i])
            else t[0] == '-' && forall i :: 1 <= i < |t| ==> IsDigit(t[i])
    ensures n >= 0 ==> DecimalValue(ToText(Number(n))) == n
    ensures n < 0 ==> DecimalValue(ToText(Number(n))[1..]) == -n
  {
    if n >= 0 {
      DecimalRoundTrip(n);
    } else {
      assert ToText(Number(n))[1..] == NatToDecimal(-n);
      DecimalRoundTrip(-n);
    }
  }
}
