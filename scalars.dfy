/**
 * Default values and their types. A default is one of the four scalar kinds
 * the parsers handle (bool, int, float, str); its kind is `type(value)`, and
 * a value given on the command line is converted by calling that type on the
 * token, as argparse does with `type=type(value)`.
 */
module Scalars {
  import opened Wrappers
  import opened Text

  datatype Kind = BoolKind | IntKind | FloatKind | StrKind

  /** A Python float is kept as an exact real: the model tracks the type and
      the decimal value, not binary rounding. */
  datatype Scalar = Bool(b: bool) | Int(i: int) | Float(f: real) | Str(s: string)
  {
    /** `type(value)`. Python's `bool` is a subclass of `int`; a tagged value
        cannot be mistaken for an integer, which is what testing `bool` first
        achieves in the source. */
    function TypeOf(): Kind
    {
      match this
      case Bool(_) => BoolKind
      case Int(_) => IntKind
      case Float(_) => FloatKind
      case Str(_) => StrKind
    }
  }

  predicate IsDigit(c: char)
  {
    '0' <= c <= '9'
  }

  predicate AllDigits(s: string)
  {
    forall i :: 0 <= i < |s| ==> IsDigit(s[i])
  }

  /** The value of a string of decimal digits. */
  function DigitsValue(s: string): (n: nat)
    requires AllDigits(s)
    ensures s == [] ==> n == 0
  {
    if s == [] then 0
    else DigitsValue(s[..|s| - 1]) * 10 + (s[|s| - 1] as int - '0' as int)
  }

  function Pow10(n: nat): (p: nat)
    ensures p >= 1
  {
    if n == 0 then 1 else 10 * Pow10(n - 1)
  }

  /** The index of the first `c` in `s`, or `|s|` when there is none. */
  function IndexOf(s: string, c: char): (k: nat)
    ensures k <= |s|
    ensures forall i :: 0 <= i < k ==> s[i] != c
    ensures k < |s| ==> s[k] == c
  {
    if s == [] then 0 else if s[0] == c then 0 else 1 + IndexOf(s[1..], c)
  }

  /** An optional leading sign: the sign and the rest of the text. */
  function SplitSign(t: string): (r: (int, string))
    ensures r.0 == 1 || r.0 == -1
    ensures |r.1| <= |t|
  {
    if t != [] && t[0] == '-' then (-1, t[1..])
    else if t != [] && t[0] == '+' then (1, t[1..])
    else (1, t)
  }

  /** `int(text)` on decimal text: optional surrounding whitespace, optional
      sign, at least one digit. */
  function ParseInt(text: string): Option<int>
  {
    var (sign, body) := SplitSign(Strip(text));
    if body != [] && AllDigits(body) then Some(sign * DigitsValue(body)) else None
  }

  /** `float(text)` on decimal text: optional surrounding whitespace, optional
      sign, digits with at most one `.` and at least one digit. */
  function ParseFloat(text: string): Option<real>
  {
    var (sign, body) := SplitSign(Strip(text));
    var k := IndexOf(body, '.');
    var whole := body[..k];
    var frac := if k < |body| then body[k + 1..] else "";
    if |whole| + |frac| > 0 && AllDigits(whole) && AllDigits(frac) then
      Some(sign as real * ((DigitsValue(whole) * Pow10(|frac|) + DigitsValue(frac)) as real / Pow10(|frac|) as real))
    else None
  }

  /** `kind(token)`: the conversion argparse applies with `type=type(default)`.
      A converted value always has the requested kind. */
  function Coerce(kind: Kind, token: string): (r: Option<Scalar>)
    ensures r.Some? ==> r.value.TypeOf() == kind
    ensures kind == StrKind ==> r == Some(Str(token))
  {
    match kind
    case BoolKind => Some(Bool(token != ""))
    case IntKind => (match ParseInt(token) case Some(n) => Some(Int(n)) case None => None)
    case FloatKind => (match ParseFloat(token) case Some(x) => Some(Float(x)) case None => None)
    case StrKind => Some(Str(token))
  }

  /** `float("1") == 1.0`: a float default given the token `1` becomes the
      float 1.0, not the integer 1. */
  lemma CoerceFloatFromIntegerText()
    ensures Coerce(FloatKind, "1") == Some(Float(1.0))
    ensures Coerce(FloatKind, "1") != Some(Int(1))
  {
    assert Strip("1") == "1" by {
      assert !IsSpace('1');
    }
    assert IndexOf("1", '.') == 1;
    assert "1"[..1] == "1";
    assert DigitsValue("1") == 1 by {
      assert "1"[..0] == "";
    }
  }
}
