/** JavaScript numbers as the sources use them: finite values are modelled exactly (as reals),
    beside NaN and the two infinities; Number(...) conversion of strings; Math.round. */
module JsNumbers {
  import opened Wrappers
  import opened Text

  /** A JavaScript number. */
  datatype Number = Finite(v: real) | NaN | Infinity(negative: bool) {
    /** Number.isFinite */
    predicate IsFinite() { Finite? }
  }

  /** A JavaScript value, as far as Number(...) conversion needs to distinguish values. */
  datatype Value = Num(n: Number) | Str(s: string) | Null | Undefined | Bool(b: bool)

  /** Math.round: the nearest integer, halves rounded toward +infinity. */
  function Round(x: real): (r: int)
    ensures r as real - 0.5 <= x < r as real + 0.5
  {
    (x + 0.5).Floor
  }

  function Pow10(n: nat): (p: nat)
    ensures p >= 1
  {
    if n == 0 then 1 else 10 * Pow10(n - 1)
  }

  /** The value of the text after an optional sign: decimal digits with an optional fraction
      ("12", "12.", "12.5", ".5"), or "Infinity". Exponents and 0x/0o/0b forms are not modelled (NaN). */
  function UnsignedToNumber(t: string, negative: bool): Number {
    if t == "Infinity" then Infinity(negative)
    else if '.' in t then
      var i := FirstIndex(t, '.');
      var whole, frac := t[..i], t[i + 1..];
      if |whole| + |frac| >= 1 && AllDigits(whole) && AllDigits(frac) then
        var v := DigitsValue(whole) as real + DigitsValue(frac) as real / Pow10(|frac|) as real;
        Finite(if negative then -v else v)
      else NaN
    else if |t| >= 1 && AllDigits(t) then
      var v := DigitsValue(t) as real;
      Finite(if negative then -v else v)
    else NaN
  }

  /** Number(s) for a string s: surrounding white space is ignored and the empty string is 0. */
  function StringToNumber(s: string): (r: Number)
    ensures JsTrim(s) == "" ==> r == Finite(0.0)
    ensures (forall i :: 0 <= i < |s| ==> !IsDigit(s[i])) ==> r == Finite(0.0) || !r.Finite?
  {
    var t := JsTrim(s);
    var signed := t != "" && (t[0] == '-' || t[0] == '+');
    var u := if signed then t[1..] else t;
    // Without a decimal digit, only the number 0 (blank text), the infinities or NaN can be read.
    assert (forall i :: 0 <= i < |s| ==> !IsDigit(s[i])) ==> !UnsignedToNumber(u, signed && t[0] == '-').Finite? || t == "" by {
      if t != "" && forall i :: 0 <= i < |s| ==> !IsDigit(s[i]) {
        JsTrimChars(s);
        assert forall i :: 0 <= i < |u| ==> u[i] in t;
        UnsignedNoDigit(u, signed && t[0] == '-');
      }
    }
    if t == "" then Finite(0.0)
    else UnsignedToNumber(u, signed && t[0] == '-')
  }

  /** Number(value). */
  function ToNumber(value: Value): (r: Number)
    ensures value.Num? ==> r == value.n
    ensures r.NaN? ==> value == Undefined || value == Num(NaN) || (value.Str? && JsTrim(value.s) != "")
  {
    match value
    case Num(n) => n
    case Str(s) => StringToNumber(s)
    case Null => Finite(0.0)
    case Undefined => NaN
    case Bool(b) => Finite(if b then 1.0 else 0.0)
  }

  /** Number(String(n)) == n for a natural number n. */
  lemma StringToNumberOfNatToString(n: nat)
    ensures StringToNumber(NatToString(n)) == Finite(n as real)
  {
    var d := NatToString(n);
    TrimLeftNoop(d, IsJsSpace);
    TrimRightNoop(d, IsJsSpace);
    assert JsTrim(d) == d;
    DigitsValueOfNatToString(n);
    assert d != "Infinity" by { assert IsDigit(d[0]); }
    assert '.' !in d by {
      forall i | 0 <= i < |d| ensures d[i] != '.' { assert IsDigit(d[i]); }
    }
    assert d[0] != '-' && d[0] != '+' by { assert IsDigit(d[0]); }
    assert UnsignedToNumber(d, false) == Finite(DigitsValue(d) as real);
  }

  /** Without a decimal digit, the unsigned text is Infinity or NaN. */
  lemma UnsignedNoDigit(u: string, negative: bool)
    requires forall i :: 0 <= i < |u| ==> !IsDigit(u[i])
    ensures !UnsignedToNumber(u, negative).Finite?
  {
    if u != "Infinity" && '.' in u {
      var k := FirstIndex(u, '.');
      var whole, frac := u[..k], u[k + 1..];
      if |whole| >= 1 {
        assert whole[0] == u[0];
      } else if |frac| >= 1 {
        assert frac[0] == u[k + 1];
      }
    }
  }
}
