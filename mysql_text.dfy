/** How MySQL compares a text value with an integer column, as in the
    `WHERE id = '<path text>'` that `findByPk` sends with the raw path
    parameter: the text is read as a number from its longest numeric prefix
    (white space, sign, digits, a fraction, an exponent), anything after it
    is ignored, and text without digits reads as 0. */
module MySqlText {

  import opened Common
  import Js

  function Pow10(n: nat): (p: int)
    ensures p >= 1
  {
    if n == 0 then 1 else 10 * Pow10(n - 1)
  }

  /** The scale an exponent part gives: `e`/`E`, an optional sign and at
      least one digit; 1 when there is no such part. */
  function ExponentScale(rest: string): (scale: real)
    ensures scale > 0.0
  {
    if rest == [] || (rest[0] != 'e' && rest[0] != 'E') then 1.0
    else
      var e := rest[1..];
      var neg := e != [] && e[0] == '-';
      var ds := if e != [] && (e[0] == '-' || e[0] == '+') then e[1..] else e;
      var n := Js.DigitRun(ds, 10);
      if n == 0 then 1.0
      else
        var p := Pow10(Js.DigitsValue(ds[..n], 10));
        if neg then 1.0 / p as real else p as real
  }

  /** The value of the longest numeric prefix of u, which has no sign. */
  function UnsignedValue(u: string): real
  {
    var n := Js.DigitRun(u, 10);
    var whole := Js.DigitsValue(u[..n], 10);
    var w := u[n..];
    var dot := w != [] && w[0] == '.';
    var f := if dot then Js.DigitRun(w[1..], 10) else 0;
    var frac := if dot then Js.DigitsValue(w[1..][..f], 10) else 0;
    var rest := if dot then w[1..][f..] else w;
    if n == 0 && f == 0 then 0.0
    else ((whole * Pow10(f) + frac) as real / Pow10(f) as real) * ExponentScale(rest)
  }

  /** The number MySQL reads from a text when comparing it with a number. */
  function NumericValue(s: string): real
  {
    var t := Js.TrimStart(s);
    var u := if t != [] && (t[0] == '-' || t[0] == '+') then t[1..] else t;
    if t != [] && t[0] == '-' then -UnsignedValue(u) else UnsignedValue(u)
  }

  /** The integer id a row must have to satisfy `id = '<s>'`: None when the
      text reads as a number with a fraction, which no integer equals. */
  function MatchingId(s: string): Option<int>
  {
    var v := NumericValue(s);
    if v.Floor as real == v then Some(v.Floor) else None
  }

  lemma ExponentScaleOfTwo()
    ensures ExponentScale("e2") == 100.0
  {
    var ds := "e2"[1..];
    assert ds == "2" && ds[..1] == ds && ds[1..] == [];
    assert Js.DigitRun(ds, 10) == 1;
    assert ds[..0] == [];
    assert Js.DigitsValue(ds, 10) == 2;
    assert Pow10(2) == 100;
  }

  lemma UnsignedValueOfExponentText()
    ensures UnsignedValue("1e2") == 100.0
  {
    var u := "1e2";
    assert u[1..] == "e2" && u[..1] == "1" && "1"[..0] == [];
    assert Js.DigitRun(u[1..], 10) == 0;
    assert Js.DigitRun(u, 10) == 1;
    assert Js.DigitsValue("1", 10) == 1;
    ExponentScaleOfTwo();
  }

  lemma NumericValueOfExponentText()
    ensures NumericValue("1e2") == 100.0
  {
    var t := Js.TrimStart("1e2");
    assert t == "1e2" && t[0] == '1';
    UnsignedValueOfExponentText();
  }

  /** "1e2" is compared as the number 100, so it selects the row with id 100. */
  lemma ExponentTextValue()
    ensures MatchingId("1e2") == Some(100)
  {
    NumericValueOfExponentText();
    assert (100.0).Floor == 100;
  }
}
