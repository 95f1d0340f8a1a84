/** JavaScript's `Number(s)` on the strings the routes convert (a query or
    path parameter), for the integer forms: an optional sign followed by
    decimal digits. Every other string is NaN here. */
module JsNumber {

  /** A JavaScript number as far as the routes see one: an integer, or NaN. */
  datatype Num = Int(value: int) | NaN

  predicate IsDigit(c: char) {
    '0' <= c <= '9'
  }

  predicate AllDigits(s: string) {
    forall i :: 0 <= i < |s| ==> IsDigit(s[i])
  }

  /** The value of a string of decimal digits, most significant first. */
  function DigitsValue(s: string): nat
    requires AllDigits(s)
  {
    if s == [] then 0
    else DigitsValue(s[..|s| - 1]) * 10 + (s[|s| - 1] as int - '0' as int)
  }

  /** `s` is an integer literal: one or more digits, after an optional sign. */
  predicate IsIntLiteral(s: string) {
    || (s != [] && AllDigits(s))
    || (|s| >= 2 && (s[0] == '-' || s[0] == '+') && AllDigits(s[1..]))
  }

  /** `Number(s)`: the empty string is 0, an integer literal is its value,
      anything else is NaN. Leading zeros are allowed, and `-0` is 0. */
  function Number(s: string): (n: Num)
    ensures n.Int? <==> s == [] || IsIntLiteral(s)
    ensures s == [] ==> n == Int(0)
    ensures n.Int? && s != [] && s[0] == '-' ==> n.value <= 0
    ensures n.Int? && s != [] && s[0] != '-' ==> n.value >= 0
  {
    if s == [] then Int(0)
    else if AllDigits(s) then Int(DigitsValue(s))
    else if |s| >= 2 && s[0] == '-' && AllDigits(s[1..]) then Int(-(DigitsValue(s[1..]) as int))
    else if |s| >= 2 && s[0] == '+' && AllDigits(s[1..]) then Int(DigitsValue(s[1..]))
    else NaN
  }

  /** The decimal digits of a natural number, without leading zeros. */
  function ShowNat(n: nat): (s: string)
    ensures s != [] && AllDigits(s)
  {
    var d := ['0' + (n % 10) as char];
    if n < 10 then d else ShowNat(n / 10) + d
  }

  /** The canonical decimal form of an integer, `-` for a negative one. */
  function ShowInt(n: int): (s: string)
    ensures s != []
  {
    if n < 0 then "-" + ShowNat(-n) else ShowNat(n)
  }

  /** Reading back the digits of a natural number gives the number. */
  lemma {:induction false} DigitsShowNat(n: nat)
    ensures DigitsValue(ShowNat(n)) == n
  {
    var d := ['0' + (n % 10) as char];
    if n >= 10 {
      DigitsShowNat(n / 10);
      var s := ShowNat(n / 10) + d;
      assert s[..|s| - 1] == ShowNat(n / 10);
    }
  }

  /** `Number` reads back every integer printed in decimal. */
  lemma NumberShowInt(n: int)
    ensures Number(ShowInt(n)) == Int(n)
  {
    if n < 0 {
      DigitsShowNat(-n);
      var s := ShowInt(n);
      assert s[1..] == ShowNat(-n);
      assert !IsDigit(s[0]);
    } else {
      DigitsShowNat(n);
    }
  }

  /** A string holding a character that is neither a digit nor a sign is
      NaN. */
  lemma NotANumber(s: string, i: int)
    requires 0 <= i < |s| && !IsDigit(s[i]) && s[i] != '-' && s[i] != '+'
    ensures Number(s) == NaN
  {
    if i > 0 {
      assert s[1..][i - 1] == s[i];
    }
  }

  /** A lone sign is NaN. */
  lemma LoneSign()
    ensures Number("-") == NaN && Number("+") == NaN
  {
  }

  /** A sign in front of digits: `+` keeps their value, `-` negates it. */
  lemma SignedDigits(s: string)
    requires s != [] && AllDigits(s)
    ensures Number("+" + s) == Number(s) == Int(DigitsValue(s))
    ensures Number("-" + s) == Int(-(DigitsValue(s) as int))
  {
    assert ("+" + s)[1..] == s;
    assert ("-" + s)[1..] == s;
    assert !AllDigits("+" + s) by { assert !IsDigit(("+" + s)[0]); }
    assert !AllDigits("-" + s) by { assert !IsDigit(("-" + s)[0]); }
  }

  /** Leading zeros do not change the value, after a sign or without one. */
  lemma LeadingZero(s: string)
    requires s != [] && AllDigits(s)
    ensures Number("0" + s) == Number(s)
    ensures Number("+0" + s) == Number("+" + s)
    ensures Number("-0" + s) == Number("-" + s)
  {
    DigitsLeadingZero(s);
    SignedDigits(s);
    SignedDigits("0" + s);
    assert "+0" + s == "+" + ("0" + s);
    assert "-0" + s == "-" + ("0" + s);
  }

  lemma {:induction false} DigitsLeadingZero(s: string)
    requires AllDigits(s)
    ensures AllDigits("0" + s)
    ensures DigitsValue("0" + s) == DigitsValue(s)
  {
    var z := "0" + s;
    assert forall i :: 0 < i < |z| ==> z[i] == s[i - 1];
    if s != [] {
      DigitsLeadingZero(s[..|s| - 1]);
      assert z[..|z| - 1] == "0" + s[..|s| - 1];
    }
  }
}
