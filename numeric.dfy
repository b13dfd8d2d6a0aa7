/** The text-to-number conversion `pd.to_numeric(..., errors="coerce")`
    performs on a text cell, restricted to plain decimal notation: an optional
    sign, digits, and an optional fraction after one point. Anything else is
    not a number and becomes null. */
module Numeric {
  import opened Frames

  predicate IsDigit(c: char) {
    '0' <= c <= '9'
  }

  predicate AllDigits(s: string) {
    forall i :: 0 <= i < |s| ==> IsDigit(s[i])
  }

  function DigitValue(c: char): (d: nat)
    requires IsDigit(c)
    ensures d < 10
  {
    c as int - '0' as int
  }

  function DigitChar(d: nat): (c: char)
    requires d < 10
    ensures IsDigit(c) && DigitValue(c) == d
  {
    ('0' as int + d) as char
  }

  /** The number a run of decimal digits spells, most significant first. */
  function NatOf(s: string): nat
    requires AllDigits(s)
  {
    if s == [] then 0 else NatOf(s[..|s| - 1]) * 10 + DigitValue(s[|s| - 1])
  }

  function Pow10(n: nat): (p: nat)
    ensures p >= 1
  {
    if n == 0 then 1 else 10 * Pow10(n - 1)
  }

  /** The fraction `0.s` spelled by the digits after the point. */
  function FractionOf(s: string): (f: real)
    requires AllDigits(s)
  {
    NatOf(s) as real / Pow10(|s|) as real
  }

  /** The position of the first '.', or `|s|` when there is none. */
  function PointIndex(s: string): (k: nat)
    ensures k <= |s|
    ensures k < |s| ==> s[k] == '.'
    ensures forall i :: 0 <= i < k ==> s[i] != '.'
  {
    if s == [] then 0
    else if s[0] == '.' then 0
    else 1 + PointIndex(s[1..])
  }

  /** Digits, optionally followed by a point and more digits, with at least
      one digit in all: "12", "12.5", "12." and ".5". */
  function ParseUnsigned(s: string): (r: Option<real>)
    ensures r.Some? ==> r.value >= 0.0
    ensures r.Some? ==> exists i :: 0 <= i < |s| && IsDigit(s[i])
    ensures r.Some? ==> forall i :: 0 <= i < |s| ==> IsDigit(s[i]) || s[i] == '.'
    ensures s != [] && AllDigits(s) ==> r == Some(NatOf(s) as real)
  {
    var k := PointIndex(s);
    var whole := s[..k];
    var fraction := if k < |s| then s[k + 1..] else [];
    if AllDigits(whole) && AllDigits(fraction) && |whole| + |fraction| > 0 then
      assert forall i :: 0 <= i < |s| && i != k ==> (if i < k then s[i] == whole[i] else s[i] == fraction[i - k - 1]);
      assert AllDigits(s) ==> k == |s| && whole == s && FractionOf(fraction) == 0.0;
      if |whole| > 0 then
        assert IsDigit(s[0]) by { assert s[0] == whole[0]; }
        Some(NatOf(whole) as real + FractionOf(fraction))
      else
        assert IsDigit(s[k + 1]) by { assert s[k + 1] == fraction[0]; }
        Some(NatOf(whole) as real + FractionOf(fraction))
    else
      None
  }

  /** An optional '-' or '+' in front of an unsigned decimal. */
  function ParseDecimal(s: string): (r: Option<real>)
    ensures r.Some? ==> exists i :: 0 <= i < |s| && IsDigit(s[i])
    ensures r.Some? ==>
      forall i :: 0 <= i < |s| ==> IsDigit(s[i]) || s[i] == '.' || (i == 0 && (s[i] == '-' || s[i] == '+'))
    ensures s != [] && AllDigits(s) ==> r == Some(NatOf(s) as real)
  {
    if s != [] && (s[0] == '-' || s[0] == '+') then
      var u := ParseUnsigned(s[1..]);
      assert forall i :: 1 <= i < |s| ==> s[i] == s[1..][i - 1];
      if u.None? then None
      else if s[0] == '-' then Some(-u.value)
      else u
    else
      ParseUnsigned(s)
  }

  /** Decimal digits of `n`, without leading zeros. */
  function NatText(n: nat): (s: string)
    ensures s != [] && AllDigits(s)
    decreases n
  {
    if n < 10 then [DigitChar(n)] else NatText(n / 10) + [DigitChar(n % 10)]
  }

  /** `str(i)` for an integer: a '-' in front of a negative one. */
  function IntText(i: int): (s: string)
    ensures s != []
  {
    if i < 0 then "-" + NatText(-i) else NatText(i)
  }

  lemma {:induction false} NatTextRoundTrip(n: nat)
    ensures NatOf(NatText(n)) == n
    decreases n
  {
    if n >= 10 {
      var s := NatText(n);
      assert s[..|s| - 1] == NatText(n / 10);
      NatTextRoundTrip(n / 10);
    }
  }

  /** Reading back the text of an integer gives that integer. */
  lemma IntTextRoundTrip(i: int)
    ensures ParseDecimal(IntText(i)) == Some(i as real)
  {
    if i < 0 {
      var s := IntText(i);
      NatTextRoundTrip(-i);
      assert s[1..] == NatText(-i);
      assert ParseUnsigned(s[1..]) == Some((-i) as real);
    } else {
      NatTextRoundTrip(i);
    }
  }

  /** Worked cases: a signed decimal fraction is read exactly, and a word
      or a second point is not a number. */
  lemma ParseExamples()
    ensures ParseDecimal("-3.25") == Some(-3.25)
    ensures ParseDecimal("abc") == None
    ensures ParseDecimal("1.2.3") == None
  {
    var u := "3.25";
    assert PointIndex(u) == 1;
    assert u[..1] == "3" && u[2..] == "25";
    assert NatOf("3") == 3;
    assert "25"[..1] == "2";
    assert NatOf("25") == 25;
    assert FractionOf("25") == 0.25;
    assert "-3.25"[1..] == u;
    assert !IsDigit('a');
    assert "abc"[0] == 'a';
    assert "1.2.3"[3] == '.';
  }
}
