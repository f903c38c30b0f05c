/** Reading an amount typed by the user. The program hands the text to
    Python's `float`; this module gives one concrete reader of plain decimal
    notation (an optional sign, digits, an optional point and digits, at
    least one digit), which is a part of what `float` accepts. */
module Amounts {
  import opened Wrappers

  predicate IsDigit(c: char) {
    '0' <= c <= '9'
  }

  predicate AllDigits(s: string) {
    forall i :: 0 <= i < |s| ==> IsDigit(s[i])
  }

  /** The value of a string of decimal digits, most significant first. */
  function DigitsValue(s: string): nat
    requires AllDigits(s)
  {
    if s == [] then 0 else 10 * DigitsValue(s[..|s| - 1]) + (s[|s| - 1] as int - '0' as int)
  }

  function Pow10(k: nat): (p: nat)
    ensures p >= 1
  {
    if k == 0 then 1 else 10 * Pow10(k - 1)
  }

  /** The number with integer digits `whole` and fraction digits `frac`. */
  function PointValue(whole: string, frac: string): real
    requires AllDigits(whole) && AllDigits(frac)
  {
    DigitsValue(whole) as real + DigitsValue(frac) as real / Pow10(|frac|) as real
  }

  /** The position of the first `c` in `s`. */
  function FirstIndex(s: string, c: char): (k: nat)
    requires c in s
    ensures k < |s| && s[k] == c
    ensures forall j :: 0 <= j < k ==> s[j] != c
  {
    if s[0] == c then 0 else
      assert c in s[1..] by { assert s == [s[0]] + s[1..]; }
      1 + FirstIndex(s[1..], c)
  }

  /** Digits with at most one point and at least one digit. */
  function ParseUnsigned(s: string): (r: Option<real>)
    ensures r.Some? ==> forall i :: 0 <= i < |s| ==> IsDigit(s[i]) || s[i] == '.'
    ensures r.Some? ==> exists i :: 0 <= i < |s| && IsDigit(s[i])
    ensures r.Some? ==> forall i, j :: 0 <= i < j < |s| && s[i] == '.' ==> s[j] != '.'
  {
    if '.' !in s then
      if s != [] && AllDigits(s) then Some(DigitsValue(s) as real) else None
    else
      var k := FirstIndex(s, '.');
      var whole, frac := s[..k], s[k + 1..];
      if AllDigits(whole) && AllDigits(frac) && (whole != [] || frac != []) then
        assert forall i :: 0 <= i < |s| && i != k ==> (i < k ==> s[i] == whole[i]) && (i > k ==> s[i] == frac[i - k - 1]);
        assert whole != [] ==> IsDigit(s[0]);
        assert whole == [] ==> IsDigit(s[k + 1]);
        assert forall i :: 0 <= i < |s| && s[i] == '.' ==> i == k;
        Some(PointValue(whole, frac))
      else
        None
  }

  /** The amount written in `s`, or None when `s` is not plain decimal
      notation: any character other than a digit, a point, or a sign in
      front is refused, and at least one digit is needed. */
  function ParseDecimal(s: string): (r: Option<real>)
    ensures r.Some? ==> forall i :: 0 <= i < |s| ==> IsDigit(s[i]) || s[i] == '.' || (i == 0 && (s[i] == '+' || s[i] == '-'))
    ensures r.Some? ==> exists i :: 0 <= i < |s| && IsDigit(s[i])
    ensures r.Some? ==> forall i, j :: 0 <= i < j < |s| && s[i] == '.' ==> s[j] != '.'
    ensures s != [] && AllDigits(s) ==> r == Some(DigitsValue(s) as real)
  {
    if s != [] && (s[0] == '+' || s[0] == '-') then
      match ParseUnsigned(s[1..])
      case None => None
      case Some(v) =>
        assert forall i :: 1 <= i < |s| ==> s[i] == s[1..][i - 1];
        Some(if s[0] == '-' then -v else v)
    else
      ParseUnsigned(s)
  }

  /** Text with a letter in it, such as "abc", is not an amount. */
  lemma LettersAreNotAmounts(s: string, i: nat)
    requires i < |s| && 'a' <= s[i] <= 'z'
    ensures ParseDecimal(s) == None
  {
  }

  /** A leading minus negates the amount the rest of the text writes; the
      text after the sign may not carry a sign of its own. */
  lemma MinusNegates(s: string)
    requires s != [] ==> s[0] != '+' && s[0] != '-'
    ensures ParseDecimal("-" + s) == if ParseDecimal(s).Some? then Some(-ParseDecimal(s).value) else None
  {
    var m := "-" + s;
    assert m[0] == '-' && m[1..] == s;
    assert ParseDecimal(s) == ParseUnsigned(s);
  }

  /** A leading plus keeps the amount the rest of the text writes. */
  lemma PlusKeeps(s: string)
    requires s != [] ==> s[0] != '+' && s[0] != '-'
    ensures ParseDecimal("+" + s) == ParseDecimal(s)
  {
    var m := "+" + s;
    assert m[0] == '+' && m[1..] == s;
    assert ParseDecimal(s) == ParseUnsigned(s);
  }

  /** Digits after a minus read as the negated digits, as in "-5". */
  lemma NegativeDigits(t: string)
    requires t != [] && AllDigits(t)
    ensures ParseDecimal("-" + t) == Some(-(DigitsValue(t) as real))
  {
    MinusNegates(t);
  }

  /** Text with a second point, such as "1.2.3", is not an amount. */
  lemma TwoPointsRefused()
    ensures ParseDecimal("1.2.3") == None
  {
    assert "1.2.3"[1] == '.' && "1.2.3"[3] == '.';
  }

  /** Digits, a point and digits read as the whole part plus the fraction;
      either part may be empty, but not both. */
  lemma PointNotation(whole: string, frac: string)
    requires whole != [] || frac != []
    requires AllDigits(whole) && AllDigits(frac)
    ensures ParseDecimal(whole + "." + frac) == Some(PointValue(whole, frac))
  {
    var s := whole + "." + frac;
    assert s[|whole|] == '.';
    var k := FirstIndex(s, '.');
    assert forall j :: 0 <= j < |whole| ==> s[j] == whole[j];
    assert k == |whole|;
    assert s[..k] == whole;
    assert s[k + 1..] == frac;
    assert s[0] == if whole != [] then whole[0] else '.';
  }

  /** An amount written with two decimals reads as its whole part plus its
      hundredths. */
  lemma {:induction false} CentsNotation(whole: string, a: char, b: char)
    requires whole != [] && AllDigits(whole) && IsDigit(a) && IsDigit(b)
    ensures ParseDecimal(whole + "." + [a, b])
         == Some(DigitsValue(whole) as real + (10 * (a as int - '0' as int) + (b as int - '0' as int)) as real / 100.0)
  {
    TwoDigits(a, b);
    PointNotation(whole, [a, b]);
    assert Pow10(2) == 100;
  }

  /** The sample amounts 10.50, 20.25 and 5.00 read as the numbers they write. */
  lemma ReadsTenFifty()
    ensures ParseDecimal("10.50") == Some(10.5)
  {
    SampleCents('1', '0', '5', '0');
  }

  lemma ReadsTwentyTwentyFive()
    ensures ParseDecimal("20.25") == Some(20.25)
  {
    SampleCents('2', '0', '2', '5');
  }

  lemma ReadsFive()
    ensures ParseDecimal("5.00") == Some(5.0)
  {
    TwoDigits('0', '5');
    assert DigitsValue("5") == DigitsValue(['0', '5']) by {
      assert "5"[..0] == "";
    }
    CentsNotation("5", '0', '0');
    assert "5" + "." + ['0', '0'] == "5.00";
  }

  lemma SampleCents(t: char, u: char, a: char, b: char)
    requires IsDigit(t) && IsDigit(u) && IsDigit(a) && IsDigit(b)
    ensures ParseDecimal([t, u, '.', a, b])
         == Some((10 * (t as int - '0' as int) + (u as int - '0' as int)) as real
                 + (10 * (a as int - '0' as int) + (b as int - '0' as int)) as real / 100.0)
  {
    TwoDigits(t, u);
    CentsNotation([t, u], a, b);
    assert [t, u] + "." + [a, b] == [t, u, '.', a, b];
  }

  lemma TwoDigits(a: char, b: char)
    requires IsDigit(a) && IsDigit(b)
    ensures DigitsValue([a, b]) == 10 * (a as int - '0' as int) + (b as int - '0' as int)
  {
    assert [a, b][..1] == [a];
    assert [a][..0] == [];
    assert DigitsValue([a]) == a as int - '0' as int;
    assert DigitsValue([a, b]) == 10 * DigitsValue([a]) + (b as int - '0' as int);
  }
}
