/**
 * Decimal text of integers (what JavaScript's `Number.prototype.toString`
 * produces for an integer) and the restricted `parseInt` that reads such
 * text back, plus the first-index search that `String.prototype.split`
 * relies on.
 */
module Text {
  import opened Results

  predicate IsDigit(c: char) {
    '0' <= c <= '9'
  }

  /** Non-empty text made of decimal digits only. */
  predicate IsDigits(s: string) {
    |s| > 0 && forall i :: 0 <= i < |s| ==> IsDigit(s[i])
  }

  function DigitChar(d: nat): (c: char)
    requires d < 10
    ensures IsDigit(c)
  {
    ('0' as int + d) as char
  }

  function DigitValue(c: char): (d: nat)
    requires IsDigit(c)
    ensures d < 10
  {
    c as int - '0' as int
  }

  /** Decimal digits of n, most significant first, without leading zeros. */
  function NatToString(n: nat): (s: string)
    ensures IsDigits(s)
    ensures n < 10 <==> |s| == 1
    decreases n
  {
    if n < 10 then [DigitChar(n)] else NatToString(n / 10) + [DigitChar(n % 10)]
  }

  /** `n.toString()` for an integer n: an optional minus sign, then the digits. */
  function IntToString(n: int): (s: string)
    ensures |s| > 0
    ensures ':' !in s
  {
    var digits := NatToString(if n < 0 then -n else n);
    assert forall i :: 0 <= i < |digits| ==> IsDigit(digits[i]);
    if n < 0 then "-" + digits else digits
  }

  /** The value of a run of decimal digits, read most significant first. */
  function DigitsValue(s: string): nat
    requires forall i :: 0 <= i < |s| ==> IsDigit(s[i])
    decreases |s|
  {
    if |s| == 0 then 0 else DigitsValue(s[..|s| - 1]) * 10 + DigitValue(s[|s| - 1])
  }

  /**
   * `parseInt` restricted to canonical decimal text: an optional '-' followed
   * by at least one digit. Anything else is reported as None (not a number).
   */
  function ParseInt(s: string): (r: Option<int>)
    ensures s == "" ==> r.None?
    ensures r.Some? ==> (s[0] == '-' || IsDigit(s[0])) && forall i :: 0 < i < |s| ==> IsDigit(s[i])
    ensures r.Some? ==> (r.value < 0 ==> s[0] == '-') && (s[0] != '-' ==> r.value >= 0)
    ensures ':' in s ==> r.None?
  {
    if |s| > 0 && s[0] == '-' then
      if IsDigits(s[1..]) then Some(0 - DigitsValue(s[1..]) as int) else None
    else if IsDigits(s) then Some(DigitsValue(s))
    else None
  }

  lemma {:induction false} DigitsValueOfNatToString(n: nat)
    ensures DigitsValue(NatToString(n)) == n
    decreases n
  {
    var s := NatToString(n);
    if n >= 10 {
      DigitsValueOfNatToString(n / 10);
      assert s[..|s| - 1] == NatToString(n / 10);
      assert DigitValue(s[|s| - 1]) == n % 10;
    }
  }

  /** Decimal text written by IntToString reads back as the same integer. */
  lemma ParseIntOfIntToString(n: int)
    ensures ParseInt(IntToString(n)) == Some(n)
  {
    var m: nat := if n < 0 then -n else n;
    var digits := NatToString(m);
    DigitsValueOfNatToString(m);
    if n < 0 {
      assert ("-" + digits)[1..] == digits;
    } else {
      assert digits[0] != '-' by { assert IsDigit(digits[0]); }
    }
  }

  /** The position of the first occurrence of c in s, if any. */
  function IndexOf(s: string, c: char): (r: Option<nat>)
    ensures r.None? <==> c !in s
    ensures r.Some? ==> r.value < |s| && s[r.value] == c && c !in s[..r.value]
    decreases |s|
  {
    if |s| == 0 then None
    else if s[0] == c then Some(0)
    else match IndexOf(s[1..], c)
      case None => None
      case Some(i) =>
        assert s[..i + 1] == [s[0]] + s[1..][..i];
        Some(i + 1)
  }
}
