/** The price cell's `Number(cell) || 0`, on integers written in decimal. */
module Numeric {
  import opened Text

  predicate IsDigit(c: char) {
    '0' <= c <= '9'
  }

  /** A non-empty run of decimal digits. */
  predicate IsDigits(s: string) {
    |s| > 0 && forall i :: 0 <= i < |s| ==> IsDigit(s[i])
  }

  /** The value of a string of decimal digits, most significant first. */
  function DigitsValue(s: string): nat
    requires forall i :: 0 <= i < |s| ==> IsDigit(s[i])
  {
    if s == [] then 0
    else
      assert IsDigit(s[|s| - 1]);
      DigitsValue(s[..|s| - 1]) * 10 + (s[|s| - 1] as int - '0' as int)
  }

  /** The decimal digits of `n`, without leading zeros. */
  function ShowNat(n: nat): (r: string)
    ensures IsDigits(r)
  {
    if n < 10 then [('0' as int + n) as char] else ShowNat(n / 10) + [('0' as int + n % 10) as char]
  }

  /** How `String(n)` writes an integer. */
  function ShowInt(n: int): string {
    if n < 0 then "-" + ShowNat(-n) else ShowNat(n)
  }

  /** Reading the digits of `n` gives `n`. */
  lemma {:induction false} DigitsOfShowNat(n: nat)
    ensures DigitsValue(ShowNat(n)) == n
  {
    if n >= 10 {
      DigitsOfShowNat(n / 10);
      var s := ShowNat(n);
      assert s[..|s| - 1] == ShowNat(n / 10);
    }
  }

  /** `Number(s) || 0`: the integer an optionally signed decimal numeral denotes,
      after the white space `Number` ignores; 0 for anything else, the empty string
      included. */
  function NumberOrZero(s: string): (r: int)
    ensures (forall i :: 0 <= i < |s| ==> !IsDigit(s[i])) ==> r == 0
  {
    var t := Trim(s);
    if IsDigits(t) then DigitsValue(t)
    else if |t| >= 2 && t[0] == '-' && IsDigits(t[1..]) then -(DigitsValue(t[1..]) as int)
    else if |t| >= 2 && t[0] == '+' && IsDigits(t[1..]) then DigitsValue(t[1..])
    else
      0
  }

  /** Every integer reads back as itself from the way it is written. */
  lemma NumberOfShowInt(n: int)
    ensures NumberOrZero(ShowInt(n)) == n
  {
    if n < 0 {
      NumberOfShowNegative(n);
    } else {
      NumberOfShowNat(n);
    }
  }

  lemma NumberOfShowNat(n: nat)
    ensures NumberOrZero(ShowNat(n)) == n
  {
    var d := ShowNat(n);
    DigitsOfShowNat(n);
    assert !IsSpace(d[0]) && !IsSpace(d[|d| - 1]);
    TrimTrimmed(d);
  }

  lemma NumberOfShowNegative(n: int)
    requires n < 0
    ensures NumberOrZero("-" + ShowNat(-n)) == n
  {
    var d := ShowNat(-n);
    var s := "-" + d;
    DigitsOfShowNat(-n);
    assert s[|s| - 1] == d[|d| - 1];
    assert !IsSpace(s[0]) && !IsSpace(s[|s| - 1]);
    TrimTrimmed(s);
    assert s[1..] == d;
    assert !IsDigit(s[0]);
  }
}
