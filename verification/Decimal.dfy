/** Integers in decimal, written and read back. */
module Decimal {
  import opened Options

  predicate IsDigit(c: char) { '0' <= c <= '9' }

  function DigitOf(n: nat): char
    requires n < 10
  {
    '0' + n as char
  }

  function ValueOf(c: char): int
    requires IsDigit(c)
  {
    (c - '0') as int
  }

  function Digits(n: nat): (s: string)
    ensures s != "" && forall i :: 0 <= i < |s| ==> IsDigit(s[i])
  {
    if n < 10 then [DigitOf(n)] else Digits(n / 10) + [DigitOf(n % 10)]
  }

  function Format(i: int): (s: string)
    ensures s != "" && forall k :: 0 <= k < |s| ==> IsDigit(s[k]) || s[k] == '-'
  {
    if i < 0 then "-" + Digits(-i) else Digits(i)
  }

  function Value(s: string): int
    requires forall i :: 0 <= i < |s| ==> IsDigit(s[i])
  {
    if s == "" then 0 else Value(s[..|s| - 1]) * 10 + ValueOf(s[|s| - 1])
  }

  function Parse(s: string): Option<int> {
    if s == "" || s == "-" then None
    else if s[0] == '-' && (forall i :: 1 <= i < |s| ==> IsDigit(s[i])) then
      Some(-Value(s[1..]))
    else if forall i :: 0 <= i < |s| ==> IsDigit(s[i]) then Some(Value(s))
    else None
  }

  lemma {:induction false} ValueOfDigits(n: nat)
    ensures Value(Digits(n)) == n
  {
    if n >= 10 {
      ValueOfDigits(n / 10);
      assert Digits(n)[..|Digits(n)| - 1] == Digits(n / 10);
    } else {
      assert Digits(n)[..0] == "";
    }
  }

  lemma ParseOfFormat(i: int)
    ensures Parse(Format(i)) == Some(i)
  {
    var s := Format(i);
    if i < 0 {
      ValueOfDigits(-i);
      assert s[1..] == Digits(-i);
      assert forall k :: 1 <= k < |s| ==> s[k] == Digits(-i)[k - 1];
    } else {
      ValueOfDigits(i);
      assert IsDigit(s[0]);
    }
  }

  /** Decimal notation: the ten digits, longer numbers by their tens and units, and a minus sign in front. */
  lemma FormatExactly(i: int)
    ensures 0 <= i < 10 ==> Format(i) == ["0123456789"[i]]
    ensures i >= 10 ==> Format(i) == Format(i / 10) + Format(i % 10)
    ensures i < 0 ==> Format(i) == "-" + Format(-i)
  {
    var s := "0123456789";
    assert s[0] == '0' && s[1] == '1' && s[2] == '2' && s[3] == '3' && s[4] == '4';
    assert s[5] == '5' && s[6] == '6' && s[7] == '7' && s[8] == '8' && s[9] == '9';
  }

  lemma FormatInjective(i: int, j: int)
    requires Format(i) == Format(j)
    ensures i == j
  {
    ParseOfFormat(i);
    ParseOfFormat(j);
  }
}
