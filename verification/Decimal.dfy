/** Decimal numerals as the C library prints them with %d and %u. */
module Decimal {
  import opened Bytes
  import opened Ctype

  function Digits(n: nat): (d: seq<byte>)
    ensures d != [] && forall i :: 0 <= i < |d| ==> IsDigit(d[i])
  {
    if n < 10 then [(n + 48) as byte] else Digits(n / 10) + [(n % 10 + 48) as byte]
  }

  function ValueOf(d: seq<byte>): nat
    requires forall i :: 0 <= i < |d| ==> IsDigit(d[i])
  {
    if d == [] then 0 else assert IsDigit(d[|d| - 1]); 10 * ValueOf(d[..|d| - 1]) + (d[|d| - 1] as int - 48)
  }

  lemma {:induction false} ValueOfDigits(n: nat)
    ensures ValueOf(Digits(n)) == n
  {
    if n >= 10 {
      ValueOfDigits(n / 10);
      var d := Digits(n);
      assert d[..|d| - 1] == Digits(n / 10);
    } else {
      assert Digits(n)[..0] == [];
    }
  }

  /** The numeral of a number: no zero in front. */
  lemma {:induction false} DigitsForm(n: nat)
    ensures var d := Digits(n);
            (n == 0 ==> d == [48]) && (n > 0 ==> d[0] != 48)
  {
    if n < 10 {
    } else {
      DigitsForm(n / 10);
    }
  }

  function Pow10(k: nat): nat {
    if k == 0 then 1 else 10 * Pow10(k - 1)
  }

  lemma {:induction false} DigitsLength(n: nat, k: nat)
    requires k > 0 && n < Pow10(k)
    ensures |Digits(n)| <= k
  {
    if n < 10 {
    } else {
      DigitsLength(n / 10, k - 1);
    }
  }

  /** How many digits a string starts with. */
  function DigitSpan(b: seq<byte>): (k: nat)
    ensures k <= |b| && (k < |b| ==> !IsDigit(b[k]))
    ensures forall i :: 0 <= i < k ==> IsDigit(b[i])
  {
    if b == [] || !IsDigit(b[0]) then 0 else 1 + DigitSpan(b[1..])
  }

  lemma {:induction false} DigitSpanOf(d: seq<byte>, rest: seq<byte>)
    requires forall i :: 0 <= i < |d| ==> IsDigit(d[i])
    requires rest != [] && !IsDigit(rest[0])
    ensures DigitSpan(d + rest) == |d|
  {
    if d == [] {
      assert d + rest == rest;
    } else {
      DigitSpanOf(d[1..], rest);
      assert (d + rest)[1..] == d[1..] + rest;
    }
  }
}
