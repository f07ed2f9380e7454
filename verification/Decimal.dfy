/** Unsigned decimal text: `{}` formatting and `str::parse` of a bounded unsigned integer. */
module Decimal {
  import opened Prelude

  predicate IsDigit(c: char) {
    '0' <= c <= '9'
  }

  predicate AllDigits(s: string) {
    forall i :: 0 <= i < |s| ==> IsDigit(s[i])
  }

  function DigitChar(d: nat): (c: char)
    requires d < 10
    ensures IsDigit(c) && DigitValue(c) == d
  {
    '0' + d as char
  }

  function DigitValue(c: char): nat
    requires IsDigit(c)
  {
    (c - '0') as nat
  }

  // The shortest decimal text of n.
  function Print(n: nat): string {
    if n < 10 then [DigitChar(n)] else Print(n / 10) + [DigitChar(n % 10)]
  }

  function Value(s: string): nat
    requires AllDigits(s)
  {
    if s == "" then 0 else 10 * Value(s[..|s| - 1]) + DigitValue(s[|s| - 1])
  }

  // An optional '+', then at least one digit, with a value of at most max; anything else is refused.
  function ParseUnsigned(s: string, max: nat): (r: Option<nat>)
    ensures r.Some? ==> r.value <= max
  {
    var digits := if s != "" && s[0] == '+' then s[1..] else s;
    if digits == "" || !AllDigits(digits) || Value(digits) > max then None else Some(Value(digits))
  }

  function Zeros(k: nat): string {
    seq(k, _ => '0')
  }

  // What is tolerated before the digits of a number: a sign and leading zeros.
  datatype Padding = Padding(plus: bool, zeros: nat)

  function Sign(plus: bool): string {
    if plus then "+" else ""
  }

  function Padded(n: nat, pad: Padding): string {
    Sign(pad.plus) + Zeros(pad.zeros) + Print(n)
  }

  // Print gives the digits of n without a leading zero, and no sign.
  lemma {:induction false} PrintedDigits(n: nat)
    ensures AllDigits(Print(n)) && Print(n) != "" && Value(Print(n)) == n
    ensures Print(n)[0] == '0' <==> n == 0
  {
    if n >= 10 {
      PrintedDigits(n / 10);
      assert Print(n)[..|Print(n)| - 1] == Print(n / 10);
    } else {
      assert Print(n)[..0] == "";
    }
  }

  // Digit strings differ from the printed form of their value only in leading zeros.
  lemma {:induction false} DigitsArePaddedPrint(s: string) returns (k: nat)
    requires AllDigits(s) && s != ""
    ensures s == Zeros(k) + Print(Value(s))
  {
    var n := |s| - 1;
    var d := DigitValue(s[n]);
    assert s[n] == DigitChar(d);
    if n == 0 {
      assert s[..n] == "";
      k := 0;
      assert Zeros(0) == "";
    } else {
      var j := DigitsArePaddedPrint(s[..n]);
      assert s == s[..n] + [s[n]];
      k := OneMoreDigit(j, Value(s[..n]), d);
    }
  }

  lemma OneMoreDigit(j: nat, v: nat, d: nat) returns (k: nat)
    requires d < 10
    ensures Zeros(j) + Print(v) + [DigitChar(d)] == Zeros(k) + Print(10 * v + d)
  {
    if v == 0 {
      k := j + 1;
      assert Zeros(j) + Print(0) == Zeros(k);
    } else {
      k := j;
      PrintAppends(v, d);
      ConcatAssociates(Zeros(j), Print(v), [DigitChar(d)]);
    }
  }

  lemma PrintAppends(v: nat, d: nat)
    requires v > 0 && d < 10
    ensures Print(10 * v + d) == Print(v) + [DigitChar(d)]
  {
    assert (10 * v + d) / 10 == v && (10 * v + d) % 10 == d;
  }

  // Accepted text reprints to itself up to one leading '+' and leading zeros.
  lemma AcceptedIsPaddedPrint(s: string, max: nat) returns (pad: Padding)
    requires ParseUnsigned(s, max).Some?
    ensures s == Padded(ParseUnsigned(s, max).value, pad)
  {
    var plus := s[0] == '+';
    var digits := s[|Sign(plus)|..];
    assert s == Sign(plus) + digits;
    var k := DigitsArePaddedPrint(digits);
    ConcatAssociates(Sign(plus), Zeros(k), Print(Value(digits)));
    pad := Padding(plus, k);
  }

  // Conversely every such text within bounds is accepted with that value.
  lemma {:induction false} PaddedPrintValue(k: nat, n: nat)
    ensures AllDigits(Zeros(k) + Print(n)) && Value(Zeros(k) + Print(n)) == n
    decreases n
  {
    PrintedDigits(n);
    var s := Zeros(k) + Print(n);
    if n >= 10 {
      PaddedPrintValue(k, n / 10);
      assert s[..|s| - 1] == Zeros(k) + Print(n / 10);
    } else {
      ZerosValue(k);
      assert s[..|s| - 1] == Zeros(k);
    }
  }

  lemma {:induction false} ZerosValue(k: nat)
    ensures AllDigits(Zeros(k)) && Value(Zeros(k)) == 0
  {
    if k == 0 {
    } else {
      ZerosValue(k - 1);
      assert Zeros(k)[..k - 1] == Zeros(k - 1);
    }
  }

  lemma PaddedPrintAccepted(n: nat, pad: Padding, max: nat)
    requires n <= max
    ensures ParseUnsigned(Padded(n, pad), max) == Some(n)
  {
    PaddedPrintValue(pad.zeros, n);
    PrintedDigits(n);
    ConcatAssociates(Sign(pad.plus), Zeros(pad.zeros), Print(n));
    SignIgnored(pad.plus, Zeros(pad.zeros) + Print(n), max);
  }

  lemma SignIgnored(plus: bool, digits: string, max: nat)
    requires AllDigits(digits) && digits != "" && Value(digits) <= max
    ensures ParseUnsigned(Sign(plus) + digits, max) == Some(Value(digits))
  {
    assert IsDigit(digits[0]);
    if plus {
      assert (Sign(plus) + digits)[0] == '+';
      assert (Sign(plus) + digits)[1..] == digits;
    } else {
      assert Sign(plus) + digits == digits;
    }
  }

  lemma PaddedLacks(n: nat, pad: Padding, c: char)
    requires !IsDigit(c) && c != '+'
    ensures c !in Padded(n, pad)
  {
    PrintedDigits(n);
    assert forall d :: d in Print(n) ==> IsDigit(d);
  }
}
