/** Decimal digit strings and the numbers they denote. */
module Digits {
  import opened Text

  predicate AllDigits(s: string) {
    forall i | 0 <= i < |s| :: IsDigit(s[i])
  }

  function DigitValue(c: char): nat
    requires IsDigit(c)
  {
    (c - '0') as nat
  }

  function DigitChar(d: nat): (c: char)
    requires d < 10
    ensures IsDigit(c) && DigitValue(c) == d
  {
    '0' + d as char
  }

  lemma DigitMeaning(c: char, d: nat)
    ensures IsDigit(c) ==> c == "0123456789"[DigitValue(c)]
    ensures d < 10 ==> DigitChar(d) == "0123456789"[d]
  {
    assert forall i: nat | i < 10 :: "0123456789"[i] == '0' + i as char;
  }

  /** The number a digit string denotes; the empty string denotes zero. */
  function Value(s: string): nat
    requires AllDigits(s)
  {
    if s == "" then 0 else Value(s[..|s| - 1]) * 10 + DigitValue(s[|s| - 1])
  }

  function Pow10(k: nat): (p: nat)
    ensures 1 <= p
  {
    if k == 0 then 1 else 10 * Pow10(k - 1)
  }

  function Zeros(n: nat): (s: string)
    ensures |s| == n && AllDigits(s)
  {
    seq(n, _ => '0')
  }

  /** The decimal notation of `n`, without leading zeros except for zero itself. */
  function Show(n: nat): (s: string)
    ensures s != "" && AllDigits(s)
  {
    if n < 10 then [DigitChar(n)] else Show(n / 10) + [DigitChar(n % 10)]
  }

  lemma {:induction false} ValueOfConcat(left: string, right: string)
    requires AllDigits(left) && AllDigits(right)
    ensures AllDigits(left + right)
    ensures Value(left + right) == Value(left) * Pow10(|right|) + Value(right)
  {
    if right == "" {
      assert left + right == left;
    } else {
      var most, last := right[..|right| - 1], right[|right| - 1];
      ValueOfConcat(left, most);
      assert (left + right)[..|left + right| - 1] == left + most;
      Regroup(Value(left), Pow10(|most|), Value(most), DigitValue(last));
    }
  }

  lemma Regroup(a: nat, p: nat, b: nat, d: nat)
    ensures (a * p + b) * 10 + d == a * (10 * p) + (b * 10 + d)
  {
  }

  lemma {:induction false} ValueOfZeros(n: nat)
    ensures Value(Zeros(n)) == 0
  {
    if n > 0 {
      assert Zeros(n)[..n - 1] == Zeros(n - 1);
      ValueOfZeros(n - 1);
    }
  }

  /** Leading zeros do not count. */
  lemma ValueOfPadded(n: nat, s: string)
    requires AllDigits(s)
    ensures AllDigits(Zeros(n) + s) && Value(Zeros(n) + s) == Value(s)
  {
    ValueOfConcat(Zeros(n), s);
    ValueOfZeros(n);
  }

  lemma {:induction false} ValueOfShow(n: nat)
    ensures Value(Show(n)) == n
  {
    if n < 10 {
      assert Show(n)[..0] == "";
    } else {
      ValueOfShow(n / 10);
      assert Show(n)[..|Show(n)| - 1] == Show(n / 10);
    }
  }

  /** The notation has no leading zero, except that of zero itself. */
  lemma {:induction false} ShowHasNoLeadingZero(n: nat)
    ensures Show(n)[0] == '0' <==> n == 0
  {
    if 10 <= n {
      ShowHasNoLeadingZero(n / 10);
    }
  }

  lemma {:induction false} Pow10Adds(j: nat, k: nat)
    ensures Pow10(j + k) == Pow10(j) * Pow10(k)
  {
    if j > 0 {
      Pow10Adds(j - 1, k);
      assert Pow10(j) * Pow10(k) == 10 * (Pow10(j - 1) * Pow10(k));
    }
  }
}
