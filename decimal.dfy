/** Decimal numerals: what `sprintf("%d")` prints for a node counter and what `atoi`
    reads back from a record's length field. */
module Decimal {

  predicate IsDigit(c: char) {
    '0' <= c <= '9'
  }

  function DigitChar(d: nat): (c: char)
    requires d < 10
    ensures IsDigit(c)
  {
    ['0', '1', '2', '3', '4', '5', '6', '7', '8', '9'][d]
  }

  function DigitValue(c: char): (d: nat)
    requires IsDigit(c)
    ensures d < 10
  {
    (c as int - '0' as int) as nat
  }

  lemma DigitRoundTrip(d: nat)
    requires d < 10
    ensures DigitValue(DigitChar(d)) == d
  {
  }

  predicate AllDigits(s: seq<char>) {
    forall j :: 0 <= j < |s| ==> IsDigit(s[j])
  }

  /** `sprintf(buf, "%d", n)` for a non-negative `n`: no sign, no leading zeros. */
  function Numeral(n: nat): (s: seq<char>)
    ensures |s| > 0 && AllDigits(s)
    ensures s[0] == '0' ==> n == 0
  {
    if n < 10 then [DigitChar(n)] else Numeral(n / 10) + [DigitChar(n % 10)]
  }

  /** The number an all-digit string spells, most significant digit first. */
  function ValueOf(s: seq<char>): nat
    requires AllDigits(s)
  {
    if |s| == 0 then 0 else 10 * ValueOf(s[..|s| - 1]) + DigitValue(s[|s| - 1])
  }

  /** Reading back what was printed gives the number: printing is injective. */
  lemma {:induction false} ValueOfNumeral(n: nat)
    ensures ValueOf(Numeral(n)) == n
  {
    var s := Numeral(n);
    if n < 10 {
      DigitRoundTrip(n);
    } else {
      assert s[..|s| - 1] == Numeral(n / 10);
      ValueOfNumeral(n / 10);
      DigitRoundTrip(n % 10);
    }
  }

  lemma NumeralInjective(a: nat, b: nat)
    requires Numeral(a) == Numeral(b)
    ensures a == b
  {
    ValueOfNumeral(a);
    ValueOfNumeral(b);
  }

  /** How many digits stand in `buf` from `off` on. */
  function DigitRun(buf: seq<char>, off: nat): (k: nat)
    ensures k == 0 || off + k <= |buf|
    decreases |buf| - off
  {
    if off < |buf| && IsDigit(buf[off]) then 1 + DigitRun(buf, off + 1) else 0
  }

  function Pow10(k: nat): (p: nat)
    ensures p >= 1
  {
    if k == 0 then 1 else 10 * Pow10(k - 1)
  }

  /** A string of `k` digits spells a number below `10^k`. */
  lemma {:induction false} ValueOfBelow(s: seq<char>)
    requires AllDigits(s)
    ensures ValueOf(s) < Pow10(|s|)
  {
    if |s| > 0 {
      ValueOfBelow(s[..|s| - 1]);
    }
  }

  /** `atoi(buf + off)` on a length field: the value of the decimal digits at `off`
      (zero when there are none). */
  function Atoi(buf: seq<char>, off: nat): (v: nat)
    ensures v < Pow10(DigitRun(buf, off))
  {
    var k := DigitRun(buf, off);
    if k == 0 then 0
    else
      DigitRunDigits(buf, off);
      assert AllDigits(buf[off..off + k]);
      ValueOfBelow(buf[off..off + k]);
      ValueOf(buf[off..off + k])
  }

  /** The run holds digits only. */
  lemma {:induction false} DigitRunDigits(buf: seq<char>, off: nat)
    ensures forall j :: off <= j < off + DigitRun(buf, off) ==> IsDigit(buf[j])
    decreases |buf| - off
  {
    if off < |buf| && IsDigit(buf[off]) {
      DigitRunDigits(buf, off + 1);
    }
  }

  /** A run of digits ended by a non-digit (or by the end) is read whole. */
  lemma {:induction false} DigitRunExact(buf: seq<char>, off: nat, k: nat)
    requires off + k <= |buf|
    requires AllDigits(buf[off..off + k])
    requires off + k == |buf| || !IsDigit(buf[off + k])
    ensures DigitRun(buf, off) == k
    decreases k
  {
    if k > 0 {
      assert IsDigit(buf[off..off + k][0]);
      assert buf[off + 1..off + k] == buf[off..off + k][1..];
      DigitRunExact(buf, off + 1, k - 1);
    }
  }

  /** `atoi` reads a run of digits whole when a non-digit (or the end) follows it. */
  lemma AtoiDigits(buf: seq<char>, off: nat, a: seq<char>)
    requires |a| > 0 && AllDigits(a)
    requires off + |a| <= |buf| && buf[off..off + |a|] == a
    requires off + |a| == |buf| || !IsDigit(buf[off + |a|])
    ensures Atoi(buf, off) == ValueOf(a)
  {
    DigitRunExact(buf, off, |a|);
  }
}
