/** `Number.prototype.toString(radix)` on non-negative integers: lowercase digits, no
    leading zeros, `"0"` for zero. The CSS-module hash prints in base 16, the styled
    component key in base 36. */
module Radix {

  predicate IsRadix(b: nat) { 2 <= b <= 36 }

  /** The value of a digit character, or -1 for a character that is not one. */
  function DigitValue(c: char): int {
    if '0' <= c <= '9' then c as int - '0' as int
    else if 'a' <= c <= 'z' then c as int - 'a' as int + 10
    else -1
  }

  function DigitChar(d: nat): (c: char)
    requires d < 36
    ensures DigitValue(c) == d
    ensures ('0' <= c <= '9') || ('a' <= c <= 'z')
  {
    if d < 10 then ('0' as int + d) as char else ('a' as int + d - 10) as char
  }

  predicate IsDigitIn(c: char, b: nat) { 0 <= DigitValue(c) < b }

  predicate AllDigitsIn(s: string, b: nat) { forall i :: 0 <= i < |s| ==> IsDigitIn(s[i], b) }

  /** The digits of `n` in base `b`, most significant first. */
  function Digits(n: nat, b: nat): (r: string)
    requires IsRadix(b)
    ensures |r| >= 1
    ensures AllDigitsIn(r, b)
    ensures n == 0 <==> r == "0"
    ensures n > 0 ==> r[0] != '0'
    decreases n
  {
    if n < b then [DigitChar(n)]
    else
      DivModFacts(n, b);
      Digits(n / b, b) + [DigitChar(n % b)]
  }

  lemma DivModFacts(n: nat, b: nat)
    requires 2 <= b <= n
    ensures n == b * (n / b) + n % b
    ensures 0 <= n % b < b
    ensures 1 <= n / b < n
  {
  }

  /** The number a digit string denotes, the inverse of `Digits`. */
  function Value(s: string, b: nat): nat
    requires AllDigitsIn(s, b)
  {
    if s == [] then 0 else Value(s[..|s| - 1], b) * b + DigitValue(s[|s| - 1])
  }

  /** Reading the printed digits back gives the number: printing loses nothing. */
  lemma {:induction false} ValueOfDigits(n: nat, b: nat)
    requires IsRadix(b)
    ensures Value(Digits(n, b), b) == n
    decreases n
  {
    var r := Digits(n, b);
    if n < b {
      assert r[..0] == [];
    } else {
      DivModFacts(n, b);
      var q, d := n / b, n % b;
      ValueOfDigits(q, b);
      assert r == Digits(q, b) + [DigitChar(d)];
      assert r[..|r| - 1] == Digits(q, b);
      assert Value(r, b) == Value(Digits(q, b), b) * b + d;
    }
  }

  /** Two numbers print the same only when they are equal. */
  lemma DigitsInjective(m: nat, n: nat, b: nat)
    requires IsRadix(b)
    requires Digits(m, b) == Digits(n, b)
    ensures m == n
  {
    ValueOfDigits(m, b);
    ValueOfDigits(n, b);
  }

  function Pow(b: nat, k: nat): nat {
    if k == 0 then 1 else b * Pow(b, k - 1)
  }

  lemma MulMono(b: nat, p: nat, q: nat)
    requires p <= q
    ensures b * p <= b * q
  {
  }

  lemma DivBelow(n: nat, b: nat, p: nat)
    requires 2 <= b <= n && n < b * p
    ensures n / b < p
  {
    DivModFacts(n, b);
    if n / b >= p {
      MulMono(b, p, n / b);
    }
  }

  /** A number below `b^k` prints in at most `k` digits. */
  lemma {:induction false} DigitsLength(n: nat, b: nat, k: nat)
    requires IsRadix(b) && k >= 1 && n < Pow(b, k)
    ensures |Digits(n, b)| <= k
    decreases n
  {
    if n >= b {
      DivModFacts(n, b);
      assert Pow(b, k) == b * Pow(b, k - 1);
      DivBelow(n, b, Pow(b, k - 1));
      DigitsLength(n / b, b, k - 1);
    }
  }

  lemma PowPositive(b: nat, k: nat)
    requires b >= 1
    ensures Pow(b, k) >= 1
  {
    if k > 0 {
      PowPositive(b, k - 1);
      MulMono(b, 1, Pow(b, k - 1));
    }
  }

  lemma DivAtLeast(n: nat, b: nat, p: nat)
    requires 2 <= b && b * p <= n
    ensures p <= n / b
  {
    if n / b < p {
      MulMono(b, n / b + 1, p);
    }
  }

  /** A number of at least `b^(k-1)` prints in at least `k` digits. */
  lemma {:induction false} DigitsLengthAtLeast(n: nat, b: nat, k: nat)
    requires IsRadix(b) && k >= 1 && n >= Pow(b, k - 1)
    ensures |Digits(n, b)| >= k
    decreases k
  {
    if k >= 2 {
      PowPositive(b, k - 2);
      assert Pow(b, k - 1) == b * Pow(b, k - 2);
      MulMono(b, 1, Pow(b, k - 2));
      DivModFacts(n, b);
      DivAtLeast(n, b, Pow(b, k - 2));
      DigitsLengthAtLeast(n / b, b, k - 1);
    }
  }
}
