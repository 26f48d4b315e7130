/**
 Decimal text of integers, as Rust's `to_string` and `{:018}` produce it and `from_str` reads it.
 */
module Decimal {

  predicate IsDigit(c: char) {
    '0' <= c <= '9'
  }

  predicate IsDigits(s: string) {
    forall i :: 0 <= i < |s| ==> IsDigit(s[i])
  }

  function DigitChar(d: nat): (c: char)
    requires d < 10
    ensures IsDigit(c) && DigitValue(c) == d
  {
    '0' + d as char
  }

  function DigitValue(c: char): (d: nat)
    requires IsDigit(c)
    ensures d < 10 && (d == 0 <==> c == '0')
  {
    (c - '0') as nat
  }

  // The number a digit string stands for, leading zeros allowed.
  function Value(s: string): nat
    requires IsDigits(s)
  {
    if s == [] then 0
    else Value(s[..|s| - 1]) * 10 + DigitValue(s[|s| - 1])
  }

  // The shortest decimal text of n.
  function Text(n: nat): string {
    if n < 10 then [DigitChar(n)] else Text(n / 10) + [DigitChar(n % 10)]
  }

  function IntText(z: int): string {
    if z < 0 then "-" + Text(-z) else Text(z)
  }

  // Digits with no superfluous leading zero.
  predicate Canonical(s: string) {
    s != [] && IsDigits(s) && (|s| > 1 ==> s[0] != '0')
  }

  lemma {:induction false} TextIsCanonical(n: nat)
    ensures Canonical(Text(n)) && Value(Text(n)) == n
    ensures n > 0 ==> Text(n)[0] != '0'
  {
    if n < 10 {
      assert Text(n) == [DigitChar(n)];
      assert Value([DigitChar(n)][..0]) == 0;
    } else {
      TextIsCanonical(n / 10);
      var s := Text(n);
      assert s[..|s| - 1] == Text(n / 10);
    }
  }

  lemma {:induction false} CanonicalIsText(s: string)
    requires Canonical(s)
    ensures Text(Value(s)) == s
  {
    var init, last := s[..|s| - 1], s[|s| - 1];
    assert s == init + [last];
    if |s| > 1 {
      assert init[0] == s[0];
      CanonicalIsText(init);
      ValuePositive(init);
      assert Value(s) == Value(init) * 10 + DigitValue(last);
      assert Value(s) / 10 == Value(init) && Value(s) % 10 == DigitValue(last);
    } else {
      assert Value(init) == 0;
    }
  }

  lemma {:induction false} ValuePositive(s: string)
    requires IsDigits(s) && s != [] && s[0] != '0'
    ensures Value(s) > 0
  {
    if |s| > 1 {
      ValuePositive(s[..|s| - 1]);
    } else {
      assert Value(s[..0]) == 0;
    }
  }

  function Zeros(k: nat): (s: string)
    ensures |s| == k && forall i :: 0 <= i < k ==> s[i] == '0'
  {
    seq(k, _ => '0')
  }

  // Rust's `{n:0width}`.
  function Padded(n: nat, width: nat): string {
    var t := Text(n);
    if |t| >= width then t else Zeros(width - |t|) + t
  }

  function Pow10(k: nat): (p: nat)
    ensures p > 0
  {
    if k == 0 then 1 else 10 * Pow10(k - 1)
  }

  // The last k digits of n, most significant first.
  function LowDigits(n: nat, k: nat): (s: string)
    ensures |s| == k && IsDigits(s)
  {
    if k == 0 then [] else LowDigits(n / 10, k - 1) + [DigitChar(n % 10)]
  }

  lemma {:induction false} LowDigitsOfZero(k: nat)
    ensures LowDigits(0, k) == Zeros(k)
  {
    if k > 0 {
      LowDigitsOfZero(k - 1);
    }
  }

  lemma {:induction false} TextFits(n: nat, k: nat)
    requires k > 0 && n < Pow10(k)
    ensures |Text(n)| <= k && LowDigits(n, k) == Zeros(k - |Text(n)|) + Text(n)
  {
    if n < 10 {
      LowDigitsOfZero(k - 1);
      assert n / 10 == 0 && n % 10 == n;
    } else {
      assert k > 1;
      TextFits(n / 10, k - 1);
    }
  }

  // Zero-padding a number that fits the field yields exactly the field's digits.
  lemma PaddedIsLowDigits(n: nat, k: nat)
    requires k > 0 && n < Pow10(k)
    ensures Padded(n, k) == LowDigits(n, k)
  {
    TextFits(n, k);
  }

  lemma {:induction false} LowDigitsModulo(n: nat, k: nat)
    ensures LowDigits(n % Pow10(k), k) == LowDigits(n, k)
  {
    if k > 0 {
      var p := Pow10(k - 1);
      DivModStep(n, p);
      LowDigitsModulo(n / 10, k - 1);
    }
  }

  lemma DivModStep(n: nat, p: nat)
    requires p > 0
    ensures (n % (10 * p)) / 10 == (n / 10) % p
    ensures (n % (10 * p)) % 10 == n % 10
    ensures n / (10 * p) == (n / 10) / p
  {
    var t, u := n / 10, n % 10;
    var q, r := t / p, t % p;
    assert n == 10 * (p * q + r) + u;
    var m := 10 * r + u;
    assert n == q * (10 * p) + m;
    assert 0 <= m < 10 * p;
    DivModUnique(n, 10 * p, q, m);
  }

  lemma DivModUnique(n: nat, d: nat, q: nat, r: nat)
    requires d > 0 && n == q * d + r && r < d
    ensures n / d == q && n % d == r
  {
    var q', r' := n / d, n % d;
    assert n == q' * d + r';
    SmallMultiple(q - q', d, r' - r);
  }

  lemma SmallMultiple(k: int, d: nat, x: int)
    requires k * d == x && 0 - d < x < d
    ensures k == 0
  {
    MultipleAtLeast(k, d);
    MultipleAtLeast(0 - k, d);
    assert (0 - k) * d == 0 - x by { assert (0 - k) * d + k * d == ((0 - k) + k) * d == 0; }
  }

  lemma MultipleAtLeast(k: int, d: nat)
    ensures k > 0 ==> k * d >= d
    decreases k
  {
    if k > 1 {
      MultipleAtLeast(k - 1, d);
      assert k * d == (k - 1) * d + d;
    }
  }

  // Schoolbook splitting: a number's text is its quotient's text followed by its low digits.
  lemma {:induction false} TextSplit(n: nat, k: nat)
    requires n >= Pow10(k)
    ensures Text(n) == Text(n / Pow10(k)) + LowDigits(n, k)
  {
    if k > 0 {
      var p := Pow10(k - 1);
      DivModStep(n, p);
      assert n >= 10;
      TextSplit(n / 10, k - 1);
    } else {
      assert n / 1 == n;
    }
  }
}
