/** Decimal digit strings of natural numbers, with and without zero padding. */
module DecimalDigits {

  predicate IsDigit(c: char) {
    '0' <= c <= '9'
  }

  function DigitOf(n: nat): (c: char)
    requires n < 10
    ensures IsDigit(c)
  {
    (n + '0' as int) as char
  }

  function ValueOf(c: char): nat
    requires IsDigit(c)
  {
    c as int - '0' as int
  }

  function Digits(n: nat): (s: string)
    ensures s != [] && forall i :: 0 <= i < |s| ==> IsDigit(s[i])
  {
    if n < 10 then [DigitOf(n)] else Digits(n / 10) + [DigitOf(n % 10)]
  }

  /** The number a digit string denotes. */
  function Number(s: string): nat
    requires forall i :: 0 <= i < |s| ==> IsDigit(s[i])
  {
    if s == [] then 0 else Number(s[..|s| - 1]) * 10 + ValueOf(s[|s| - 1])
  }

  function Pow10(n: nat): (p: nat)
    ensures p >= 1
  {
    if n == 0 then 1 else 10 * Pow10(n - 1)
  }

  lemma {:induction false} NumberOfDigits(n: nat)
    ensures Number(Digits(n)) == n
  {
    if n < 10 {
      assert Digits(n)[..0] == [];
    } else {
      var init := Digits(n / 10);
      assert Digits(n)[..|Digits(n)| - 1] == init;
      NumberOfDigits(n / 10);
    }
  }

  /** Distinct numbers have distinct digit strings. */
  lemma DigitsAreInjective(a: nat, b: nat)
    ensures Digits(a) == Digits(b) <==> a == b
  {
    NumberOfDigits(a);
    NumberOfDigits(b);
  }

  lemma {:induction false} DigitsFit(n: nat, width: nat)
    requires width >= 1 && n < Pow10(width)
    ensures |Digits(n)| <= width
  {
    if n >= 10 {
      assert Pow10(1) == 10 * Pow10(0) && Pow10(width) == 10 * Pow10(width - 1);
      DigitsFit(n / 10, width - 1);
    }
  }

  function Zeros(n: nat): (s: string)
    ensures |s| == n && forall i :: 0 <= i < n ==> s[i] == '0'
  {
    seq(n, i => '0')
  }

  /** `f"{n:0{width}d}"`. */
  function Padded(n: nat, width: nat): (s: string)
    ensures forall i :: 0 <= i < |s| ==> IsDigit(s[i])
  {
    var digits := Digits(n);
    if |digits| < width then Zeros(width - |digits|) + digits else digits
  }

  lemma {:induction false} NumberOfZerosThen(k: nat, s: string)
    requires forall i :: 0 <= i < |s| ==> IsDigit(s[i])
    ensures Number(Zeros(k) + s) == Number(s)
    decreases k + |s|
  {
    var z := Zeros(k) + s;
    if s == [] {
      if k > 0 {
        assert z[..k - 1] == Zeros(k - 1) + [];
        NumberOfZerosThen(k - 1, []);
      }
    } else {
      assert z[..|z| - 1] == Zeros(k) + s[..|s| - 1];
      NumberOfZerosThen(k, s[..|s| - 1]);
    }
  }

  /** Padding keeps the number, and gives exactly the width when the number fits. */
  lemma PaddedIsExact(n: nat, width: nat)
    ensures Number(Padded(n, width)) == n
    ensures width >= 1 && n < Pow10(width) ==> |Padded(n, width)| == width
  {
    NumberOfDigits(n);
    var digits := Digits(n);
    if |digits| < width {
      NumberOfZerosThen(width - |digits|, digits);
    }
    if width >= 1 && n < Pow10(width) {
      DigitsFit(n, width);
    }
  }
}
