/** Numbers in decimal and hexadecimal digits. */
module Numerals {
  import opened Base

  type Radix = b: nat | b == 10 || b == 16 witness 10

  /** Most significant digit first; zero is the one digit 0. */
  function Digits(n: nat, base: Radix): (ds: seq<nat>)
    ensures ds != []
    ensures forall i :: 0 <= i < |ds| ==> ds[i] < base
    ensures ds[0] == 0 ==> n == 0
  {
    if n < base then [n] else Digits(n / base, base) + [n % base]
  }

  function Value(ds: seq<nat>, base: Radix): nat {
    if ds == [] then 0 else Value(ds[..|ds| - 1], base) * base + ds[|ds| - 1]
  }

  lemma {:induction false} ValueOfDigits(n: nat, base: Radix)
    ensures Value(Digits(n, base), base) == n
  {
    if n >= base {
      var ds := Digits(n, base);
      assert ds[..|ds| - 1] == Digits(n / base, base);
      ValueOfDigits(n / base, base);
    } else {
      assert Digits(n, base)[..0] == [];
    }
  }

  function Pow(base: nat, k: nat): nat {
    if k == 0 then 1 else base * Pow(base, k - 1)
  }

  lemma {:induction false} DigitsBound(n: nat, base: Radix, k: nat)
    requires k > 0 && n < Pow(base, k)
    ensures |Digits(n, base)| <= k
  {
    if n < base {
    } else {
      assert k > 1 by {
        assert Pow(base, 1) == base * Pow(base, 0);
      }
      if base == 10 {
        assert n / 10 < Pow(base, k - 1);
      } else {
        assert n / 16 < Pow(base, k - 1);
      }
      DigitsBound(n / base, base, k - 1);
    }
  }

  lemma {:induction false} PowPositive(base: Radix, k: nat)
    ensures Pow(base, k) > 0
  {
    if k == 0 {
    } else {
      PowPositive(base, k - 1);
    }
  }

  lemma {:induction false} DigitsAtLeast(n: nat, base: Radix, k: nat)
    requires Pow(base, k) <= n
    ensures |Digits(n, base)| > k
  {
    if k == 0 {
    } else {
      PowPositive(base, k - 1);
      if base == 10 {
        assert Pow(10, k - 1) <= n / 10;
      } else {
        assert Pow(16, k - 1) <= n / 16;
      }
      DigitsAtLeast(n / base, base, k - 1);
    }
  }

  lemma Powers()
    ensures Pow(10, 3) == 1_000 && Pow(10, 5) == 100_000 && Pow(10, 8) == 100_000_000
    ensures Pow(10, 9) == 1_000_000_000
    ensures Pow(10, 10) == 10_000_000_000
    ensures Pow(16, 8) == 0x1_0000_0000
  {
    assert Pow(10, 2) == 100 && Pow(10, 4) == 10_000 && Pow(10, 6) == 1_000_000;
    assert Pow(10, 8) == 10 * Pow(10, 7) && Pow(10, 10) == 10 * Pow(10, 9);
    assert Pow(16, 2) == 0x100 && Pow(16, 4) == 0x1_0000 && Pow(16, 6) == 0x100_0000;
    assert Pow(16, 8) == 16 * Pow(16, 7);
  }

  /** printf's %u, %lu and %d of a number that is not negative. */
  function Dec(n: nat): (r: bytes)
    ensures r != []
    ensures forall i :: 0 <= i < |r| ==> 48 <= r[i] <= 57
    ensures r[0] == 48 ==> n == 0
  {
    var ds := Digits(n, 10);
    seq(|ds|, i requires 0 <= i < |ds| => 48 + ds[i])
  }

  /** The number decimal digits stand for. */
  function Undec(s: bytes): nat
    requires forall i :: 0 <= i < |s| ==> 48 <= s[i] <= 57
  {
    Value(seq(|s|, i requires 0 <= i < |s| => s[i] - 48), 10)
  }

  lemma UndecDec(n: nat)
    ensures Undec(Dec(n)) == n
  {
    var s, ds := Dec(n), Digits(n, 10);
    assert seq(|s|, i requires 0 <= i < |s| => s[i] - 48) == ds;
    ValueOfDigits(n, 10);
  }

  lemma DecLengths(n: nat)
    ensures n < 1_000 ==> |Dec(n)| <= 3
    ensures n < 100_000 ==> |Dec(n)| <= 5
    ensures n < 0x1_0000_0000 ==> |Dec(n)| <= 10
  {
    Powers();
    if n < 1_000 {
      DigitsBound(n, 10, 3);
    }
    if n < 100_000 {
      DigitsBound(n, 10, 5);
    }
    if n < 0x1_0000_0000 {
      DigitsBound(n, 10, 10);
    }
  }
}
