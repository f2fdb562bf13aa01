/**
 Binary logarithms by halving the exponent range.
 */
module Bits {

  function Pow2(n: nat): (p: nat)
    ensures p >= 1
  {
    if n == 0 then 1 else 2 * Pow2(n - 1)
  }

  lemma {:induction false} Pow2Monotone(a: nat, b: nat)
    requires a <= b
    ensures Pow2(a) <= Pow2(b)
  {
    if a < b {
      Pow2Monotone(a, b - 1);
    }
  }

  /** value >> shift: halving, `shift` times. */
  function ShiftRight(value: nat, shift: nat): nat
    decreases shift
  {
    if shift == 0 then value else ShiftRight(value / 2, shift - 1)
  }

  lemma {:induction false} ShiftTwice(value: nat, a: nat, b: nat)
    ensures ShiftRight(ShiftRight(value, a), b) == ShiftRight(value, a + b)
    decreases a
  {
    if a > 0 {
      ShiftTwice(value / 2, a - 1, b);
    }
  }

  /** A value below 2^(a+b) is below 2^b after shifting by a. */
  lemma {:induction false} ShiftBelow(value: nat, a: nat, b: nat)
    ensures value < Pow2(a + b) <==> ShiftRight(value, a) < Pow2(b)
    decreases a
  {
    if a > 0 {
      ShiftBelow(value / 2, a - 1, b);
      assert Pow2(a + b) == 2 * Pow2(a - 1 + b);
    }
  }

  /** The loop for words of any width: starting exponent k, all n below 2^(2^(k+1)). */
  method Log2FloorLoop(n: nat, k: nat) returns (log: int)
    requires n < Pow2(Pow2(k + 1))
    ensures n == 0 ==> log == -1
    ensures n > 0 ==> log >= 0 && Pow2(log) <= n < Pow2(log + 1)
  {
    if n == 0 {
      return -1;
    }
    log := 0;
    var value := n;
    var i: int := k;
    while i >= 0
      invariant -1 <= i <= k && log >= 0
      invariant 0 < value < Pow2(Pow2(i + 1))
      invariant value == ShiftRight(n, log)
    {
      var shift := Pow2(i);
      var x := ShiftRight(value, shift);
      assert Pow2(i + 1) == shift + shift && Pow2(0) == 1;
      ShiftBelow(value, shift, shift);
      ShiftBelow(value, shift, 0);
      ShiftTwice(n, log, shift);
      if x != 0 {
        value := x;
        log := log + shift;
      }
      i := i - 1;
    }
    assert Pow2(0) == 1 && Pow2(1) == 2;
    ShiftBelow(n, log, 0);
    ShiftBelow(n, log, 1);
  }

  lemma Width32()
    ensures Pow2(Pow2(5)) == 0x1_0000_0000
  {
    assert Pow2(4) == 16 && Pow2(5) == 32;
    assert Pow2(8) == 256 && Pow2(12) == 4096 && Pow2(16) == 0x1_0000;
    assert Pow2(20) == 0x10_0000 && Pow2(24) == 0x100_0000 && Pow2(28) == 0x1000_0000;
  }

  /** The 32-bit code starts at exponent 4. */
  method Log2Floor(n: nat) returns (log: int)
    requires n < 0x1_0000_0000
    ensures n == 0 ==> log == -1
    ensures n > 0 ==> log >= 0 && Pow2(log) <= n < Pow2(log + 1)
  {
    Width32();
    log := Log2FloorLoop(n, 4);
  }

  /** The least exponent whose power is at least n. */
  method Log2Ceiling(n: nat) returns (log: int)
    requires n < 0x1_0000_0000
    ensures n == 0 ==> log == -1
    ensures n > 0 ==> log >= 0 && n <= Pow2(log) && forall r: nat :: n <= Pow2(r) ==> log <= r
  {
    if n == 0 {
      return -1;
    }
    var floor := Log2Floor(n - 1);
    log := 1 + floor;
    forall r: nat | n <= Pow2(r)
      ensures log <= r
    {
      if r < log {
        Pow2Monotone(r, floor);
      }
    }
  }

  /** The floor is determined by its contract. */
  lemma FloorUnique(n: nat, a: nat, b: nat)
    requires Pow2(a) <= n < Pow2(a + 1) && Pow2(b) <= n < Pow2(b + 1)
    ensures a == b
  {
    if a < b {
      Pow2Monotone(a + 1, b);
    } else if b < a {
      Pow2Monotone(b + 1, a);
    }
  }
}
