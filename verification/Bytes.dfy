/** Octets, little-endian words and the bit-or of two naturals. */
module Bytes {

  type byte = x: int | 0 <= x < 256

  type Bytes = seq<byte>

  const TWO_16 := 0x1_0000
  const TWO_32 := 0x1_0000_0000

  function Le16(n: nat): (b: Bytes)
    requires n < TWO_16
    ensures |b| == 2 && FromLe16(b) == n
  {
    [n % 256, n / 256]
  }

  function FromLe16(b: Bytes): (n: nat)
    requires |b| == 2
    ensures n < TWO_16
  {
    (b[0] as int) + 256 * (b[1] as int)
  }

  function Le32(n: nat): (b: Bytes)
    requires n < TWO_32
    ensures |b| == 4 && FromLe32(b) == n
  {
    Le16(n % TWO_16) + Le16(n / TWO_16)
  }

  function FromLe32(b: Bytes): (n: nat)
    requires |b| == 4
    ensures n < TWO_32
  {
    FromLe16(b[..2]) + TWO_16 * FromLe16(b[2..])
  }

  function Zeros(n: nat): (b: Bytes)
    ensures |b| == n && forall i :: 0 <= i < n ==> b[i] == 0
  {
    seq(n, i => 0)
  }

  function Pow2(k: nat): (p: nat)
    ensures p > 0
  {
    if k == 0 then 1 else 2 * Pow2(k - 1)
  }

  /** The `|` of C++ and Python on non-negative operands. */
  function BitOr(a: nat, b: nat): nat
    decreases a + b
  {
    if a == 0 && b == 0 then 0
    else 2 * BitOr(a / 2, b / 2) + (if a % 2 == 1 || b % 2 == 1 then 1 else 0)
  }

  lemma {:induction false} BitOrZero(a: nat)
    ensures BitOr(a, 0) == a
  {
    if a > 0 {
      BitOrZero(a / 2);
    }
  }

  /** Shifting left by k makes room for k bits: `(a << k) | b` loses nothing. */
  lemma {:induction false} BitOrAdds(a: nat, b: nat, k: nat)
    requires b < Pow2(k)
    ensures BitOr(a * Pow2(k), b) == a * Pow2(k) + b
  {
    if k == 0 {
      BitOrZero(a);
    } else {
      var half := a * Pow2(k - 1);
      assert a * Pow2(k) == 2 * half;
      BitOrAdds(a, b / 2, k - 1);
      if half == 0 && b == 0 {
        assert a * Pow2(k) == 0;
      } else {
        assert (2 * half) / 2 == half && (2 * half) % 2 == 0;
      }
    }
  }

  lemma {:induction false} Pow2Of32()
    ensures Pow2(32) == TWO_32
  {
    assert Pow2(8) == 0x100;
    assert Pow2(16) == 0x1_0000 by {
      assert Pow2(12) == 0x1000;
    }
    assert Pow2(24) == 0x100_0000 by {
      assert Pow2(20) == 0x10_0000;
    }
    assert Pow2(28) == 0x1000_0000;
  }
}
