/** The server's client ids: 32 lowercase hexadecimal digits, the least
    significant digit first. */
module ClientIds {
  import opened Bytes

  const ID_SIZE := 32

  ghost predicate IsDigit(c: byte)
  {
    48 <= c <= 57 || 97 <= c <= 102
  }

  ghost predicate IsId(id: Bytes)
  {
    forall i :: 0 <= i < |id| ==> IsDigit(id[i])
  }

  /** `get_zerro_id` */
  function ZeroId(size: nat): (id: Bytes)
    ensures |id| == size
  {
    seq(size, i => 48)
  }

  /** `id[i]++` on a char. */
  function Increment(c: byte): byte
  {
    if c == 255 then 0 else c + 1
  }

  /** What adding one does to the digits. A character outside the alphabet is
      incremented like any other, in eight bits. */
  function Add1(id: Bytes): (next: Bytes)
    ensures |next| == |id|
  {
    if id == [] then []
    else if id[0] == 102 then [48] + Add1(id[1..])
    else if id[0] == 57 then [97] + id[1..]
    else [Increment(id[0])] + id[1..]
  }

  /** The carry runs through the leading 'f's. */
  lemma {:induction false} Add1Ripples(id: Bytes, i: nat)
    requires i <= |id| && forall k :: 0 <= k < i ==> id[k] == 102
    ensures Add1(id) == ZeroId(i) + Add1(id[i..])
  {
    if i == 0 {
      assert id[0..] == id;
    } else {
      Add1Ripples(id[1..], i - 1);
      assert id[1..][i - 1..] == id[i..];
      ZeroIdGrows(i, Add1(id[i..]));
    }
  }

  lemma ZeroIdGrows(i: nat, rest: Bytes)
    requires i > 0
    ensures ZeroId(i) + rest == [48] + (ZeroId(i - 1) + rest)
  {
  }

  /** `id_add1`: ripples a carry over a copy of the digits. */
  method IdAdd1(id: Bytes) returns (next: Bytes)
    ensures next == Add1(id)
  {
    var digits := new byte[|id|](k requires 0 <= k < |id| => id[k]);
    var i := 0;
    var changed := false;
    while i < |id| && !changed
      invariant 0 <= i <= |id|
      invariant changed ==> i < |id|
      invariant forall k :: 0 <= k < i ==> id[k] == 102 && digits[k] == 48
      invariant forall k :: i < k < |id| ==> digits[k] == id[k]
      invariant i < |id| && !changed ==> digits[i] == id[i]
      invariant changed ==> id[i] != 102 && digits[i] == if id[i] == 57 then 97 else Increment(id[i])
      decreases |id| - i, !changed
    {
      if digits[i] == 102 {
        digits[i] := 48;
        i := i + 1;
      } else if digits[i] == 57 {
        digits[i] := 97;
        changed := true;
      } else {
        digits[i] := Increment(digits[i]);
        changed := true;
      }
    }
    next := digits[..];
    RippledIs(id, next, i, changed);
  }

  /** The digits after the loop: zeros, then the digit that took the carry, then
      what was there. */
  lemma RippledIs(id: Bytes, next: Bytes, i: nat, changed: bool)
    requires |next| == |id| && i <= |id| && (changed || i == |id|) && (changed ==> i < |id|)
    requires forall k :: 0 <= k < i ==> id[k] == 102 && next[k] == 48
    requires forall k :: i < k < |id| ==> next[k] == id[k]
    requires changed ==> id[i] != 102 && next[i] == if id[i] == 57 then 97 else Increment(id[i])
    ensures next == Add1(id)
  {
    Add1Ripples(id, i);
    assert next == ZeroId(i) + next[i..];
    if changed {
      assert next[i..] == [next[i]] + id[i..][1..];
    }
  }

  function Pow16(n: nat): (p: nat)
    ensures p > 0
  {
    if n == 0 then 1 else 16 * Pow16(n - 1)
  }

  function DigitValue(c: byte): nat
  {
    if c <= 57 then if c < 48 then 0 else c - 48 else if c < 97 then 0 else c - 87
  }

  /** The number a little-endian id denotes. */
  function Value(id: Bytes): (n: nat)
  {
    if id == [] then 0 else DigitValue(id[0]) + 16 * Value(id[1..])
  }

  /** The id that denotes n modulo 16^size. */
  function FromNat(n: nat, size: nat): (id: Bytes)
    ensures |id| == size
  {
    if size == 0 then []
    else [if n % 16 < 10 then 48 + n % 16 else 87 + n % 16] + FromNat(n / 16, size - 1)
  }

  lemma {:induction false} FromNatIsId(n: nat, size: nat)
    ensures IsId(FromNat(n, size))
  {
    if size > 0 {
      FromNatIsId(n / 16, size - 1);
    }
  }

  lemma {:induction false} ValueBound(id: Bytes)
    requires IsId(id)
    ensures Value(id) < Pow16(|id|)
  {
    if id != [] {
      ValueBound(id[1..]);
    }
  }

  lemma {:induction false} FromNatValue(id: Bytes)
    requires IsId(id)
    ensures FromNat(Value(id), |id|) == id
  {
    if id != [] {
      FromNatValue(id[1..]);
      assert Value(id) / 16 == Value(id[1..]) && Value(id) % 16 == DigitValue(id[0]);
      assert id == [id[0]] + id[1..];
    }
  }

  lemma {:induction false} ValueFromNat(n: nat, size: nat)
    requires n < Pow16(size)
    ensures Value(FromNat(n, size)) == n
  {
    if size > 0 {
      ValueFromNat(n / 16, size - 1);
      assert FromNat(n, size)[1..] == FromNat(n / 16, size - 1);
    }
  }

  /** Adding one stays in the alphabet and is the successor modulo 16^size. */
  lemma {:induction false} Add1IsSuccessor(id: Bytes)
    requires IsId(id)
    ensures IsId(Add1(id))
    ensures Value(Add1(id)) == if Value(id) + 1 == Pow16(|id|) then 0 else Value(id) + 1
  {
    if id != [] {
      var rest := id[1..];
      ValueBound(rest);
      assert Add1(id)[1..] == if id[0] == 102 then Add1(rest) else rest;
      if id[0] == 102 {
        Add1IsSuccessor(rest);
      }
    }
  }

  function Iterate(id: Bytes, k: nat): (r: Bytes)
    ensures |r| == |id|
  {
    if k == 0 then id else Add1(Iterate(id, k - 1))
  }

  lemma {:induction false} ZeroIdIsZero(size: nat)
    ensures ZeroId(size) == FromNat(0, size)
  {
    if size > 0 {
      ZeroIdIsZero(size - 1);
      assert ZeroId(size) == [48] + ZeroId(size - 1);
    }
  }

  lemma {:induction false} Add1FromNat(n: nat, size: nat)
    requires n + 1 < Pow16(size)
    ensures Add1(FromNat(n, size)) == FromNat(n + 1, size)
  {
    var id := FromNat(n, size);
    FromNatIsId(n, size);
    ValueFromNat(n, size);
    Add1IsSuccessor(id);
    FromNatValue(Add1(id));
  }

  /** Step k of the counter is the number k: nothing repeats in 16^size steps. */
  lemma {:induction false} IterateFromZero(k: nat, size: nat)
    requires k < Pow16(size)
    ensures Iterate(ZeroId(size), k) == FromNat(k, size)
    ensures Value(Iterate(ZeroId(size), k)) == k
  {
    if k == 0 {
      ZeroIdIsZero(size);
    } else {
      IterateFromZero(k - 1, size);
      Add1FromNat(k - 1, size);
    }
    ValueFromNat(k, size);
  }

  /** The step after the last one returns to the zero id. */
  lemma {:induction false} CounterWraps(size: nat)
    ensures Iterate(ZeroId(size), Pow16(size)) == ZeroId(size)
  {
    var last := Iterate(ZeroId(size), Pow16(size) - 1);
    IterateFromZero(Pow16(size) - 1, size);
    FromNatIsId(Pow16(size) - 1, size);
    Add1IsSuccessor(last);
    FromNatValue(Add1(last));
    ZeroIdIsZero(size);
  }

  lemma Add1FromNatWraps(r: nat, size: nat)
    requires r < Pow16(size)
    ensures Add1(FromNat(r, size)) == FromNat(if r + 1 == Pow16(size) then 0 else r + 1, size)
  {
    if r + 1 < Pow16(size) {
      Add1FromNat(r, size);
    } else {
      CounterWraps(size);
      IterateFromZero(r, size);
      ZeroIdIsZero(size);
    }
  }

  /** Step k of the counter is k modulo 16^size, however long it runs. */
  lemma {:induction false} IteratePeriod(k: nat, size: nat)
    ensures Iterate(ZeroId(size), k) == FromNat(k % Pow16(size), size)
  {
    var period := Pow16(size);
    if k == 0 {
      ZeroIdIsZero(size);
      ModUnique(0, period, 0, 0);
    } else {
      IteratePeriod(k - 1, size);
      ModBound(k - 1, period);
      ModStep(k - 1, period);
      OneMoreStep(k - 1, size, (k - 1) % period, k % period);
    }
  }

  lemma OneMoreStep(k: nat, size: nat, r: nat, next: nat)
    requires Iterate(ZeroId(size), k) == FromNat(r, size) && r < Pow16(size)
    requires next == if r + 1 == Pow16(size) then 0 else r + 1
    ensures Iterate(ZeroId(size), k + 1) == FromNat(next, size)
  {
    Add1FromNatWraps(r, size);
  }

  lemma ModBound(a: nat, p: nat)
    requires p > 0
    ensures a % p < p
  {
  }

  lemma ModStep(k: nat, p: nat)
    requires p > 0
    ensures (k + 1) % p == if k % p + 1 == p then 0 else k % p + 1
  {
    var q, r := k / p, k % p;
    assert k == q * p + r;
    if r + 1 == p {
      assert k + 1 == (q + 1) * p;
      ModUnique(k + 1, p, q + 1, 0);
    } else {
      ModUnique(k + 1, p, q, r + 1);
    }
  }

  lemma ModUnique(a: nat, p: nat, q: nat, r: nat)
    requires p > 0 && a == q * p + r && r < p
    ensures a % p == r
  {
    var q', r' := a / p, a % p;
    assert a == q' * p + r';
    if q' < q {
      assert (q - q') * p >= p by { MulAtLeast(q - q', p); }
    } else if q < q' {
      assert (q' - q) * p >= p by { MulAtLeast(q' - q, p); }
    }
  }

  lemma MulAtLeast(a: nat, p: nat)
    requires a >= 1
    ensures a * p >= p
  {
  }
}
