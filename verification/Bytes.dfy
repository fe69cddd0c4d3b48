/**
 Byte strings and Python's integer/byte conversions: `int.to_bytes(k, "little")`,
 `int.from_bytes(b, "little")`, their signed forms, and the clamping slice `b[i:j]`.
 */
module Bytes {
  import opened Wrappers

  type byte = i: int | 0 <= i < 256

  function Digit(b: bool): nat {
    if b then 1 else 0
  }

  function Pow2(n: nat): (p: int)
    ensures p >= 1
  {
    if n == 0 then 1 else 2 * Pow2(n - 1)
  }

  function Pow256(k: nat): (p: int)
    ensures p >= 1
  {
    if k == 0 then 1 else 256 * Pow256(k - 1)
  }

  lemma {:induction false} Pow2Add(a: nat, b: nat)
    ensures Pow2(a + b) == Pow2(a) * Pow2(b)
  {
    if a > 0 {
      Pow2Add(a - 1, b);
    }
  }

  lemma {:induction false} Pow256IsPow2(k: nat)
    ensures Pow256(k) == Pow2(8 * k)
  {
    if k > 0 {
      Pow256IsPow2(k - 1);
      Pow2Add(8, 8 * (k - 1));
      assert Pow2(8) == 256;
    }
  }

  lemma Pow256Values()
    ensures Pow256(1) == 0x100 && Pow256(2) == 0x1_0000
    ensures Pow256(4) == 0x1_0000_0000 && Pow256(8) == 0x1_0000_0000_0000_0000
  {
  }

  lemma {:induction false} Pow256Mono(a: nat, b: nat)
    requires a <= b
    ensures Pow256(a) <= Pow256(b)
    decreases b
  {
    if a < b {
      Pow256Mono(a, b - 1);
    }
  }

  /** The `k` low base-256 digits of `n`, least significant first. */
  function Le(n: nat, k: nat): (b: seq<byte>)
    ensures |b| == k
  {
    if k == 0 then [] else [n % 256] + Le(n / 256, k - 1)
  }

  /** `int.from_bytes(b, "little")`. */
  function FromLe(b: seq<byte>): (n: nat)
  {
    if b == [] then 0 else b[0] + 256 * FromLe(b[1..])
  }

  lemma {:induction false} FromLeBound(b: seq<byte>)
    ensures FromLe(b) < Pow256(|b|)
  {
    if b != [] {
      FromLeBound(b[1..]);
    }
  }

  lemma {:induction false} FromLeOfLe(n: nat, k: nat)
    requires n < Pow256(k)
    ensures FromLe(Le(n, k)) == n
  {
    if k > 0 {
      FromLeOfLe(n / 256, k - 1);
      assert Le(n, k)[1..] == Le(n / 256, k - 1);
    }
  }

  lemma {:induction false} LeOfFromLe(b: seq<byte>)
    ensures Le(FromLe(b), |b|) == b
  {
    if b != [] {
      LeOfFromLe(b[1..]);
      assert FromLe(b) % 256 == b[0] && FromLe(b) / 256 == FromLe(b[1..]);
    }
  }

  lemma Scale(p: int, t: int)
    ensures 256 * (p * t) == (256 * p) * t
  {
  }

  lemma {:induction false} FromLeConcat(a: seq<byte>, b: seq<byte>)
    ensures FromLe(a + b) == FromLe(a) + Pow256(|a|) * FromLe(b)
  {
    if a == [] {
      assert a + b == b;
    } else {
      FromLeConcat(a[1..], b);
      assert (a + b)[1..] == a[1..] + b;
      assert FromLe(a + b) == a[0] + 256 * FromLe(a[1..] + b) && FromLe(a) == a[0] + 256 * FromLe(a[1..]);
      assert Pow256(|a|) == 256 * Pow256(|a[1..]|);
      hide FromLe, Pow256;
      Scale(Pow256(|a[1..]|), FromLe(b));
    }
  }

  /** `n.to_bytes(k, "little", signed=False)`. */
  function ToBytes(n: int, k: nat): Result<seq<byte>> {
    if 0 <= n < Pow256(k) then Success(Le(n, k)) else Failure(OverflowError)
  }

  /** `n.to_bytes(k, "little", signed=True)` for k > 0: two's complement. */
  function ToSignedBytes(n: int, k: nat): Result<seq<byte>> {
    if -Pow256(k) <= 2 * n < Pow256(k) then
      Success(Le(if n < 0 then n + Pow256(k) else n, k))
    else
      Failure(OverflowError)
  }

  /** `int.from_bytes(b, "little", signed=True)`; the empty string gives 0. */
  function FromSigned(b: seq<byte>): (n: int)
    ensures -Pow256(|b|) <= 2 * n < Pow256(|b|)
  {
    FromLeBound(b);
    var u := FromLe(b);
    if 2 * u >= Pow256(|b|) && b != [] then u - Pow256(|b|) else u
  }

  lemma SignedRoundTrip(n: int, k: nat)
    requires k > 0 && -Pow256(k) <= 2 * n < Pow256(k)
    ensures FromSigned(Le(if n < 0 then n + Pow256(k) else n, k)) == n
  {
    FromLeOfLe(if n < 0 then n + Pow256(k) else n, k);
  }

  /** Python's `b[i:]`, which is empty past the end. */
  function Drop<T>(b: seq<T>, i: nat): seq<T> {
    if i <= |b| then b[i..] else []
  }

  /** Python's `b[:i]`, which stops at the end. */
  function Take<T>(b: seq<T>, i: nat): seq<T> {
    if i <= |b| then b[..i] else b
  }

  lemma DropDrop<T>(b: seq<T>, i: nat, j: nat)
    ensures Drop(Drop(b, i), j) == Drop(b, i + j)
  {
  }

  lemma TakeDropOfConcat<T>(a: seq<T>, b: seq<T>)
    ensures Take(a + b, |a|) == a && Drop(a + b, |a|) == b
  {
  }
}
