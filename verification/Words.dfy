/** Machine words, the scalar field of BN254 and the result types every component shares. */
module Words {

  datatype Option<+T> = None | Some(value: T)

  datatype Result<+T, +E> = Ok(value: T) | Err(error: E)

  const TWO_256: int := 0x1_0000000000000000_0000000000000000_0000000000000000_0000000000000000

  /** The 256-bit unsigned host integer. */
  type U256 = x: int | 0 <= x < TWO_256

  /** Order of the BN254 scalar field; the hash host functions trap on inputs at or above it. */
  const BN254_MODULUS: int := 0x30644e72e131a029b85045b68181585d2833e84879b9709143e1f593f0000001

  newtype byte = x: int | 0 <= x < 256

  type Bytes = seq<byte>

  const TWO_248: int := 0x1_00000000000000_0000000000000000_0000000000000000_0000000000000000

  /** The 256-bit signed host integer. */
  type I256 = x: int | -(TWO_256 / 2) <= x < TWO_256 / 2

  const I128_MAX: int := 0x7fffffffffffffff_ffffffffffffffff

  function Pow2(n: nat): (r: int)
    ensures r >= 1
  {
    if n == 0 then 1 else 2 * Pow2(n - 1)
  }

  /** One, shifted left. */
  method ShiftOne(levels: nat) returns (r: nat)
    ensures r == Pow2(levels)
  {
    r := 1;
    for i := 0 to levels
      invariant r == Pow2(i)
    {
      r := 2 * r;
    }
  }

  lemma {:induction false} Pow2Adds(a: nat, b: nat)
    ensures Pow2(a + b) == Pow2(a) * Pow2(b)
  {
    if a == 0 {
    } else {
      Pow2Adds(a - 1, b);
      assert a - 1 + b == a + b - 1;
    }
  }

  lemma Pow2Squares(n: nat, m: nat, v: int)
    requires Pow2(n) == v && m == n + n
    ensures Pow2(m) == v * v
  {
    Pow2Adds(n, n);
  }

  /** Stated for variables so that no literal power is ever unfolded. */
  lemma Pow2Of256(one: nat, n: nat)
    requires one == 1 && n == 256 * one
    ensures Pow2(n) == TWO_256
  {
    assert Pow2(one - 1) == 1 && Pow2(one) == 2;
    Pow2Squares(one, 2 * one, 0x2);
    Pow2Squares(2 * one, 4 * one, 0x4);
    Pow2Squares(4 * one, 8 * one, 0x10);
    Pow2Squares(8 * one, 16 * one, 0x100);
    Pow2Squares(16 * one, 32 * one, 0x10000);
    Pow2Squares(32 * one, 64 * one, 0x1_0000_0000);
    Pow2Squares(64 * one, 128 * one, 0x1_0000_0000_0000_0000);
    Pow2Squares(128 * one, 256 * one, 0x1_0000_0000_0000_0000_0000_0000_0000_0000);
  }

  lemma Pow2Product(n: nat, m: nat, k: nat, a: int, b: int)
    requires Pow2(n) == a && Pow2(m) == b && k == n + m
    ensures Pow2(k) == a * b
  {
    Pow2Adds(n, m);
  }

  lemma Pow2Of120(one: nat, n: nat)
    requires one == 1 && n == 120 * one
    ensures Pow2(8 * one) == 0x100 && Pow2(n) == 0x100_0000_0000_0000_0000_0000_0000_0000
  {
    assert Pow2(one - 1) == 1 && Pow2(one) == 2;
    Pow2Squares(one, 2 * one, 0x2);
    Pow2Squares(2 * one, 4 * one, 0x4);
    Pow2Squares(4 * one, 8 * one, 0x10);
    Pow2Squares(8 * one, 16 * one, 0x100);
    Pow2Product(16 * one, 8 * one, 24 * one, 0x10000, 0x100);
    Pow2Squares(16 * one, 32 * one, 0x10000);
    Pow2Squares(32 * one, 64 * one, 0x1_0000_0000);
    Pow2Product(64 * one, 32 * one, 96 * one, 0x1_0000_0000_0000_0000, 0x1_0000_0000);
    Pow2Product(96 * one, 24 * one, 120 * one, 0x1_0000_0000_0000_0000_0000_0000, 0x100_0000);
  }

  /** The limits on amounts are the powers of two they are meant to be. */
  lemma LimitsArePowers(one: nat, n: nat, m: nat)
    requires one == 1 && n == 248 * one && m == 127 * one
    ensures Pow2(n) == TWO_248 && Pow2(m) == I128_MAX + 1
  {
    Pow2Of120(one, 120 * one);
    Pow2Product(120 * one, 8 * one, 128 * one, 0x100_0000_0000_0000_0000_0000_0000_0000, 0x100);
    assert Pow2(128 * one) == 2 * Pow2(m);
    Pow2Product(128 * one, 120 * one, 248 * one, 0x1_0000_0000_0000_0000_0000_0000_0000_0000,
                0x100_0000_0000_0000_0000_0000_0000_0000);
  }

  lemma {:induction false} SubsetSize<T>(a: set<T>, b: set<T>)
    requires a <= b
    ensures |a| <= |b|
  {
    assert b == a + (b - a) && a !! (b - a);
  }
}
