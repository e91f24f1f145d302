/** Keys as paths: the 256 bits of a key, least significant first. */
module KeyPaths {
  import opened Words

  /** Bit `i` of a number, by repeated halving. */
  function Bit(k: nat, i: nat): bool
    decreases i
  {
    if i == 0 then k % 2 == 1 else Bit(k / 2, i - 1)
  }

  function KeyBits(k: U256): (bits: seq<bool>)
    ensures |bits| == 256
  {
    seq(256, i requires 0 <= i < 256 => Bit(k, i))
  }

  /** `p` is a prefix of the path of key `k`. */
  predicate OnPath(p: seq<bool>, k: U256) {
    |p| <= 256 && forall i :: 0 <= i < |p| ==> p[i] == KeyBits(k)[i]
  }

  lemma {:induction false} HalvedBits(k: nat, i: nat, n: nat)
    requires k == Halved(n, i)
    ensures Bit(n, i) == (k % 2 == 1)
    decreases i
  {
    if i > 0 { HalvedBits(k, i - 1, n / 2); }
  }

  /** `n` halved `i` times. */
  function Halved(n: nat, i: nat): nat
    decreases i
  {
    if i == 0 then n else Halved(n / 2, i - 1)
  }

  lemma {:induction false} HalvedOnce(n: nat, i: nat)
    ensures Halved(n, i + 1) == Halved(n, i) / 2
    decreases i
  {
    if i > 0 { HalvedOnce(n / 2, i - 1); }
  }

  method SplitBits(key: U256) returns (bits: seq<bool>)
    ensures bits == KeyBits(key)
  {
    bits := [];
    var k: nat := key;
    for i := 0 to 256
      invariant k == Halved(key, i)
      invariant |bits| == i
      invariant forall j :: 0 <= j < i ==> bits[j] == Bit(key, j)
    {
      HalvedBits(k, i, key);
      HalvedOnce(key, i);
      bits := bits + [k % 2 == 1];
      k := k / 2;
    }
  }

  lemma {:induction false} BitsDetermine(a: nat, b: nat, n: nat)
    requires a < Pow2(n) && b < Pow2(n)
    requires forall i :: 0 <= i < n ==> Bit(a, i) == Bit(b, i)
    ensures a == b
  {
    if n > 0 {
      assert Bit(a, 0) == Bit(b, 0);
      forall i | 0 <= i < n - 1
        ensures Bit(a / 2, i) == Bit(b / 2, i)
      {
        assert Bit(a, i + 1) == Bit(b, i + 1);
      }
      BitsDetermine(a / 2, b / 2, n - 1);
    }
  }

  /** Distinct keys part ways at one of the 256 levels. */
  lemma KeyBitsInjective(a: U256, b: U256)
    requires KeyBits(a) == KeyBits(b)
    ensures a == b
  {
    var n: nat := |KeyBits(a)|;
    Pow2Of256(n / 256, n);
    forall i | 0 <= i < 256
      ensures Bit(a, i) == Bit(b, i)
    {
      assert KeyBits(a)[i] == KeyBits(b)[i];
    }
    BitsDetermine(a, b, n);
  }

  /** The number whose bits are given, least significant first. */
  function NumberOf(bits: seq<bool>): nat {
    if bits == [] then 0 else (if bits[0] then 1 else 0) + 2 * NumberOf(bits[1..])
  }

  lemma {:induction false} NumberOfBits(k: nat, n: nat, bits: seq<bool>)
    requires k < Pow2(n) && |bits| == n && forall i :: 0 <= i < n ==> bits[i] == Bit(k, i)
    ensures NumberOf(bits) == k
    decreases n
  {
    if n > 0 {
      forall i | 0 <= i < n - 1 ensures bits[1..][i] == Bit(k / 2, i) { assert bits[i + 1] == Bit(k, i + 1); }
      NumberOfBits(k / 2, n - 1, bits[1..]);
      assert bits[0] == Bit(k, 0);
    }
  }

  /** Reading the path of a key as a binary number, least significant bit first, gives the key back. */
  lemma KeyBitsReadBack(k: U256)
    ensures NumberOf(KeyBits(k)) == k
  {
    var n := 256;
    Pow2Of256(1, n);
    NumberOfBits(k, n, KeyBits(k));
  }
}
