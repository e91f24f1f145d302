/** Prime fields as integers modulo `p`: the ring homomorphism from the integers, and inverses. */
module ModField {

  ghost predicate IsPrime(p: int) {
    p > 1 && forall d :: 1 < d < p ==> p % d != 0
  }

  function Add(p: int, a: int, b: int): (r: int)
    requires p > 0
    ensures 0 <= r < p
  {
    (a + b) % p
  }

  function Sub(p: int, a: int, b: int): (r: int)
    requires p > 0
    ensures 0 <= r < p
  {
    (a - b) % p
  }

  function Mul(p: int, a: int, b: int): (r: int)
    requires p > 0
    ensures 0 <= r < p
  {
    (a * b) % p
  }

  lemma {:induction false} SmallMultiple(p: int, d: int, e: int)
    requires p > 0 && p * d == e && -p < e < p
    ensures d == 0
  {
  }

  lemma {:induction false} DivisionIdentity(p: int, x: int)
    requires p > 0
    ensures x == p * (x / p) + x % p && 0 <= x % p < p
  {
  }

  lemma {:induction false} QuotientUnique(p: int, x: int, q: int, r: int)
    requires p > 0 && x == p * q + r && 0 <= r < p
    ensures x % p == r && x / p == q
  {
    DivisionIdentity(p, x);
    var q', r' := x / p, x % p;
    assert p * (q - q') == p * q - p * q';
    SmallMultiple(p, q - q', r' - r);
  }

  lemma {:induction false} ModShift(p: int, a: int, k: int)
    requires p > 0
    ensures (a + p * k) % p == a % p
  {
    QuotientUnique(p, a + p * k, a / p + k, a % p);
  }

  /** Congruent numbers differ by a multiple of the modulus. */
  lemma {:induction false} ModEq(p: int, a: int, b: int) returns (k: int)
    requires p > 0 && a % p == b % p
    ensures a == b + p * k
  {
    k := a / p - b / p;
  }

  lemma {:induction false} ModAdd(p: int, a: int, b: int, c: int, d: int)
    requires p > 0 && a % p == c % p && b % p == d % p
    ensures (a + b) % p == (c + d) % p && (a - b) % p == (c - d) % p
  {
    var k := ModEq(p, a, c);
    var l := ModEq(p, b, d);
    assert a + b == (c + d) + p * (k + l) && a - b == (c - d) + p * (k - l);
    ModShift(p, c + d, k + l);
    ModShift(p, c - d, k - l);
  }

  lemma {:induction false} ModMul(p: int, a: int, b: int, c: int, d: int)
    requires p > 0 && a % p == c % p && b % p == d % p
    ensures (a * b) % p == (c * d) % p
  {
    var k := ModEq(p, a, c);
    var l := ModEq(p, b, d);
    var m := c * l + k * d + p * (k * l);
    calc {
      a * b;
      (c + p * k) * (d + p * l);
      c * d + c * (p * l) + (p * k) * d + (p * k) * (p * l);
      c * d + p * m;
    }
    ModShift(p, c * d, m);
  }

  lemma {:induction false} SmallMod(p: int, r: int)
    requires 0 <= r < p
    ensures r % p == r
  {
    QuotientUnique(p, r, 0, r);
  }

  lemma {:induction false} ModMod(p: int, a: int)
    requires p > 0
    ensures a % p % p == a % p
  {
    DivisionIdentity(p, a);
    SmallMod(p, a % p);
  }

  /** The inverse by repeated division: what is inverse to the remainder, scaled by the quotient. */
  function Inverse(p: int, a: int): (x: int)
    requires IsPrime(p) && 0 < a < p
    ensures 0 <= x < p && (a * x) % p == 1
    decreases a
  {
    if a == 1 then 1 else
    var y := Inverse(p, p % a);
    DivisionIdentity(a, p);
    InverseStep(p, a, p / a, p % a, y);
    (-(p / a) * y) % p
  }

  lemma {:induction false} InverseIdentity(p: int, a: int, q: int, r: int, y: int)
    requires p == a * q + r
    ensures a * (-q * y) == r * y + p * (-y)
  {
    calc {
      a * (-q * y);
      -(a * q * y);
      -((p - r) * y);
      -(p * y) + r * y;
    }
  }

  lemma {:induction false} InverseStep(p: int, a: int, q: int, r: int, y: int)
    requires p > 1 && p == a * q + r && (r * y) % p == 1
    ensures (a * ((-q * y) % p)) % p == 1
  {
    var z := -q * y;
    InverseIdentity(p, a, q, r, y);
    assert a * z == r * y + p * (-y);
    ModShift(p, r * y, -y);
    ModMod(p, z);
    ModMul(p, a, z % p, a, z);
  }

  lemma {:induction false} Cancel(p: int, a: int, b: int, x: int)
    requires p > 1 && (a * x) % p == 1 && (a * b) % p == 0
    ensures b % p == 0
  {
    var ax, ab := a * x, a * b;
    assert ax * b == ab * x;
    assert 1 % p == 1 && 0 % p == 0;
    ModMul(p, ax, b, 1, b);
    ModMul(p, ab, x, 0, x);
  }

  /** In a prime field a product with a non-zero factor vanishes only if the other factor does. */
  lemma {:induction false} NoZeroDivisors(p: int, a: int, b: int)
    requires IsPrime(p) && a % p != 0 && (a * b) % p == 0
    ensures b % p == 0
  {
    var x := Inverse(p, a % p);
    ModMod(p, a);
    ModMul(p, a % p, x, a, x);
    Cancel(p, a, b, x);
  }
}
