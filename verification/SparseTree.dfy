/**
 Sparse Merkle trees as digests.  The two hash functions are idealised as constructors of a free
 datatype, so a digest determines the whole tree below it; `Raw` stands for the words that are
 not the hash of anything.
 */
module SparseTree {
  import opened Words
  import opened KeyPaths

  datatype Digest =
    | Zero
    | Raw(word: U256)
    | Leaf(key: U256, value: U256)
    | Inner(left: Digest, right: Digest)

  /** The key/value pairs a tree commits to. */
  function Contents(t: Digest): map<U256, U256> {
    match t
    case Zero => map[]
    case Raw(_) => map[]
    case Leaf(k, v) => map[k := v]
    case Inner(l, r) => Contents(l) + Contents(r)
  }

  /** No child of an internal node could take the place of its parent. */
  predicate Populated(l: Digest, r: Digest) {
    (l.Zero? ==> r.Inner?) && (r.Zero? ==> l.Inner?)
  }

  /** `t` is a tree that may stand at path `p`: leaves lie on their key's path, nothing is collapsible. */
  predicate Canonical(t: Digest, p: seq<bool>)
    decreases t
  {
    match t
    case Zero => true
    case Raw(_) => false
    case Leaf(k, _) => OnPath(p, k)
    case Inner(l, r) => Populated(l, r) && Canonical(l, p + [false]) && Canonical(r, p + [true])
  }

  lemma {:induction false} CanonicalContents(t: Digest, p: seq<bool>)
    requires Canonical(t, p)
    ensures forall k :: k in Contents(t) ==> OnPath(p, k)
    ensures t.Zero? <==> Contents(t) == map[]
    ensures t.Inner? ==> |p| < 256
  {
    if t.Leaf? {
      assert t.key in Contents(t);
    } else if t.Inner? {
      CanonicalContents(t.left, p + [false]);
      CanonicalContents(t.right, p + [true]);
      var side := if t.left.Zero? then t.right else t.left;
      var k :| k in Contents(side);
      forall k | k in Contents(t)
        ensures OnPath(p, k)
      {
        var q := if k in Contents(t.right) then p + [true] else p + [false];
        assert OnPath(q, k);
        forall i | 0 <= i < |p| ensures p[i] == KeyBits(k)[i] { assert q[i] == KeyBits(k)[i]; }
      }
    }
  }

  lemma {:induction false} InnerHasTwoKeys(t: Digest, p: seq<bool>) returns (a: U256, b: U256)
    requires t.Inner? && Canonical(t, p)
    ensures a in Contents(t) && b in Contents(t) && a != b
  {
    if t.left.Zero? {
      a, b := InnerHasTwoKeys(t.right, p + [true]);
    } else if t.right.Zero? {
      a, b := InnerHasTwoKeys(t.left, p + [false]);
    } else {
      CanonicalContents(t.left, p + [false]);
      CanonicalContents(t.right, p + [true]);
      a :| a in Contents(t.left);
      b :| b in Contents(t.right);
      assert (p + [false])[|p|] == KeyBits(a)[|p|] && (p + [true])[|p|] == KeyBits(b)[|p|];
    }
  }

  /** The part of a map on one side of path `p`. */
  function Side(m: map<U256, U256>, p: seq<bool>, bit: bool): (r: map<U256, U256>)
    requires |p| < 256
  {
    map k | k in m && KeyBits(k)[|p|] == bit :: m[k]
  }

  lemma {:induction false} SideOnPath(m: map<U256, U256>, p: seq<bool>, bit: bool)
    requires |p| < 256 && forall k :: k in m ==> OnPath(p, k)
    ensures forall k :: k in Side(m, p, bit) ==> OnPath(p + [bit], k)
  {
  }

  /** The reference: the canonical tree of a map, by splitting the map bit by bit. */
  ghost function CanonicalTree(m: map<U256, U256>, p: seq<bool>): Digest
    requires |p| <= 256 && forall k :: k in m ==> OnPath(p, k)
    decreases 256 - |p|
  {
    if m == map[] then Zero
    else if |m| == 1 then var k :| k in m; Leaf(k, m[k])
    else if |p| == 256 then Zero
    else
      SideOnPath(m, p, false);
      SideOnPath(m, p, true);
      Inner(CanonicalTree(Side(m, p, false), p + [false]), CanonicalTree(Side(m, p, true), p + [true]))
  }

  lemma {:induction false} TwoKeys(m: map<U256, U256>, a: U256, b: U256)
    requires a in m && b in m && a != b
    ensures |m| > 1
  {
    assert {a, b} <= m.Keys && |{a, b}| == 2;
    SubsetSize({a, b}, m.Keys);
  }

  lemma {:induction false} OneKey(m: map<U256, U256>, k: U256, v: U256)
    requires m == map[k := v]
    ensures |m| == 1 && forall x :: x in m ==> x == k
  {
    assert m.Keys == {k};
  }

  lemma {:induction false} SidesOfInner(t: Digest, p: seq<bool>)
    requires t.Inner? && Canonical(t, p) && |p| < 256
    ensures Side(Contents(t), p, false) == Contents(t.left)
    ensures Side(Contents(t), p, true) == Contents(t.right)
  {
    CanonicalContents(t.left, p + [false]);
    CanonicalContents(t.right, p + [true]);
    forall k | k in Contents(t.left) ensures !KeyBits(k)[|p|] { assert (p + [false])[|p|] == KeyBits(k)[|p|]; }
    forall k | k in Contents(t.right) ensures KeyBits(k)[|p|] { assert (p + [true])[|p|] == KeyBits(k)[|p|]; }
  }

  /** A canonical tree is the function of its contents that `CanonicalTree` computes. */
  lemma {:induction false} CanonicalIsUnique(t: Digest, p: seq<bool>)
    requires Canonical(t, p) && |p| <= 256
    ensures forall k :: k in Contents(t) ==> OnPath(p, k)
    ensures t == CanonicalTree(Contents(t), p)
  {
    CanonicalContents(t, p);
    if t.Leaf? {
      OneKey(Contents(t), t.key, t.value);
    } else if t.Inner? {
      var a, b := InnerHasTwoKeys(t, p);
      TwoKeys(Contents(t), a, b);
      SidesOfInner(t, p);
      CanonicalIsUnique(t.left, p + [false]);
      CanonicalIsUnique(t.right, p + [true]);
    }
  }

  lemma {:induction false} FullPathSingle(m: map<U256, U256>, p: seq<bool>)
    requires |p| == 256 && forall k :: k in m ==> OnPath(p, k)
    ensures |m| <= 1
  {
    if m != map[] {
      var k :| k in m;
      forall x | x in m ensures x == k {
        assert KeyBits(x) == p == KeyBits(k);
        KeyBitsInjective(x, k);
      }
      assert m == map[k := m[k]];
      OneKey(m, k, m[k]);
    }
  }

  lemma {:induction false} SidesCover(m: map<U256, U256>, p: seq<bool>)
    requires |p| < 256
    ensures m == Side(m, p, false) + Side(m, p, true)
    ensures Side(m, p, false) == map[] ==> Side(m, p, true) == m
    ensures Side(m, p, true) == map[] ==> Side(m, p, false) == m
  {
    var a, b := Side(m, p, false), Side(m, p, true);
    forall k | k in m ensures k in a || k in b { var bit := KeyBits(k)[|p|]; }
    assert m == a + b;
    if a == map[] { assert m == b; }
    if b == map[] { assert m == a; }
  }

  lemma {:induction false} SidesMakeInner(m: map<U256, U256>, p: seq<bool>, l: Digest, r: Digest)
    requires |p| < 256 && |m| > 1
    requires Canonical(l, p + [false]) && Contents(l) == Side(m, p, false)
    requires Canonical(r, p + [true]) && Contents(r) == Side(m, p, true)
    requires |Contents(l)| > 1 ==> l.Inner?
    requires |Contents(r)| > 1 ==> r.Inner?
    ensures Canonical(Inner(l, r), p) && Contents(Inner(l, r)) == m
  {
    CanonicalContents(l, p + [false]);
    CanonicalContents(r, p + [true]);
    SidesCover(m, p);
  }

  lemma {:induction false} SingletonTree(m: map<U256, U256>, p: seq<bool>)
    requires |p| <= 256 && |m| == 1 && forall k :: k in m ==> OnPath(p, k)
    ensures Canonical(CanonicalTree(m, p), p) && CanonicalTree(m, p).Leaf?
    ensures Contents(CanonicalTree(m, p)) == m
  {
    var k :| k in m && CanonicalTree(m, p) == Leaf(k, m[k]);
    forall x | x in m ensures x == k { if x != k { TwoKeys(m, x, k); } }
    assert m == map[k := m[k]];
  }

  /** `CanonicalTree` is canonical and commits to exactly the map it was built from. */
  lemma {:induction false} CanonicalTreeIsCanonical(m: map<U256, U256>, p: seq<bool>)
    requires |p| <= 256 && forall k :: k in m ==> OnPath(p, k)
    ensures Canonical(CanonicalTree(m, p), p)
    ensures Contents(CanonicalTree(m, p)) == m
    ensures |m| > 1 ==> CanonicalTree(m, p).Inner?
    decreases 256 - |p|
  {
    if m == map[] {
    } else if |m| == 1 {
      SingletonTree(m, p);
    } else if |p| == 256 {
      FullPathSingle(m, p);
    } else {
      var l, r := Side(m, p, false), Side(m, p, true);
      SideOnPath(m, p, false);
      SideOnPath(m, p, true);
      CanonicalTreeIsCanonical(l, p + [false]);
      CanonicalTreeIsCanonical(r, p + [true]);
      SidesMakeInner(m, p, CanonicalTree(l, p + [false]), CanonicalTree(r, p + [true]));
    }
  }
}
