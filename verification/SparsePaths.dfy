/** One path of a sparse tree: the siblings met on the way down, and the fold back up. */
module SparsePaths {
  import opened Words
  import opened KeyPaths
  import opened SparseTree

  function Join(bit: bool, child: Digest, sibling: Digest): Digest {
    if bit then Inner(sibling, child) else Inner(child, sibling)
  }

  function Child(t: Digest, bit: bool): Digest
    requires t.Inner?
  {
    if bit then t.right else t.left
  }

  /** Rebuild the tree at level `i` from the siblings of levels `i`, `i+1`, ... and the end of the path. */
  function Fold(bits: seq<bool>, i: nat, sibs: seq<Digest>, x: Digest): Digest
    requires i + |sibs| <= |bits|
    decreases |sibs|
  {
    if sibs == [] then x else Join(bits[i], Fold(bits, i + 1, sibs[1..], x), sibs[0])
  }

  function Siblings(t: Digest, bits: seq<bool>, i: nat): (r: seq<Digest>)
    requires i <= |bits|
    ensures i + |r| <= |bits|
    decreases t
  {
    if t.Inner? && i < |bits| then [Child(t, !bits[i])] + Siblings(Child(t, bits[i]), bits, i + 1) else []
  }

  function End(t: Digest, bits: seq<bool>, i: nat): Digest
    requires i <= |bits|
    decreases t
  {
    if t.Inner? && i < |bits| then End(Child(t, bits[i]), bits, i + 1) else t
  }

  function SibContents(sibs: seq<Digest>): map<U256, U256> {
    if sibs == [] then map[] else Contents(sibs[0]) + SibContents(sibs[1..])
  }

  predicate SibsCanonical(bits: seq<bool>, i: nat, sibs: seq<Digest>)
    requires i + |sibs| <= |bits| == 256
    decreases |sibs|
  {
    sibs == [] || (Canonical(sibs[0], bits[..i] + [!bits[i]]) && SibsCanonical(bits, i + 1, sibs[1..]))
  }

  /** The deepest sibling keeps `x` from being collapsed into its parent. */
  predicate Anchored(sibs: seq<Digest>, x: Digest) {
    sibs != [] ==> !sibs[|sibs| - 1].Zero? && (x.Zero? ==> sibs[|sibs| - 1].Inner?)
  }

  lemma {:induction false} OffPath(bits: seq<bool>, i: nat, k: U256)
    requires i < |bits| == 256 && OnPath(bits[..i] + [!bits[i]], k)
    ensures KeyBits(k)[i] != bits[i]
  {
    assert (bits[..i] + [!bits[i]])[i] == KeyBits(k)[i];
  }

  /** Every key below a sibling leaves the path at that sibling's level. */
  lemma {:induction false} SibKeysLeave(bits: seq<bool>, i: nat, sibs: seq<Digest>, k: U256)
    requires i + |sibs| <= |bits| == 256 && SibsCanonical(bits, i, sibs) && k in SibContents(sibs)
    ensures OnPath(bits[..i], k)
    ensures exists j :: i <= j < i + |sibs| && KeyBits(k)[j] != bits[j]
    decreases |sibs|
  {
    if k in Contents(sibs[0]) {
      CanonicalContents(sibs[0], bits[..i] + [!bits[i]]);
      OffPath(bits, i, k);
      var q := bits[..i] + [!bits[i]];
      forall j | 0 <= j < i ensures bits[..i][j] == KeyBits(k)[j] { assert q[j] == KeyBits(k)[j]; }
    } else {
      SibKeysLeave(bits, i + 1, sibs[1..], k);
      forall j | 0 <= j < i ensures bits[..i][j] == KeyBits(k)[j] { assert bits[..i + 1][j] == KeyBits(k)[j]; }
    }
  }

  lemma {:induction false} JoinCanonical(bits: seq<bool>, i: nat, child: Digest, sib: Digest)
    requires i < |bits| == 256
    requires Canonical(child, bits[..i + 1]) && Canonical(sib, bits[..i] + [!bits[i]])
    requires Populated(child, sib)
    ensures Canonical(Join(bits[i], child, sib), bits[..i])
    ensures Contents(Join(bits[i], child, sib)) == Contents(sib) + Contents(child)
    ensures forall k :: k in Contents(child) ==> k !in Contents(sib)
  {
    assert bits[..i + 1] == bits[..i] + [bits[i]];
    CanonicalContents(child, bits[..i + 1]);
    CanonicalContents(sib, bits[..i] + [!bits[i]]);
    forall k | k in Contents(child) ensures k !in Contents(sib) {
      assert bits[..i + 1][i] == KeyBits(k)[i];
      if k in Contents(sib) { OffPath(bits, i, k); }
    }
  }

  lemma {:induction false} MapAssoc<K, V>(a: map<K, V>, b: map<K, V>, c: map<K, V>)
    ensures a + (b + c) == a + b + c
  {
  }

  /** Folding an anchored end through canonical siblings gives a canonical tree with the combined contents. */
  lemma {:induction false} FoldCanonical(bits: seq<bool>, i: nat, sibs: seq<Digest>, x: Digest)
    requires i + |sibs| <= |bits| == 256
    requires SibsCanonical(bits, i, sibs) && Canonical(x, bits[..i + |sibs|]) && Anchored(sibs, x)
    ensures Canonical(Fold(bits, i, sibs, x), bits[..i])
    ensures Contents(Fold(bits, i, sibs, x)) == SibContents(sibs) + Contents(x)
    decreases |sibs|
  {
    if sibs != [] {
      var rest := sibs[1..];
      assert rest != [] ==> rest[|rest| - 1] == sibs[|sibs| - 1];
      FoldCanonical(bits, i + 1, rest, x);
      var child := Fold(bits, i + 1, rest, x);
      assert Populated(child, sibs[0]) by { assert rest != [] ==> child.Inner?; }
      JoinCanonical(bits, i, child, sibs[0]);
      MapAssoc(Contents(sibs[0]), SibContents(rest), Contents(x));
    }
  }

  /** What a walk down a canonical tree collects is exactly what the fold needs to rebuild it. */
  lemma {:induction false} WalkFacts(t: Digest, bits: seq<bool>, i: nat)
    requires i <= |bits| == 256 && Canonical(t, bits[..i])
    ensures SibsCanonical(bits, i, Siblings(t, bits, i))
    ensures Fold(bits, i, Siblings(t, bits, i), End(t, bits, i)) == t
    ensures Canonical(End(t, bits, i), bits[..i + |Siblings(t, bits, i)|])
    ensures Anchored(Siblings(t, bits, i), End(t, bits, i))
    ensures !End(t, bits, i).Inner?
    decreases t
  {
    CanonicalContents(t, bits[..i]);
    if t.Inner? {
      assert bits[..i + 1] == bits[..i] + [bits[i]];
      var child, rest := Child(t, bits[i]), Siblings(Child(t, bits[i]), bits, i + 1);
      WalkFacts(child, bits, i + 1);
      var sibs := Siblings(t, bits, i);
      assert sibs == [Child(t, !bits[i])] + rest && sibs[1..] == rest && sibs[0] == Child(t, !bits[i]);
      assert Canonical(sibs[0], bits[..i] + [!bits[i]]);
      assert rest != [] ==> sibs[|sibs| - 1] == rest[|rest| - 1];
      assert i + |sibs| == i + 1 + |rest|;
    }
  }

  /** A key is in a canonical tree exactly when the walk along its bits ends at its leaf. */
  lemma {:induction false} WalkFinds(t: Digest, key: U256)
    requires Canonical(t, [])
    ensures key in Contents(t) <==> End(t, KeyBits(key), 0).Leaf? && End(t, KeyBits(key), 0).key == key
    ensures key in Contents(t) ==> End(t, KeyBits(key), 0) == Leaf(key, Contents(t)[key])
    ensures Contents(t) == SibContents(Siblings(t, KeyBits(key), 0)) + Contents(End(t, KeyBits(key), 0))
    ensures key !in SibContents(Siblings(t, KeyBits(key), 0))
  {
    var bits := KeyBits(key);
    assert bits[..0] == [];
    WalkFacts(t, bits, 0);
    var sibs := Siblings(t, bits, 0);
    FoldCanonical(bits, 0, sibs, End(t, bits, 0));
    if key in SibContents(sibs) { SibKeysLeave(bits, 0, sibs, key); }
  }
}
