/** Which nodes a tree needs in storage, and which of them lie on one path. */
module SparseNodes {
  import opened KeyPaths
  import opened SparseTree
  import opened SparsePaths

  /** Every node that can be reached from `t` and is looked up in storage. */
  function Nodes(t: Digest): set<Digest> {
    match t
    case Zero => {}
    case Raw(_) => {}
    case Leaf(_, _) => {t}
    case Inner(l, r) => {t} + Nodes(l) + Nodes(r)
  }

  function SibNodes(sibs: seq<Digest>): set<Digest> {
    if sibs == [] then {} else Nodes(sibs[0]) + SibNodes(sibs[1..])
  }

  /** The internal nodes of one path: every partial fold from level `i` down. */
  function Spine(bits: seq<bool>, i: nat, sibs: seq<Digest>, x: Digest): set<Digest>
    requires i + |sibs| <= |bits|
    decreases |sibs|
  {
    if sibs == [] then {} else {Fold(bits, i, sibs, x)} + Spine(bits, i + 1, sibs[1..], x)
  }

  function Size(t: Digest): nat {
    match t
    case Zero => 0
    case Raw(_) => 0
    case Leaf(_, _) => 1
    case Inner(l, r) => 1 + Size(l) + Size(r)
  }

  lemma {:induction false} NodesOfFold(bits: seq<bool>, i: nat, sibs: seq<Digest>, x: Digest)
    requires i + |sibs| <= |bits|
    ensures Nodes(Fold(bits, i, sibs, x)) == Spine(bits, i, sibs, x) + SibNodes(sibs) + Nodes(x)
    decreases |sibs|
  {
    if sibs != [] { NodesOfFold(bits, i + 1, sibs[1..], x); }
  }

  lemma {:induction false} NodeBelow(t: Digest, n: Digest)
    requires n in Nodes(t)
    ensures Contents(n).Keys <= Contents(t).Keys && Size(n) <= Size(t)
    ensures n.Leaf? || n.Inner?
    decreases t
  {
    if t.Inner? && n != t {
      if n in Nodes(t.left) { NodeBelow(t.left, n); } else { NodeBelow(t.right, n); }
    }
  }

  lemma {:induction false} SibNodeBelow(sibs: seq<Digest>, n: Digest)
    requires n in SibNodes(sibs)
    ensures Contents(n).Keys <= SibContents(sibs).Keys
    ensures exists j :: 0 <= j < |sibs| && n in Nodes(sibs[j])
  {
    if n in Nodes(sibs[0]) {
      NodeBelow(sibs[0], n);
    } else {
      SibNodeBelow(sibs[1..], n);
      var j :| 0 <= j < |sibs[1..]| && n in Nodes(sibs[1..][j]);
      assert sibs[1..][j] == sibs[j + 1];
    }
  }

  lemma {:induction false} FoldKeys(bits: seq<bool>, i: nat, sibs: seq<Digest>, x: Digest)
    requires i + |sibs| <= |bits|
    ensures Contents(Fold(bits, i, sibs, x)).Keys == SibContents(sibs).Keys + Contents(x).Keys
    ensures Size(Fold(bits, i, sibs, x)) >= Size(x)
    ensures forall j :: 0 <= j < |sibs| ==> Size(Fold(bits, i, sibs, x)) > Size(sibs[j])
    decreases |sibs|
  {
    if sibs != [] {
      FoldKeys(bits, i + 1, sibs[1..], x);
      forall j | 0 <= j < |sibs| ensures Size(Fold(bits, i, sibs, x)) > Size(sibs[j]) {
        if j > 0 { assert sibs[j] == sibs[1..][j - 1]; }
      }
    }
  }

  /** Spine nodes are internal, hold every key of the end, and hold no key that is nowhere on the path. */
  lemma {:induction false} SpineKeys(bits: seq<bool>, i: nat, sibs: seq<Digest>, x: Digest)
    requires i + |sibs| <= |bits|
    ensures forall s :: s in Spine(bits, i, sibs, x) ==>
      s.Inner? && Contents(x).Keys <= Contents(s).Keys <= SibContents(sibs).Keys + Contents(x).Keys
    decreases |sibs|
  {
    if sibs != [] {
      FoldKeys(bits, i, sibs, x);
      SpineKeys(bits, i + 1, sibs[1..], x);
    }
  }

  lemma {:induction false} SpineCanonical(bits: seq<bool>, i: nat, sibs: seq<Digest>, x: Digest)
    requires i + |sibs| <= |bits| == 256
    requires SibsCanonical(bits, i, sibs) && Canonical(x, bits[..i + |sibs|]) && Anchored(sibs, x)
    ensures forall s :: s in Spine(bits, i, sibs, x) ==>
      Contents(s) != map[] && forall k :: k in Contents(s) ==> OnPath(bits[..i], k)
    decreases |sibs|
  {
    if sibs != [] {
      var rest := sibs[1..];
      FoldCanonical(bits, i, sibs, x);
      CanonicalContents(Fold(bits, i, sibs, x), bits[..i]);
      SpineCanonical(bits, i + 1, rest, x);
      forall s, k | s in Spine(bits, i + 1, rest, x) && k in Contents(s) ensures OnPath(bits[..i], k) {
        assert OnPath(bits[..i + 1], k);
        forall j | 0 <= j < i ensures bits[..i][j] == KeyBits(k)[j] { assert bits[..i + 1][j] == KeyBits(k)[j]; }
      }
    }
  }

  /** No node of the path occurs inside a sibling subtree, so removing the path leaves the siblings whole. */
  lemma {:induction false} SpineApart(bits: seq<bool>, i: nat, sibs: seq<Digest>, x: Digest)
    requires i + |sibs| <= |bits| == 256
    requires SibsCanonical(bits, i, sibs) && Canonical(x, bits[..i + |sibs|]) && Anchored(sibs, x)
    ensures Spine(bits, i, sibs, x) !! SibNodes(sibs)
    decreases |sibs|
  {
    if sibs != [] {
      var rest := sibs[1..];
      assert rest != [] ==> rest[|rest| - 1] == sibs[|sibs| - 1];
      var top := Fold(bits, i, sibs, x);
      FoldKeys(bits, i, sibs, x);
      if top in SibNodes(sibs) {
        SibNodeBelow(sibs, top);
        var j :| 0 <= j < |sibs| && top in Nodes(sibs[j]);
        NodeBelow(sibs[j], top);
      }
      SpineApart(bits, i + 1, rest, x);
      SpineLeavesSibling(bits, i, sibs, x);
    }
  }

  lemma {:induction false} SpineLeavesSibling(bits: seq<bool>, i: nat, sibs: seq<Digest>, x: Digest)
    requires i + |sibs| <= |bits| == 256 && sibs != []
    requires SibsCanonical(bits, i, sibs) && Canonical(x, bits[..i + |sibs|]) && Anchored(sibs, x)
    ensures Spine(bits, i + 1, sibs[1..], x) !! Nodes(sibs[0])
  {
    var rest := sibs[1..];
    assert rest != [] ==> rest[|rest| - 1] == sibs[|sibs| - 1];
    SpineCanonical(bits, i + 1, rest, x);
    CanonicalContents(sibs[0], bits[..i] + [!bits[i]]);
    forall s | s in Spine(bits, i + 1, rest, x) ensures s !in Nodes(sibs[0]) {
      var k :| k in Contents(s);
      assert bits[..i + 1][i] == KeyBits(k)[i];
      if s in Nodes(sibs[0]) {
        NodeBelow(sibs[0], s);
        OffPath(bits, i, k);
      }
    }
  }
}
