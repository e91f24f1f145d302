/** Injective maps of a finite set to itself reach every element. */
module FiniteMaps {
  import opened Words

  ghost predicate Injective<T(!new), U(!new)>(m: map<T, U>) {
    forall a, b :: a in m && b in m && m[a] == m[b] ==> a == b
  }

  lemma {:induction false} AsManyValues<T(!new), U(!new)>(m: map<T, U>)
    requires Injective(m)
    ensures |m.Values| == |m.Keys|
    decreases |m.Keys|
  {
    if m.Keys == {} {
      assert m.Values == {};
    } else {
      var k :| k in m.Keys;
      var rest := m - {k};
      assert rest.Keys == m.Keys - {k};
      assert Injective(rest);
      AsManyValues(rest);
      assert m.Values == rest.Values + {m[k]} by {
        forall v | v in m.Values ensures v in rest.Values + {m[k]} {
          var a :| a in m && m[a] == v;
          if a != k { assert a in rest && rest[a] == v; }
        }
      }
      assert m[k] !in rest.Values;
    }
  }

  lemma {:induction false} FullSubset<T>(a: set<T>, b: set<T>)
    requires a <= b && |a| == |b|
    ensures a == b
  {
    if a != b {
      var x :| x in b && x !in a;
      SubsetSize(a, b - {x});
    }
  }

  lemma {:induction false} Preimage<T(!new), U(!new)>(m: map<T, U>, y: U) returns (x: T)
    requires y in m.Values
    ensures x in m && m[x] == y
  {
    x :| x in m && m[x] == y;
  }

  lemma {:induction false} ReachesAll<T(!new)>(m: map<T, T>, all: set<T>, y: T) returns (x: T)
    requires Injective(m) && m.Keys == all && m.Values <= all && y in all
    ensures x in m && m[x] == y
  {
    AsManyValues(m);
    FullSubset(m.Values, all);
    x := Preimage(m, y);
  }
}
