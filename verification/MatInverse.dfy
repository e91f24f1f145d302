/** Matrix inversion by elimination without pivoting, in place on two square arrays. */
module MatInverse {
  import opened Words
  import opened ModField

  type Row = seq<int>

  function Dot(u: Row, v: Row): int
    requires |u| == |v|
  {
    if u == [] then 0 else Dot(u[..|u| - 1], v[..|u| - 1]) + u[|u| - 1] * v[|u| - 1]
  }

  predicate IsMatrix(p: int, n: nat, a: seq<Row>) {
    |a| == n && forall i :: 0 <= i < n ==> IsRow(p, n, a[i])
  }

  predicate IsRow(p: int, n: nat, r: Row) {
    |r| == n && forall c :: 0 <= c < n ==> 0 <= r[c] < p
  }

  function Column(n: nat, mat: seq<Row>, c: nat): (r: Row)
    requires |mat| == n && c < n && forall i :: 0 <= i < n ==> |mat[i]| == n
    ensures |r| == n
  {
    seq(n, i requires 0 <= i < n => mat[i][c])
  }

  /** Entry `c` of the product of a row vector with the matrix, in the field. */
  function Product(p: int, n: nat, row: Row, mat: seq<Row>, c: nat): int
    requires p > 1 && IsMatrix(p, n, mat) && c < n && |row| == n
  {
    Dot(row, Column(n, mat, c)) % p
  }

  function Unit(i: nat, c: nat): int {
    if i == c then 1 else 0
  }

  function UnitRow(n: nat, i: nat): (r: Row)
    ensures |r| == n
  {
    seq(n, c requires 0 <= c < n => Unit(i, c))
  }

  /** `r` is the row vector `ir` times the matrix. */
  ghost predicate LinkedRow(p: int, n: nat, mat: seq<Row>, r: Row, ir: Row)
    requires p > 1 && IsMatrix(p, n, mat)
  {
    && IsRow(p, n, r) && IsRow(p, n, ir)
    && forall c: nat :: c < n ==> Product(p, n, ir, mat, c) == r[c]
  }

  /** `a * b` is the identity. */
  ghost predicate LeftInverse(p: int, n: nat, a: seq<Row>, b: seq<Row>)
    requires p > 1 && IsMatrix(p, n, b)
  {
    |a| == n && forall i: nat :: i < n ==> LinkedRow(p, n, b, UnitRow(n, i), a[i])
  }

  /** The leading block of size `k` maps the non-zero row vector `v` to zero. */
  ghost predicate Annihilates(p: int, n: nat, mat: seq<Row>, k: nat, v: Row)
    requires p > 1 && IsMatrix(p, n, mat) && k <= n
  {
    && |v| == k && (exists i :: 0 <= i < k && v[i] % p != 0)
    && forall c: nat :: c < k ==> Dot(v, Column(n, mat, c)[..k]) % p == 0
  }

  ghost predicate Singular(p: int, n: nat, mat: seq<Row>, k: nat)
    requires p > 1 && IsMatrix(p, n, mat) && k <= n
  {
    exists v: Row :: Annihilates(p, n, mat, k, v)
  }

  // ----- linearity of the product -----

  /** `r` is `a - el * b`, entry by entry in the field. */
  ghost predicate SubRow(p: int, r: Row, a: Row, b: Row, el: int)
    requires p > 1
  {
    |r| == |a| == |b| && forall k :: 0 <= k < |r| ==> r[k] % p == (a[k] - b[k] * el) % p
  }

  ghost predicate MulRow(p: int, r: Row, a: Row, el: int)
    requires p > 1
  {
    |r| == |a| && forall k :: 0 <= k < |r| ==> r[k] % p == (a[k] * el) % p
  }

  lemma {:induction false} TermSubtracts(p: int, dr: int, da: int, db: int, r: int, a: int, b: int, e: int, v: int)
    requires p > 1 && dr % p == (da - db * e) % p && r % p == (a - b * e) % p
    ensures (dr + r * v) % p == (da + a * v - (db + b * v) * e) % p
  {
    ModMul(p, r, v, a - b * e, v);
    ModAdd(p, dr, r * v, da - db * e, (a - b * e) * v);
    assert da - db * e + (a - b * e) * v == da + a * v - (db + b * v) * e;
  }

  lemma {:induction false} SubRowPrefix(p: int, r: Row, a: Row, b: Row, e: int, n: nat)
    requires p > 1 && SubRow(p, r, a, b, e) && |r| == n + 1
    ensures SubRow(p, r[..n], a[..n], b[..n], e) && r[n] % p == (a[n] - b[n] * e) % p
  {
  }

  lemma {:induction false} SameProducts(p: int, r: int, a: int, b: int, r': int, a': int, b': int, e: int)
    requires p > 1 && r == r' && a == a' && b == b' && r' % p == (a' - b' * e) % p
    ensures r % p == (a - b * e) % p
  {
  }

  lemma {:induction false} DotSubtracts(p: int, r: Row, a: Row, b: Row, e: int, v: Row)
    requires p > 1 && |r| == |v| && SubRow(p, r, a, b, e)
    ensures Dot(r, v) % p == (Dot(a, v) - Dot(b, v) * e) % p
  {
    if r == [] {
      assert Dot(b, v) * e == 0;
    } else {
      var n := |r| - 1;
      var dr, da, db := Dot(r[..n], v[..n]), Dot(a[..n], v[..n]), Dot(b[..n], v[..n]);
      SubRowPrefix(p, r, a, b, e, n);
      DotSubtracts(p, r[..n], a[..n], b[..n], e, v[..n]);
      TermSubtracts(p, dr, da, db, r[n], a[n], b[n], e, v[n]);
      SameProducts(p, Dot(r, v), Dot(a, v), Dot(b, v), dr + r[n] * v[n], da + a[n] * v[n], db + b[n] * v[n], e);
    }
  }

  lemma {:induction false} TermScales(p: int, dr: int, da: int, r: int, a: int, e: int, v: int)
    requires p > 1 && dr % p == (da * e) % p && r % p == (a * e) % p
    ensures (dr + r * v) % p == ((da + a * v) * e) % p
  {
    ModMul(p, r, v, a * e, v);
    ModAdd(p, dr, r * v, da * e, a * e * v);
    assert da * e + a * e * v == (da + a * v) * e;
  }

  lemma {:induction false} DotScales(p: int, r: Row, a: Row, e: int, v: Row)
    requires p > 1 && |r| == |v| && MulRow(p, r, a, e)
    ensures Dot(r, v) % p == (Dot(a, v) * e) % p
  {
    if r == [] {
      assert Dot(a, v) * e == 0;
    } else {
      var n := |r| - 1;
      DotScales(p, r[..n], a[..n], e, v[..n]);
      TermScales(p, Dot(r[..n], v[..n]), Dot(a[..n], v[..n]), r[n], a[n], e, v[n]);
    }
  }

  lemma {:induction false} DotUnit(n: nat, i: nat, u: Row, v: Row)
    requires |u| == |v| == n && i < n
    requires forall k: nat :: k < n ==> u[k] == Unit(i, k)
    ensures Dot(u, v) == v[i]
    decreases n
  {
    if i == n - 1 { DotZero(u[..n - 1], v[..n - 1]); } else { DotUnit(n - 1, i, u[..n - 1], v[..n - 1]); }
  }

  lemma {:induction false} DotZero(u: Row, v: Row)
    requires |u| == |v| && forall k :: 0 <= k < |u| ==> u[k] == 0
    ensures Dot(u, v) == 0
  {
    if u != [] { DotZero(u[..|u| - 1], v[..|u| - 1]); }
  }

  lemma {:induction false} DotPrefix(u: Row, v: Row, k: nat)
    requires |u| == |v| && k <= |u| && forall c :: k <= c < |u| ==> u[c] == 0
    ensures Dot(u, v) == Dot(u[..k], v[..k])
  {
    if k < |u| {
      var n := |u| - 1;
      DotPrefix(u[..n], v[..n], k);
      assert u[..n][..k] == u[..k] && v[..n][..k] == v[..k];
    } else {
      assert u[..k] == u && v[..k] == v;
    }
  }

  // ----- elimination on values -----

  /** `a - el * b`, with the entries before `lo` written as zero. */
  function SubtractFrom(p: int, a: Row, b: Row, el: int, lo: nat): (r: Row)
    requires p > 1 && |a| == |b|
    ensures |r| == |a|
  {
    seq(|a|, c requires 0 <= c < |a| => if c < lo then 0 else Sub(p, a[c], Mul(p, b[c], el)))
  }

  /** `a - el * b`, with the entries after `hi` written as zero. */
  function SubtractUpTo(p: int, a: Row, b: Row, el: int, hi: int): (r: Row)
    requires p > 1 && |a| == |b|
    ensures |r| == |a|
  {
    seq(|a|, c requires 0 <= c < |a| => if c > hi then 0 else Sub(p, a[c], Mul(p, b[c], el)))
  }

  /** Row `row` of the left matrix divided by its pivot: zeros before, one on the diagonal. */
  function Normalized(p: int, a: Row, row: nat, el: int): (r: Row)
    requires p > 1
    ensures |r| == |a|
  {
    seq(|a|, c requires 0 <= c < |a| => if c < row then a[c] else if c == row then 1 else Mul(p, a[c], el))
  }

  /** Row `row` of the right matrix divided by the pivot; nothing stands after the diagonal. */
  function ScaledUpTo(p: int, a: Row, row: nat, el: int): (r: Row)
    requires p > 1
    ensures |r| == |a|
  {
    seq(|a|, c requires 0 <= c < |a| => if c <= row then Mul(p, a[c], el) else a[c])
  }

  /** Row operations keep this: each row of `m` is the same row of `inv` times the input matrix. */
  ghost predicate Linked(p: int, n: nat, mat: seq<Row>, m: seq<Row>, inv: seq<Row>)
    requires p > 1 && IsMatrix(p, n, mat)
  {
    |m| == |inv| == n && forall i: nat :: i < n ==> LinkedRow(p, n, mat, m[i], inv[i])
  }

  ghost predicate Lower(n: nat, a: seq<Row>) {
    && |a| == n && (forall i :: 0 <= i < n ==> |a[i]| == n)
    && forall i, c :: 0 <= i < c < n ==> a[i][c] == 0
  }

  /** The first `k` rows are zero before the diagonal and one on it. */
  ghost predicate UnitUpper(n: nat, a: seq<Row>, k: nat) {
    && k <= n == |a| && (forall i :: 0 <= i < n ==> |a[i]| == n)
    && (forall i :: 0 <= i < k ==> a[i][i] == 1)
    && forall i, c :: 0 <= c < i < k ==> a[i][c] == 0
  }

  lemma {:induction false} SubMulMod(p: int, a: int, b: int, e: int)
    requires p > 1
    ensures Sub(p, a, Mul(p, b, e)) % p == (a - b * e) % p
  {
    SubModMod(p, a, b * e);
  }

  lemma {:induction false} SubModMod(p: int, a: int, t: int)
    requires p > 1
    ensures ((a - t % p) % p) % p == (a - t) % p
  {
    ModMod(p, t);
    ModAdd(p, a, t % p, a, t);
    ModMod(p, a - t % p);
  }

  lemma {:induction false} SubtractFromIsSub(p: int, n: nat, a: Row, b: Row, el: int, lo: nat)
    requires p > 1 && |a| == |b| == n && lo <= n && forall c :: 0 <= c < lo ==> a[c] == 0 && b[c] == 0
    ensures SubRow(p, SubtractFrom(p, a, b, el, lo), a, b, el) && IsRow(p, n, SubtractFrom(p, a, b, el, lo))
  {
    forall k | 0 <= k < n ensures SubtractFrom(p, a, b, el, lo)[k] % p == (a[k] - b[k] * el) % p {
      if k < lo { assert b[k] * el == 0; } else { SubMulMod(p, a[k], b[k], el); }
    }
  }

  lemma {:induction false} SubtractUpToIsSub(p: int, n: nat, a: Row, b: Row, el: int, hi: int)
    requires p > 1 && |a| == |b| == n && forall c :: hi < c < n && 0 <= c ==> a[c] == 0 && b[c] == 0
    ensures SubRow(p, SubtractUpTo(p, a, b, el, hi), a, b, el) && IsRow(p, n, SubtractUpTo(p, a, b, el, hi))
  {
    forall k | 0 <= k < n ensures SubtractUpTo(p, a, b, el, hi)[k] % p == (a[k] - b[k] * el) % p {
      if k > hi { assert b[k] * el == 0; } else { SubMulMod(p, a[k], b[k], el); }
    }
  }

  lemma {:induction false} LinkedSubtract(p: int, dr: int, da: int, db: int, r: int, a: int, b: int, el: int)
    requires p > 1 && dr % p == (da - db * el) % p && da % p == a && db % p == b
    requires r % p == (a - b * el) % p && 0 <= r < p
    ensures dr % p == r
  {
    ModMod(p, da);
    ModMod(p, db);
    ModMul(p, db, el, b, el);
    LinkedDifference(p, dr, da, db * el, r, a, b * el);
  }

  lemma {:induction false} LinkedDifference(p: int, dr: int, da: int, dt: int, r: int, a: int, t: int)
    requires p > 1 && dr % p == (da - dt) % p && da % p == a % p && dt % p == t % p
    requires r % p == (a - t) % p && 0 <= r < p
    ensures dr % p == r
  {
    ModAdd(p, da, dt, a, t);
    SmallMod(p, r);
  }

  /** One row operation carries linked rows to linked rows. */
  lemma {:induction false} LinkSubtract(p: int, n: nat, mat: seq<Row>, a: Row, ia: Row, b: Row, ib: Row, el: int,
                                        r: Row, ir: Row)
    requires p > 1 && IsMatrix(p, n, mat) && LinkedRow(p, n, mat, a, ia) && LinkedRow(p, n, mat, b, ib)
    requires IsRow(p, n, r) && IsRow(p, n, ir) && SubRow(p, r, a, b, el) && SubRow(p, ir, ia, ib, el)
    ensures LinkedRow(p, n, mat, r, ir)
  {
    forall c: nat | c < n ensures Product(p, n, ir, mat, c) == r[c] {
      var col := Column(n, mat, c);
      DotSubtracts(p, ir, ia, ib, el, col);
      assert Product(p, n, ia, mat, c) == a[c] && Product(p, n, ib, mat, c) == b[c];
      LinkedSubtract(p, Dot(ir, col), Dot(ia, col), Dot(ib, col), r[c], a[c], b[c], el);
    }
  }

  lemma {:induction false} LinkedScale(p: int, dr: int, da: int, r: int, a: int, e: int)
    requires p > 1 && dr % p == (da * e) % p && da % p == a && r % p == (a * e) % p && 0 <= r < p
    ensures dr % p == r
  {
    ModMod(p, da);
    ModMul(p, da, e, a, e);
  }

  lemma {:induction false} LinkScale(p: int, n: nat, mat: seq<Row>, a: Row, ia: Row, e: int, r: Row, ir: Row)
    requires p > 1 && IsMatrix(p, n, mat) && LinkedRow(p, n, mat, a, ia)
    requires IsRow(p, n, r) && IsRow(p, n, ir) && MulRow(p, r, a, e) && MulRow(p, ir, ia, e)
    ensures LinkedRow(p, n, mat, r, ir)
  {
    forall c: nat | c < n ensures Product(p, n, ir, mat, c) == r[c] {
      var col := Column(n, mat, c);
      DotScales(p, ir, ia, e, col);
      assert Product(p, n, ia, mat, c) == a[c];
      LinkedScale(p, Dot(ir, col), Dot(ia, col), r[c], a[c], e);
    }
  }

  lemma {:induction false} ClearedEntry(p: int, x: int)
    requires p > 1 && 0 <= x < p
    ensures Sub(p, x, Mul(p, 1, x)) == 0
  {
  }

  lemma {:induction false} KeptEntry(p: int, x: int, e: int)
    requires p > 1 && 0 <= x < p
    ensures Sub(p, x, Mul(p, 0, e)) == x
  {
    assert 0 * e == 0;
  }

  lemma {:induction false} SubtractKeeps(p: int, n: nat, mat: seq<Row>, m: seq<Row>, inv: seq<Row>, row: nat, j: nat)
    requires p > 1 && IsMatrix(p, n, mat)
    requires Linked(p, n, mat, m, inv) && Lower(n, inv) && UnitUpper(n, m, row) && j < row < n
    requires forall c :: 0 <= c < j ==> m[row][c] == 0
    ensures var el := m[row][j];
            var m' := m[row := SubtractFrom(p, m[row], m[j], el, j)];
            var inv' := inv[row := SubtractUpTo(p, inv[row], inv[j], el, row)];
            && Linked(p, n, mat, m', inv') && Lower(n, inv') && UnitUpper(n, m', row)
            && (forall c :: 0 <= c < j + 1 ==> m'[row][c] == 0) && inv'[row][row] == inv[row][row]
  {
    var el := m[row][j];
    var mr := SubtractFrom(p, m[row], m[j], el, j);
    var ir := SubtractUpTo(p, inv[row], inv[j], el, row);
    assert LinkedRow(p, n, mat, m[row], inv[row]) && LinkedRow(p, n, mat, m[j], inv[j]);
    SubtractFromIsSub(p, n, m[row], m[j], el, j);
    SubtractUpToIsSub(p, n, inv[row], inv[j], el, row);
    LinkSubtract(p, n, mat, m[row], inv[row], m[j], inv[j], el, mr, ir);
    ClearedEntry(p, el);
    KeptEntry(p, inv[row][row], el);
  }

  lemma {:induction false} NormalizedIsMul(p: int, n: nat, a: Row, row: nat, e: int)
    requires p > 1 && IsRow(p, n, a) && row < n && (a[row] * e) % p == 1 && forall c :: 0 <= c < row ==> a[c] == 0
    ensures MulRow(p, Normalized(p, a, row, e), a, e) && IsRow(p, n, Normalized(p, a, row, e))
  {
    forall k | 0 <= k < n ensures Normalized(p, a, row, e)[k] % p == (a[k] * e) % p {
      if k < row { assert a[k] * e == 0; } else { ModMod(p, a[k] * e); }
    }
  }

  lemma {:induction false} ScaledIsMul(p: int, n: nat, a: Row, row: nat, e: int)
    requires p > 1 && IsRow(p, n, a) && row < n && forall c :: row < c < n ==> a[c] == 0
    ensures MulRow(p, ScaledUpTo(p, a, row, e), a, e) && IsRow(p, n, ScaledUpTo(p, a, row, e))
  {
    forall k | 0 <= k < n ensures ScaledUpTo(p, a, row, e)[k] % p == (a[k] * e) % p {
      if k > row { assert a[k] * e == 0; } else { ModMod(p, a[k] * e); }
    }
  }

  lemma {:induction false} ScaleKeeps(p: int, n: nat, mat: seq<Row>, m: seq<Row>, inv: seq<Row>, row: nat, e: int)
    requires p > 1 && IsMatrix(p, n, mat)
    requires Linked(p, n, mat, m, inv) && Lower(n, inv) && UnitUpper(n, m, row) && row < n
    requires (forall c :: 0 <= c < row ==> m[row][c] == 0) && (m[row][row] * e) % p == 1
    ensures var m' := m[row := Normalized(p, m[row], row, e)];
            var inv' := inv[row := ScaledUpTo(p, inv[row], row, e)];
            Linked(p, n, mat, m', inv') && Lower(n, inv') && UnitUpper(n, m', row + 1)
  {
    assert LinkedRow(p, n, mat, m[row], inv[row]);
    NormalizedIsMul(p, n, m[row], row, e);
    ScaledIsMul(p, n, inv[row], row, e);
    LinkScale(p, n, mat, m[row], inv[row], e, Normalized(p, m[row], row, e), ScaledUpTo(p, inv[row], row, e));
  }

  /** A zero pivot exhibits a combination of the first rows that vanishes on the leading block. */
  lemma {:induction false} ZeroPivotIsSingular(p: int, n: nat, mat: seq<Row>, m: seq<Row>, inv: seq<Row>, row: nat)
    requires p > 1 && IsMatrix(p, n, mat) && Linked(p, n, mat, m, inv) && Lower(n, inv) && row < n
    requires (forall c :: 0 <= c <= row ==> m[row][c] == 0) && inv[row][row] == 1
    ensures Singular(p, n, mat, row + 1)
  {
    var k := row + 1;
    var v := inv[row][..k];
    assert LinkedRow(p, n, mat, m[row], inv[row]);
    forall c: nat | c < k ensures Dot(v, Column(n, mat, c)[..k]) % p == 0 {
      assert Product(p, n, inv[row], mat, c) == m[row][c] == 0;
      DotPrefix(inv[row], Column(n, mat, c), k);
    }
    assert v[row] % p != 0;
    assert Annihilates(p, n, mat, k, v);
  }

  ghost predicate NonZeroDiagonal(n: nat, a: seq<Row>, k: nat) {
    k <= n == |a| && forall i :: 0 <= i < k ==> |a[i]| == n && a[i][i] != 0
  }

  lemma {:induction false} EliminatesLast(p: int, v: int, d: int, e: int)
    requires p > 1 && 0 <= v < p && (d * e) % p == 1
    ensures Sub(p, v, Mul(p, d, (v * e) % p)) == 0
  {
    var x := (v * e) % p;
    ModMod(p, v * e);
    ModMul(p, d, x, d, v * e);
    assert d * (v * e) == d * e * v;
    ModMul(p, d * e, v, 1, v);
    ModMod(p, d * x);
    ModAdd(p, v, (d * x) % p, v, v);
  }

  lemma {:induction false} ZeroRowProduct(p: int, n: nat, mat: seq<Row>, r: Row, ir: Row)
    requires p > 1 && IsMatrix(p, n, mat) && LinkedRow(p, n, mat, r, ir) && forall c :: 0 <= c < n ==> ir[c] == 0
    ensures forall c :: 0 <= c < n ==> r[c] == 0
  {
    forall c: nat | c < n ensures r[c] == 0 {
      DotZero(ir, Column(n, mat, c));
      assert Product(p, n, ir, mat, c) == r[c];
    }
  }

  lemma {:induction false} SubtractNothing(p: int, n: nat, v: Row, b: Row)
    requires p > 1 && IsRow(p, n, v) && |b| == n
    ensures SubtractUpTo(p, v, b, 0, n) == v
  {
    forall c | 0 <= c < n ensures Sub(p, v[c], Mul(p, b[c], 0)) == v[c] { ZeroScale(p, v[c], b[c]); }
  }

  lemma {:induction false} ZeroScale(p: int, x: int, b: int)
    requires p > 1 && 0 <= x < p
    ensures Sub(p, x, Mul(p, b, 0)) == x
  {
    assert b * 0 == 0;
  }

  /** Removing the last entry of a vector with row `l` of the eliminated system. */
  lemma {:induction false} DropEntry(p: int, n: nat, mat: seq<Row>, m: seq<Row>, inv: seq<Row>, l: nat,
                                     u: Row, v: Row, e: int)
    requires p > 1 && IsMatrix(p, n, mat) && Linked(p, n, mat, m, inv) && l < n
    requires Lower(n, inv) && UnitUpper(n, m, n) && (inv[l][l] * e) % p == 1
    requires LinkedRow(p, n, mat, u, v)
    requires (forall c :: l < c < n ==> v[c] == 0) && (forall c :: 0 <= c <= l ==> u[c] == 0)
    ensures var x := (v[l] * e) % p;
            var v', u' := SubtractUpTo(p, v, inv[l], x, n), SubtractFrom(p, u, m[l], x, 0);
            && LinkedRow(p, n, mat, u', v')
            && (forall c :: l <= c < n ==> v'[c] == 0) && (forall c :: 0 <= c < l ==> u'[c] == 0)
            && u'[l] == Sub(p, 0, Mul(p, 1, x))
  {
    var x := (v[l] * e) % p;
    var v', u' := SubtractUpTo(p, v, inv[l], x, n), SubtractFrom(p, u, m[l], x, 0);
    assert LinkedRow(p, n, mat, m[l], inv[l]);
    SubtractUpToIsSub(p, n, v, inv[l], x, n);
    SubtractFromIsSub(p, n, u, m[l], x, 0);
    LinkSubtract(p, n, mat, u, v, m[l], inv[l], x, u', v');
    EliminatesLast(p, v[l], inv[l][l], e);
    KeptEntry(p, 0, x);
  }

  lemma {:induction false} NegatedZero(p: int, x: int)
    requires p > 1 && 0 <= x < p && Sub(p, 0, Mul(p, 1, x)) == 0
    ensures x == 0
  {
    assert 1 * x == x;
    SmallMod(p, x);
    if x > 0 { QuotientUnique(p, -x, -1, p - x); }
  }

  /**
   A vector that lives on the first `t` entries and vanishes on the first `t` columns is zero: its
   last entry can be removed with a row of the eliminated system, and that row then shows it was zero.
   */
  lemma {:induction false} NoKernel(p: int, n: nat, mat: seq<Row>, m: seq<Row>, inv: seq<Row>, t: nat, u: Row, v: Row)
    requires IsPrime(p) && IsMatrix(p, n, mat) && Linked(p, n, mat, m, inv) && t <= n
    requires Lower(n, inv) && UnitUpper(n, m, n) && NonZeroDiagonal(n, inv, n)
    requires LinkedRow(p, n, mat, u, v)
    requires (forall c :: t <= c < n ==> v[c] == 0) && (forall c :: 0 <= c < t ==> u[c] == 0)
    ensures forall c :: 0 <= c < n ==> v[c] == 0
    decreases t
  {
    if t > 0 {
      var l := t - 1;
      assert LinkedRow(p, n, mat, m[l], inv[l]);
      var e := Inverse(p, inv[l][l]);
      var x := (v[l] * e) % p;
      var v', u' := SubtractUpTo(p, v, inv[l], x, n), SubtractFrom(p, u, m[l], x, 0);
      DropEntry(p, n, mat, m, inv, l, u, v, e);
      NoKernel(p, n, mat, m, inv, l, u', v');
      ZeroRowProduct(p, n, mat, u', v');
      NegatedZero(p, x);
      SubtractNothing(p, n, v, inv[l]);
    }
  }

  lemma {:induction false} ReducedRow(p: int, n: nat, k: nat, v: Row) returns (r: Row)
    requires p > 1 && |v| == k <= n
    ensures IsRow(p, n, r) && MulRow(p, r[..k], v, 1) && forall c :: k <= c < n ==> r[c] == 0
    ensures forall i :: 0 <= i < k ==> r[i] == v[i] % p
  {
    r := seq(n, c requires 0 <= c < n => if c < k then v[c] % p else 0);
    forall i | 0 <= i < k ensures r[..k][i] % p == (v[i] * 1) % p { ModMod(p, v[i]); }
  }

  /** Once the sweep is through, no leading block is singular. */
  lemma {:induction false} NoLeadingBlockIsSingular(p: int, n: nat, mat: seq<Row>, m: seq<Row>, inv: seq<Row>, k: nat)
    requires IsPrime(p) && IsMatrix(p, n, mat) && Linked(p, n, mat, m, inv) && k <= n
    requires Lower(n, inv) && UnitUpper(n, m, n) && NonZeroDiagonal(n, inv, n)
    ensures !Singular(p, n, mat, k)
  {
    forall v: Row ensures !Annihilates(p, n, mat, k, v) {
      if Annihilates(p, n, mat, k, v) {
        var r := ReducedRow(p, n, k, v);
        var u: Row := seq(n, c requires 0 <= c < n => Product(p, n, r, mat, c));
        assert LinkedRow(p, n, mat, u, r);
        forall c: nat | c < k ensures u[c] == 0 {
          var col := Column(n, mat, c);
          DotPrefix(r, col, k);
          DotScales(p, r[..k], v, 1, col[..k]);
        }
        NoKernel(p, n, mat, m, inv, k, u, r);
      }
    }
  }

  /** The target of back substitution in one row: solved from column `j` on. */
  function Mixed(n: nat, upper: Row, row: nat, j: nat): (r: Row)
    requires |upper| == n
    ensures |r| == n
  {
    seq(n, c requires 0 <= c < n => if c < j then upper[c] else Unit(row, c))
  }

  /** Back substitution: rows below are solved; in `row` the columns from `j` on are. */
  ghost predicate BackSolved(p: int, n: nat, mat: seq<Row>, upper: seq<Row>, inv: seq<Row>, row: nat, j: nat)
    requires p > 1 && IsMatrix(p, n, mat) && IsMatrix(p, n, upper)
  {
    && |inv| == n && row < n && j <= n
    && (forall i: nat :: i < row ==> LinkedRow(p, n, mat, upper[i], inv[i]))
    && LinkedRow(p, n, mat, Mixed(n, upper[row], row, j), inv[row])
    && (forall i: nat :: row < i < n ==> LinkedRow(p, n, mat, UnitRow(n, i), inv[i]))
  }

  lemma {:induction false} MixedStep(p: int, n: nat, upper: Row, row: nat, j: nat)
    requires p > 1 && IsRow(p, n, upper) && row < j < n
    ensures IsRow(p, n, Mixed(n, upper, row, j))
    ensures SubRow(p, Mixed(n, upper, row, j), Mixed(n, upper, row, j + 1), UnitRow(n, j), upper[j])
  {
    var now, was, unit := Mixed(n, upper, row, j), Mixed(n, upper, row, j + 1), UnitRow(n, j);
    forall k | 0 <= k < n ensures now[k] % p == (was[k] - unit[k] * upper[j]) % p {
      if k == j {
        assert unit[k] * upper[j] == upper[j];
      } else {
        assert unit[k] * upper[j] == 0;
      }
    }
  }

  lemma {:induction false} BackKeeps(p: int, n: nat, mat: seq<Row>, upper: seq<Row>, inv: seq<Row>, row: nat, j: nat)
    requires p > 1 && IsMatrix(p, n, mat) && IsMatrix(p, n, upper)
    requires BackSolved(p, n, mat, upper, inv, row, j + 1) && row < j < n
    ensures BackSolved(p, n, mat, upper, inv[row := SubtractUpTo(p, inv[row], inv[j], upper[row][j], n)], row, j)
  {
    var el := upper[row][j];
    assert IsRow(p, n, upper[row]);
    MixedStep(p, n, upper[row], row, j);
    SubtractUpToIsSub(p, n, inv[row], inv[j], el, n);
    LinkSubtract(p, n, mat, Mixed(n, upper[row], row, j + 1), inv[row], UnitRow(n, j), inv[j], el,
                 Mixed(n, upper[row], row, j), SubtractUpTo(p, inv[row], inv[j], el, n));
  }

  // ----- the algorithm in place -----

  ghost function RowOf(a: array2<int>, i: nat): (r: Row)
    requires i < a.Length0
    reads a
    ensures |r| == a.Length1
  {
    seq(a.Length1, c requires 0 <= c < a.Length1 reads a => a[i, c])
  }

  ghost function RowsOf(a: array2<int>): (r: seq<Row>)
    reads a
    ensures |r| == a.Length0 && forall i :: 0 <= i < |r| ==> |r[i]| == a.Length1
  {
    seq(a.Length0, i requires 0 <= i < a.Length0 reads a => RowOf(a, i))
  }

  predicate Square(a: array2<int>, n: nat) {
    a.Length0 == n && a.Length1 == n
  }

  /** Subtract row `j` from row `row` in both matrices, so that column `j` is cleared. */
  method SubtractRow(p: int, n: nat, m: array2<int>, inv: array2<int>, row: nat, j: nat)
    requires p > 1 && Square(m, n) && Square(inv, n) && m != inv && j < row < n
    modifies m, inv
    ensures RowsOf(m) == old(RowsOf(m))[row := SubtractFrom(p, old(RowOf(m, row)), old(RowOf(m, j)), old(m[row, j]), j)]
    ensures RowsOf(inv)
         == old(RowsOf(inv))[row := SubtractUpTo(p, old(RowOf(inv, row)), old(RowOf(inv, j)), old(m[row, j]), row)]
  {
    var el := m[row, j];
    for col := 0 to n
      invariant forall c :: 0 <= c < col ==>
        m[row, c] == (if c < j then 0 else Sub(p, old(m[row, c]), Mul(p, old(m[j, c]), el)))
        && inv[row, c] == (if c > row then 0 else Sub(p, old(inv[row, c]), Mul(p, old(inv[j, c]), el)))
      invariant forall c :: col <= c < n ==> m[row, c] == old(m[row, c]) && inv[row, c] == old(inv[row, c])
      invariant forall i, c :: 0 <= i < n && i != row && 0 <= c < n ==>
        m[i, c] == old(m[i, c]) && inv[i, c] == old(inv[i, c])
    {
      if col < j {
        m[row, col] := 0;
      } else {
        m[row, col] := Sub(p, m[row, col], Mul(p, m[j, col], el));
      }
      if col > row {
        inv[row, col] := 0;
      } else {
        inv[row, col] := Sub(p, inv[row, col], Mul(p, inv[j, col], el));
      }
    }
    assert RowOf(m, row) == SubtractFrom(p, old(RowOf(m, row)), old(RowOf(m, j)), old(m[row, j]), j);
    assert RowOf(inv, row) == SubtractUpTo(p, old(RowOf(inv, row)), old(RowOf(inv, j)), old(m[row, j]), row);
    assert forall i: nat :: i < n && i != row ==>
      RowOf(m, i) == old(RowOf(m, i)) && RowOf(inv, i) == old(RowOf(inv, i));
  }

  /** Divide row `row` by its pivot, given the inverse of the pivot. */
  method ScaleRow(p: int, n: nat, m: array2<int>, inv: array2<int>, row: nat, el: int)
    requires p > 1 && Square(m, n) && Square(inv, n) && m != inv && row < n
    modifies m, inv
    ensures RowsOf(m) == old(RowsOf(m))[row := Normalized(p, old(RowOf(m, row)), row, el)]
    ensures RowsOf(inv) == old(RowsOf(inv))[row := ScaledUpTo(p, old(RowOf(inv, row)), row, el)]
  {
    for col := 0 to n
      invariant forall c :: 0 <= c < col ==>
        m[row, c] == (if c < row then old(m[row, c]) else if c == row then 1 else Mul(p, old(m[row, c]), el))
        && inv[row, c] == (if c <= row then Mul(p, old(inv[row, c]), el) else old(inv[row, c]))
      invariant forall c :: col <= c < n ==> m[row, c] == old(m[row, c]) && inv[row, c] == old(inv[row, c])
      invariant forall i, c :: 0 <= i < n && i != row && 0 <= c < n ==>
        m[i, c] == old(m[i, c]) && inv[i, c] == old(inv[i, c])
    {
      if col < row {
        inv[row, col] := Mul(p, inv[row, col], el);
      } else if col == row {
        m[row, col] := 1;
        inv[row, col] := Mul(p, inv[row, col], el);
      } else {
        m[row, col] := Mul(p, m[row, col], el);
      }
    }
    assert RowOf(m, row) == Normalized(p, old(RowOf(m, row)), row, el);
    assert RowOf(inv, row) == ScaledUpTo(p, old(RowOf(inv, row)), row, el);
    assert forall i: nat :: i < n && i != row ==>
      RowOf(m, i) == old(RowOf(m, i)) && RowOf(inv, i) == old(RowOf(inv, i));
  }

  /** A row with the entries from `j` on cleared. */
  function ClearedFrom(a: Row, j: nat): (r: Row)
    ensures |r| == |a|
  {
    seq(|a|, c requires 0 <= c < |a| => if c >= j then 0 else a[c])
  }

  /** One step of back substitution; debug builds also clear the used part of `m`. */
  method BackRow(p: int, n: nat, debug: bool, m: array2<int>, inv: array2<int>, row: nat, j: nat)
    requires p > 1 && Square(m, n) && Square(inv, n) && m != inv && row < j < n
    modifies m, inv
    ensures RowsOf(m) == if debug then old(RowsOf(m))[row := ClearedFrom(old(RowOf(m, row)), j)] else old(RowsOf(m))
    ensures RowsOf(inv)
         == old(RowsOf(inv))[row := SubtractUpTo(p, old(RowOf(inv, row)), old(RowOf(inv, j)), old(m[row, j]), n)]
  {
    var el := m[row, j];
    for col := 0 to n
      invariant forall c :: 0 <= c < col ==>
        m[row, c] == (if debug && c >= j then 0 else old(m[row, c]))
        && inv[row, c] == Sub(p, old(inv[row, c]), Mul(p, old(inv[j, c]), el))
      invariant forall c :: col <= c < n ==> m[row, c] == old(m[row, c]) && inv[row, c] == old(inv[row, c])
      invariant forall i, c :: 0 <= i < n && i != row && 0 <= c < n ==>
        m[i, c] == old(m[i, c]) && inv[i, c] == old(inv[i, c])
    {
      if debug && col >= j { m[row, col] := 0; }
      inv[row, col] := Sub(p, inv[row, col], Mul(p, inv[j, col], el));
    }
    assert RowOf(m, row) == if debug then ClearedFrom(old(RowOf(m, row)), j) else old(RowOf(m, row));
    assert RowOf(inv, row) == SubtractUpTo(p, old(RowOf(inv, row)), old(RowOf(inv, j)), old(m[row, j]), n);
    assert forall i: nat :: i < n && i != row ==>
      RowOf(m, i) == old(RowOf(m, i)) && RowOf(inv, i) == old(RowOf(inv, i));
  }

  /** Before elimination: the input next to the identity. */
  lemma {:induction false} IdentityLinks(p: int, n: nat, mat: seq<Row>, inv: seq<Row>)
    requires p > 1 && IsMatrix(p, n, mat) && |inv| == n && forall i: nat :: i < n ==> inv[i] == UnitRow(n, i)
    ensures Linked(p, n, mat, mat, inv) && Lower(n, inv)
  {
    forall i: nat | i < n ensures LinkedRow(p, n, mat, mat[i], inv[i]) {
      assert IsRow(p, n, mat[i]);
      forall c: nat | c < n ensures Product(p, n, inv[i], mat, c) == mat[i][c] {
        DotUnit(n, i, inv[i], Column(n, mat, c));
      }
    }
  }

  /** The forward sweep has finished the first `row` rows. */
  ghost predicate Swept(p: int, n: nat, mat: seq<Row>, m: seq<Row>, inv: seq<Row>, row: nat)
    requires p > 1 && IsMatrix(p, n, mat)
  {
    && Linked(p, n, mat, m, inv) && Lower(n, inv) && UnitUpper(n, m, row) && NonZeroDiagonal(n, inv, row)
    && forall i :: row <= i < n ==> inv[i][i] == 1
  }

  lemma {:induction false} SweptSubtract(p: int, n: nat, mat: seq<Row>, m: seq<Row>, inv: seq<Row>, row: nat, j: nat)
    requires p > 1 && IsMatrix(p, n, mat) && j < row < n && Swept(p, n, mat, m, inv, row)
    requires forall c :: 0 <= c < j ==> m[row][c] == 0
    ensures var m' := m[row := SubtractFrom(p, m[row], m[j], m[row][j], j)];
            && Swept(p, n, mat, m', inv[row := SubtractUpTo(p, inv[row], inv[j], m[row][j], row)], row)
            && forall c :: 0 <= c < j + 1 ==> m'[row][c] == 0
  {
    SubtractKeeps(p, n, mat, m, inv, row, j);
  }

  lemma {:induction false} SweptScale(p: int, n: nat, mat: seq<Row>, m: seq<Row>, inv: seq<Row>, row: nat, e: int)
    requires p > 1 && IsMatrix(p, n, mat) && row < n && Swept(p, n, mat, m, inv, row)
    requires (forall c :: 0 <= c < row ==> m[row][c] == 0) && (m[row][row] * e) % p == 1 && 0 < e < p
    ensures Swept(p, n, mat, m[row := Normalized(p, m[row], row, e)], inv[row := ScaledUpTo(p, inv[row], row, e)],
                  row + 1)
  {
    ScaleKeeps(p, n, mat, m, inv, row, e);
    ScaledDiagonal(p, n, inv[row], row, e);
  }

  lemma {:induction false} ScaledDiagonal(p: int, n: nat, a: Row, row: nat, e: int)
    requires p > 1 && row < n == |a| && a[row] == 1 && 0 < e < p
    ensures ScaledUpTo(p, a, row, e)[row] != 0
  {
    assert 1 * e == e;
  }

  /** Clear row `row` before its diagonal. */
  method ClearRow(p: int, n: nat, mat: seq<Row>, m: array2<int>, inv: array2<int>, row: nat)
    requires p > 1 && IsMatrix(p, n, mat) && Square(m, n) && Square(inv, n) && m != inv && row < n
    requires Swept(p, n, mat, RowsOf(m), RowsOf(inv), row)
    modifies m, inv
    ensures Swept(p, n, mat, RowsOf(m), RowsOf(inv), row)
    ensures forall c :: 0 <= c < row ==> RowsOf(m)[row][c] == 0
  {
    for j := 0 to row
      invariant Swept(p, n, mat, RowsOf(m), RowsOf(inv), row)
      invariant forall c :: 0 <= c < j ==> RowsOf(m)[row][c] == 0
    {
      SweptSubtract(p, n, mat, RowsOf(m), RowsOf(inv), row, j);
      SubtractRow(p, n, m, inv, row, j);
    }
  }

  /** The forward sweep; false when a pivot is zero. */
  method Forward(p: int, n: nat, mat: seq<Row>, m: array2<int>, inv: array2<int>) returns (ok: bool)
    requires IsPrime(p) && IsMatrix(p, n, mat) && Square(m, n) && Square(inv, n) && m != inv
    requires Swept(p, n, mat, RowsOf(m), RowsOf(inv), 0)
    modifies m, inv
    ensures ok ==> Swept(p, n, mat, RowsOf(m), RowsOf(inv), n)
    ensures !ok ==> exists k: nat :: 1 <= k <= n && Singular(p, n, mat, k)
  {
    for row := 0 to n
      invariant Swept(p, n, mat, RowsOf(m), RowsOf(inv), row)
    {
      ClearRow(p, n, mat, m, inv, row);
      assert LinkedRow(p, n, mat, RowsOf(m)[row], RowsOf(inv)[row]) && RowsOf(m)[row][row] == m[row, row];
      if m[row, row] == 0 {
        ZeroPivotIsSingular(p, n, mat, RowsOf(m), RowsOf(inv), row);
        return false;
      }
      var el := Inverse(p, m[row, row]);
      NonZeroInverse(p, m[row, row], el);
      SweptScale(p, n, mat, RowsOf(m), RowsOf(inv), row, el);
      ScaleRow(p, n, m, inv, row, el);
    }
    ok := true;
  }

  lemma {:induction false} NonZeroInverse(p: int, a: int, x: int)
    requires p > 1 && 0 <= x < p && (a * x) % p == 1
    ensures x > 0
  {
    assert x == 0 ==> a * x == 0;
  }

  /** What back substitution has left of `m`: rows below `row`, and columns of `row` from `j` on, are used up. */
  ghost predicate Remaining(n: nat, debug: bool, upper: seq<Row>, m: seq<Row>, row: nat, j: nat)
    requires |upper| == n && row < n && j <= n
  {
    && |m| == n && (forall i: nat :: i < row ==> m[i] == upper[i])
    && m[row] == (if debug then ClearedFrom(upper[row], j) else upper[row])
    && (debug ==> forall i: nat :: row < i < n ==> m[i] == UnitRow(n, i))
  }

  /** Subtract the solved rows below from row `row`, last column first. */
  method SolveRow(p: int, n: nat, debug: bool, mat: seq<Row>, m: array2<int>, inv: array2<int>, row: nat,
                  ghost upper: seq<Row>)
    requires p > 1 && IsMatrix(p, n, mat) && IsMatrix(p, n, upper)
    requires Square(m, n) && Square(inv, n) && m != inv && row < n
    requires BackSolved(p, n, mat, upper, RowsOf(inv), row, n) && Remaining(n, debug, upper, RowsOf(m), row, n)
    modifies m, inv
    ensures BackSolved(p, n, mat, upper, RowsOf(inv), row, row + 1)
    ensures Remaining(n, debug, upper, RowsOf(m), row, row + 1)
  {
    var j := n;
    while j > row + 1
      invariant row + 1 <= j <= n
      invariant BackSolved(p, n, mat, upper, RowsOf(inv), row, j)
      invariant Remaining(n, debug, upper, RowsOf(m), row, j)
    {
      j := j - 1;
      BackKeeps(p, n, mat, upper, RowsOf(inv), row, j);
      assert RowsOf(m)[row][j] == upper[row][j];
      assert debug ==> ClearedFrom(ClearedFrom(upper[row], j + 1), j) == ClearedFrom(upper[row], j);
      BackRow(p, n, debug, m, inv, row, j);
    }
  }

  /** Between rows: those from `row` on are solved, those before it are as the sweep left them. */
  ghost predicate BackFrom(p: int, n: nat, debug: bool, mat: seq<Row>, upper: seq<Row>, m: seq<Row>, inv: seq<Row>,
                           row: nat)
    requires p > 1 && IsMatrix(p, n, mat) && IsMatrix(p, n, upper)
  {
    && |inv| == n && |m| == n && row <= n
    && (forall i: nat :: i < row ==> LinkedRow(p, n, mat, upper[i], inv[i]) && m[i] == upper[i])
    && (forall i: nat :: row <= i < n ==> LinkedRow(p, n, mat, UnitRow(n, i), inv[i]))
    && (debug ==> forall i: nat :: row <= i < n ==> m[i] == UnitRow(n, i))
  }

  lemma {:induction false} BackStarts(p: int, n: nat, debug: bool, mat: seq<Row>, upper: seq<Row>, m: seq<Row>,
                                      inv: seq<Row>, row: nat)
    requires p > 1 && IsMatrix(p, n, mat) && IsMatrix(p, n, upper) && row < n
    requires BackFrom(p, n, debug, mat, upper, m, inv, row + 1)
    ensures BackSolved(p, n, mat, upper, inv, row, n) && Remaining(n, debug, upper, m, row, n)
  {
    assert Mixed(n, upper[row], row, n) == upper[row];
    assert ClearedFrom(upper[row], n) == upper[row];
  }

  lemma {:induction false} BackEnds(p: int, n: nat, debug: bool, mat: seq<Row>, upper: seq<Row>, m: seq<Row>,
                                    inv: seq<Row>, row: nat)
    requires p > 1 && IsMatrix(p, n, mat) && IsMatrix(p, n, upper) && UnitUpper(n, upper, n) && row < n
    requires BackSolved(p, n, mat, upper, inv, row, row + 1)
    requires Remaining(n, debug, upper, m, row, row + 1)
    ensures BackFrom(p, n, debug, mat, upper, m, inv, row)
  {
    assert Mixed(n, upper[row], row, row + 1) == UnitRow(n, row);
    assert ClearedFrom(upper[row], row + 1) == UnitRow(n, row);
  }

  lemma {:induction false} SweptRows(p: int, n: nat, mat: seq<Row>, upper: seq<Row>, inv: seq<Row>)
    requires p > 1 && IsMatrix(p, n, mat) && Linked(p, n, mat, upper, inv)
    ensures IsMatrix(p, n, upper)
  {
    forall i: nat | i < n ensures IsRow(p, n, upper[i]) { assert LinkedRow(p, n, mat, upper[i], inv[i]); }
  }

  method Backward(p: int, n: nat, debug: bool, mat: seq<Row>, m: array2<int>, inv: array2<int>)
    requires p > 1 && n >= 1 && IsMatrix(p, n, mat) && Square(m, n) && Square(inv, n) && m != inv
    requires Linked(p, n, mat, RowsOf(m), RowsOf(inv)) && UnitUpper(n, RowsOf(m), n)
    modifies m, inv
    ensures LeftInverse(p, n, RowsOf(inv), mat)
    ensures debug ==> forall i: nat :: i < n ==> RowsOf(m)[i] == UnitRow(n, i)
  {
    ghost var upper := RowsOf(m);
    SweptRows(p, n, mat, upper, RowsOf(inv));
    var row := n;
    while row > 0
      invariant 0 <= row <= n
      invariant BackFrom(p, n, debug, mat, upper, RowsOf(m), RowsOf(inv), row)
    {
      row := row - 1;
      BackStarts(p, n, debug, mat, upper, RowsOf(m), RowsOf(inv), row);
      SolveRow(p, n, debug, mat, m, inv, row, upper);
      BackEnds(p, n, debug, mat, upper, RowsOf(m), RowsOf(inv), row);
    }
  }

  /**
   The inverse, or `None` where the source panics on a zero pivot.  A returned matrix times the input
   is the identity; a panic happens exactly when some leading block of the input is singular.
   */
  method Invert(p: int, n: nat, debug: bool, mat: seq<Row>) returns (r: Option<array2<int>>)
    requires IsPrime(p) && n >= 1 && IsMatrix(p, n, mat)
    ensures r.Some? ==> Square(r.value, n) && LeftInverse(p, n, RowsOf(r.value), mat)
    ensures r.None? <==> exists k: nat :: 1 <= k <= n && Singular(p, n, mat, k)
  {
    var m := new int[n, n]((i, c) requires 0 <= i < n && 0 <= c < n => assert IsRow(p, n, mat[i]); mat[i][c]);
    var inv := new int[n, n]((i, c) => if i == c then 1 else 0);
    assert RowsOf(m) == mat by {
      forall i: nat | i < n ensures RowOf(m, i) == mat[i] { assert IsRow(p, n, mat[i]); }
    }
    assert forall i: nat :: i < n ==> RowsOf(inv)[i] == UnitRow(n, i);
    IdentityLinks(p, n, mat, RowsOf(inv));
    var ok := Forward(p, n, mat, m, inv);
    if !ok { return None; }
    forall k: nat | 1 <= k <= n ensures !Singular(p, n, mat, k) {
      NoLeadingBlockIsSingular(p, n, mat, RowsOf(m), RowsOf(inv), k);
    }
    Backward(p, n, debug, mat, m, inv);
    r := Some(inv);
  }

  /** Without pivoting an invertible matrix can be refused: this one is its own inverse, but its first pivot is zero. */
  lemma {:induction false} InvertibleButRefused()
    ensures var swap := [[0, 1], [1, 0]];
            && IsMatrix(7, 2, swap) && LeftInverse(7, 2, swap, swap)
            && Singular(7, 2, swap, 1)
  {
    var swap := [[0, 1], [1, 0]];
    assert IsMatrix(7, 2, swap);
    assert Column(2, swap, 0) == [0, 1] && Column(2, swap, 1) == [1, 0];
    assert Column(2, swap, 0)[..1] == [0];
    assert Dot([0, 1], [0, 1]) == 1 == Dot([1, 0], [1, 0]) && Dot([0, 1], [1, 0]) == 0 == Dot([1, 0], [0, 1]) by {
      assert Dot([0], [0]) == 0 && Dot([0], [1]) == 0 && Dot([1], [0]) == 0 && Dot([1], [1]) == 1;
      assert [0, 1][..1] == [0] && [1, 0][..1] == [1];
    }
    assert Dot([1], [0]) == 0;
    assert Annihilates(7, 2, swap, 1, [1]);
  }
}
