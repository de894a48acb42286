/**
 Linear algebra over GF(2).

 A `Vec` is a bit vector; it serves both as a matrix row and as a symbol (the bits of its
 bytes).  A `Mat` is a sequence of rows.  `Dot(r, x, w)` is the XOR of the rows of `x`
 selected by `r`, so `Mul` is the matrix product, and also the application of a matrix to a
 column of symbols.
 */
module Gf2 {

  type Vec = seq<bool>
  type Mat = seq<Vec>

  function Zero(w: nat): (z: Vec)
    ensures |z| == w
  {
    seq(w, _ => false)
  }

  function Xor(a: Vec, b: Vec): (c: Vec)
    requires |a| == |b|
    ensures |c| == |a|
  {
    seq(|a|, i requires 0 <= i < |a| => a[i] != b[i])
  }

  predicate IsMat(m: Mat, rows: nat, cols: nat) {
    |m| == rows && forall i :: 0 <= i < |m| ==> |m[i]| == cols
  }

  function Dot(r: Vec, x: Mat, w: nat): (s: Vec)
    requires IsMat(x, |r|, w)
    ensures |s| == w
  {
    if |r| == 0 then Zero(w)
    else
      var n := |r| - 1;
      var s := Dot(r[..n], x[..n], w);
      if r[n] then Xor(s, x[n]) else s
  }

  function Mul(a: Mat, x: Mat, w: nat): (y: Mat)
    requires IsMat(a, |a|, |x|) && IsMat(x, |x|, w)
    ensures IsMat(y, |a|, w)
    ensures forall i :: 0 <= i < |a| ==> y[i] == Dot(a[i], x, w)
  {
    seq(|a|, i requires 0 <= i < |a| => Dot(a[i], x, w))
  }

  function Unit(n: nat, i: nat): (u: Vec)
    ensures |u| == n
  {
    seq(n, j => j == i)
  }

  function Identity(n: nat): (m: Mat)
    ensures IsMat(m, n, n)
    ensures forall i :: 0 <= i < n ==> m[i] == Unit(n, i)
  {
    seq(n, i requires 0 <= i < n => Unit(n, i))
  }

  function ZeroMat(rows: nat, w: nat): (m: Mat)
    ensures IsMat(m, rows, w)
    ensures forall i :: 0 <= i < rows ==> m[i] == Zero(w)
  {
    seq(rows, _ => Zero(w))
  }

  /** The first `k` columns. */
  function Cols(m: Mat, k: nat): (c: Mat)
    requires forall i :: 0 <= i < |m| ==> k <= |m[i]|
    ensures IsMat(c, |m|, k)
    ensures forall i :: 0 <= i < |m| ==> c[i] == m[i][..k]
  {
    seq(|m|, i requires 0 <= i < |m| => m[i][..k])
  }

  // ---------- XOR is an abelian group of exponent two

  lemma XorLaws(a: Vec, b: Vec, c: Vec)
    requires |a| == |b| == |c|
    ensures Xor(a, b) == Xor(b, a)
    ensures Xor(Xor(a, b), c) == Xor(a, Xor(b, c))
    ensures Xor(a, Zero(|a|)) == a
    ensures Xor(a, a) == Zero(|a|)
  {
  }

  lemma XorSwap(a: Vec, b: Vec, c: Vec, d: Vec)
    requires |a| == |b| == |c| == |d|
    ensures Xor(Xor(a, b), Xor(c, d)) == Xor(Xor(a, c), Xor(b, d))
  {
  }

  lemma XorCancel(a: Vec, b: Vec)
    requires |a| == |b|
    ensures Xor(Xor(a, b), b) == a
    ensures Xor(a, b) == Zero(|a|) ==> a == b
  {
    assert Xor(Xor(a, b), b) == a;
    if Xor(a, b) == Zero(|a|) {
      forall i | 0 <= i < |a| ensures a[i] == b[i] {
        assert Xor(a, b)[i] == Zero(|a|)[i];
      }
    }
  }

  // ---------- Dot is linear in its row

  lemma {:induction false} DotXorRow(r: Vec, s: Vec, x: Mat, w: nat)
    requires |r| == |s| && IsMat(x, |r|, w)
    ensures Dot(Xor(r, s), x, w) == Xor(Dot(r, x, w), Dot(s, x, w))
  {
    if |r| == 0 {
    } else {
      var n := |r| - 1;
      DotXorRow(r[..n], s[..n], x[..n], w);
      assert Xor(r, s)[..n] == Xor(r[..n], s[..n]);
      var p, q := Dot(r[..n], x[..n], w), Dot(s[..n], x[..n], w);
      XorSwap(p, x[n], q, x[n]);
      XorSwap(p, x[n], q, Zero(w));
      XorLaws(q, x[n], x[n]);
      XorLaws(Xor(p, q), x[n], x[n]);
      XorLaws(x[n], x[n], x[n]);
      XorLaws(p, q, x[n]);
    }
  }

  lemma {:induction false} DotZero(n: nat, x: Mat, w: nat)
    requires IsMat(x, n, w)
    ensures Dot(Zero(n), x, w) == Zero(w)
  {
    if n == 0 {
    } else {
      assert Zero(n)[..n-1] == Zero(n-1);
      DotZero(n-1, x[..n-1], w);
    }
  }

  lemma {:induction false} DotUnit(n: nat, i: nat, x: Mat, w: nat)
    requires i < n && IsMat(x, n, w)
    ensures Dot(Unit(n, i), x, w) == x[i]
  {
    if i == n-1 {
      assert Unit(n, i)[..n-1] == Zero(n-1);
      DotZero(n-1, x[..n-1], w);
      XorLaws(Zero(w), x[i], x[i]);
      XorLaws(x[i], x[i], x[i]);
    } else {
      assert Unit(n, i)[..n-1] == Unit(n-1, i);
      DotUnit(n-1, i, x[..n-1], w);
    }
  }

  /** Flipping bit `b` of a row adds row `x[b]` to what it selects. */
  lemma DotToggle(r: Vec, b: nat, x: Mat, w: nat)
    requires b < |r| && IsMat(x, |r|, w)
    ensures Dot(r[b := !r[b]], x, w) == Xor(Dot(r, x, w), x[b])
  {
    assert r[b := !r[b]] == Xor(r, Unit(|r|, b));
    DotXorRow(r, Unit(|r|, b), x, w);
    DotUnit(|r|, b, x, w);
  }

  /** Splitting a row in two splits the sum in two. */
  lemma {:induction false} DotSplit(r: Vec, x: Mat, k: nat, w: nat)
    requires k <= |r| && IsMat(x, |r|, w)
    ensures Dot(r, x, w) == Xor(Dot(r[..k], x[..k], w), Dot(r[k..], x[k..], w))
    decreases |r|
  {
    if |r| == k {
      assert r[..k] == r && x[..k] == x;
      XorLaws(Dot(r, x, w), Zero(w), Zero(w));
    } else {
      var n := |r| - 1;
      DotSplit(r[..n], x[..n], k, w);
      assert r[..n][..k] == r[..k] && x[..n][..k] == x[..k];
      assert r[..n][k..] == r[k..][..n-k] && x[..n][k..] == x[k..][..n-k];
      XorLaws(Dot(r[..k], x[..k], w), Dot(r[k..][..n-k], x[k..][..n-k], w), x[n]);
    }
  }

  // ---------- the matrix product is associative and has a unit

  lemma {:induction false} DotAssoc(r: Vec, a: Mat, x: Mat, w: nat)
    requires IsMat(a, |r|, |x|) && IsMat(x, |x|, w)
    ensures Dot(Dot(r, a, |x|), x, w) == Dot(r, Mul(a, x, w), w)
  {
    if |r| == 0 {
      DotZero(|x|, x, w);
    } else {
      var n := |r| - 1;
      DotAssoc(r[..n], a[..n], x, w);
      assert Mul(a, x, w)[..n] == Mul(a[..n], x, w);
      if r[n] {
        DotXorRow(Dot(r[..n], a[..n], |x|), a[n], x, w);
      }
    }
  }

  lemma MulAssoc(a: Mat, b: Mat, x: Mat, w: nat)
    requires IsMat(a, |a|, |b|) && IsMat(b, |b|, |x|) && IsMat(x, |x|, w)
    ensures Mul(Mul(a, b, |x|), x, w) == Mul(a, Mul(b, x, w), w)
  {
    forall i | 0 <= i < |a|
      ensures Mul(Mul(a, b, |x|), x, w)[i] == Mul(a, Mul(b, x, w), w)[i]
    {
      DotAssoc(a[i], b, x, w);
    }
  }

  lemma MulIdentity(x: Mat, w: nat)
    requires IsMat(x, |x|, w)
    ensures Mul(Identity(|x|), x, w) == x
  {
    forall i | 0 <= i < |x| ensures Mul(Identity(|x|), x, w)[i] == x[i] {
      DotUnit(|x|, i, x, w);
    }
  }

  lemma {:induction false} DotIdentity(r: Vec, n: nat)
    requires |r| <= n
    ensures Dot(r, Identity(n)[..|r|], n) == r + Zero(n - |r|)
  {
    if |r| > 0 {
      var k := |r| - 1;
      assert Identity(n)[..|r|][..k] == Identity(n)[..k];
      DotIdentity(r[..k], n);
      if r[k] {
        assert Xor(r[..k] + Zero(n - k), Unit(n, k)) == r + Zero(n - |r|);
      } else {
        assert r[..k] + Zero(n - k) == r + Zero(n - |r|);
      }
    } else {
      assert Zero(n) == r + Zero(n);
    }
  }

  lemma MulIdentityRight(a: Mat, n: nat)
    requires IsMat(a, |a|, n)
    ensures Mul(a, Identity(n), n) == a
  {
    forall i | 0 <= i < |a| ensures Mul(a, Identity(n), n)[i] == a[i] {
      DotIdentity(a[i], n);
      assert Identity(n)[..n] == Identity(n);
      assert a[i] + Zero(0) == a[i];
    }
  }

  // ---------- linear dependence of columns

  /** Some non-empty set of columns of `a` (the ones `x` marks) sums to zero: the rank is below `k`. */
  ghost predicate Dependent(a: Mat, k: nat)
    requires IsMat(a, |a|, k)
  {
    exists x: Mat :: IsMat(x, k, 1) && x != ZeroMat(k, 1) && Mul(a, x, 1) == ZeroMat(|a|, 1)
  }

  /** Applying `a` loses nothing. */
  ghost predicate Injective(a: Mat, k: nat)
    requires IsMat(a, |a|, k)
  {
    forall w: nat, x: Mat, y: Mat ::
      IsMat(x, k, w) && IsMat(y, k, w) && Mul(a, x, w) == Mul(a, y, w) ==> x == y
  }

  // ---------- elementary row operations

  function AddRow(m: Mat, dst: nat, src: nat): (r: Mat)
    requires dst < |m| && src < |m| && |m[dst]| == |m[src]|
  {
    m[dst := Xor(m[dst], m[src])]
  }

  function SwapRows(m: Mat, i: nat, j: nat): (r: Mat)
    requires i < |m| && j < |m|
  {
    m[i := m[j]][j := m[i]]
  }

  lemma MulAddRow(a: Mat, dst: nat, src: nat, x: Mat, w: nat)
    requires dst < |a| && src < |a|
    requires IsMat(a, |a|, |x|) && IsMat(x, |x|, w)
    ensures Mul(AddRow(a, dst, src), x, w) == AddRow(Mul(a, x, w), dst, src)
  {
    DotXorRow(a[dst], a[src], x, w);
  }

  lemma MulSwapRows(a: Mat, i: nat, j: nat, x: Mat, w: nat)
    requires i < |a| && j < |a|
    requires IsMat(a, |a|, |x|) && IsMat(x, |x|, w)
    ensures Mul(SwapRows(a, i, j), x, w) == SwapRows(Mul(a, x, w), i, j)
  {
  }

  /** Adding one row to another is undone by doing it again. */
  lemma AddRowInvolutive(m: Mat, dst: nat, src: nat, w: nat)
    requires dst < |m| && src < |m| && dst != src && IsMat(m, |m|, w)
    ensures AddRow(AddRow(m, dst, src), dst, src) == m
  {
    XorCancel(m[dst], m[src]);
  }

  lemma AddRowZero(m: Mat, dst: nat, src: nat, w: nat)
    requires dst < |m| && src < |m| && dst != src && IsMat(m, |m|, w)
    ensures m == ZeroMat(|m|, w) <==> AddRow(m, dst, src) == ZeroMat(|m|, w)
  {
    XorLaws(Zero(w), Zero(w), Zero(w));
    var z := ZeroMat(|m|, w);
    assert AddRow(z, dst, src) == z;
    AddRowInvolutive(m, dst, src, w);
  }

  lemma AddRowDependent(a: Mat, dst: nat, src: nat, k: nat)
    requires dst < |a| && src < |a| && dst != src && IsMat(a, |a|, k)
    ensures Dependent(a, k) <==> Dependent(AddRow(a, dst, src), k)
  {
    forall x: Mat | IsMat(x, k, 1)
      ensures Mul(a, x, 1) == ZeroMat(|a|, 1) <==> Mul(AddRow(a, dst, src), x, 1) == ZeroMat(|a|, 1)
    {
      MulAddRow(a, dst, src, x, 1);
      AddRowZero(Mul(a, x, 1), dst, src, 1);
    }
  }

  lemma SwapRowsDependent(a: Mat, i: nat, j: nat, k: nat)
    requires i < |a| && j < |a| && IsMat(a, |a|, k)
    ensures Dependent(a, k) <==> Dependent(SwapRows(a, i, j), k)
  {
    forall x: Mat | IsMat(x, k, 1)
      ensures Mul(a, x, 1) == ZeroMat(|a|, 1) <==> Mul(SwapRows(a, i, j), x, 1) == ZeroMat(|a|, 1)
    {
      MulSwapRows(a, i, j, x, 1);
      var z := ZeroMat(|a|, 1);
      assert SwapRows(z, i, j) == z;
      assert SwapRows(SwapRows(Mul(a, x, 1), i, j), i, j) == Mul(a, x, 1);
    }
  }

  lemma AddRowInjective(a: Mat, dst: nat, src: nat, k: nat)
    requires dst < |a| && src < |a| && dst != src && IsMat(a, |a|, k)
    requires Injective(a, k)
    ensures Injective(AddRow(a, dst, src), k)
  {
    var b := AddRow(a, dst, src);
    forall w: nat, x: Mat, y: Mat |
      IsMat(x, k, w) && IsMat(y, k, w) && Mul(b, x, w) == Mul(b, y, w)
      ensures x == y
    {
      MulAddRow(a, dst, src, x, w);
      MulAddRow(a, dst, src, y, w);
      AddRowInvolutive(Mul(a, x, w), dst, src, w);
      AddRowInvolutive(Mul(a, y, w), dst, src, w);
    }
  }

  lemma IdentityInjective(n: nat)
    ensures Injective(Identity(n), n)
  {
    forall w: nat, x: Mat, y: Mat |
      IsMat(x, n, w) && IsMat(y, n, w) && Mul(Identity(n), x, w) == Mul(Identity(n), y, w)
      ensures x == y
    {
      MulIdentity(x, w);
      MulIdentity(y, w);
    }
  }
}
