/**
 The two Gaussian eliminations of the Raptor code: inversion of the K x K encoder matrix
 (zero pivots repaired by a row addition) and the solution of the N x K decoder system
 (zero pivots repaired by a row swap).
 */
module Elimination {
  import opened Basics
  import opened Gf2

  /** Columns `0..j` already agree with the identity. */
  ghost predicate Reduced(m: Mat, j: nat) {
    forall i, t :: 0 <= i < |m| && 0 <= t < j ==> t < |m[i]| && (m[i][t] <==> i == t)
  }

  /** Column `j` has no one on or below the diagonal. */
  ghost predicate NoPivot(m: Mat, j: nat, from: nat) {
    forall i :: j <= i < |m| && i < from ==> j < |m[i]| && !m[i][j]
  }

  /** Marks column `j` and, to its left, exactly the unit columns that add up to it. */
  ghost function NullVector(m: Mat, j: nat, k: nat): (x: Mat)
    requires j < k && IsMat(m, |m|, k) && j <= |m|
    ensures IsMat(x, k, 1)
  {
    seq(k, t => [t == j || (0 <= t < j && m[t][j])])
  }

  lemma {:induction false} NullVectorRow(m: Mat, j: nat, k: nat, i: nat, n: nat)
    requires j < k && IsMat(m, |m|, k) && j <= |m| && i < |m| && n <= k
    requires Reduced(m, j) && NoPivot(m, j, |m|)
    ensures Dot(m[i][..n], NullVector(m, j, k)[..n], 1) == [i < n <= j && m[i][j]]
  {
    if n == 0 {
    } else {
      NullVectorRow(m, j, k, i, n-1);
      assert m[i][..n][..n-1] == m[i][..n-1];
      assert NullVector(m, j, k)[..n][..n-1] == NullVector(m, j, k)[..n-1];
      var s := Dot(m[i][..n-1], NullVector(m, j, k)[..n-1], 1);
      assert Xor(s, NullVector(m, j, k)[n-1]) == [s[0] != NullVector(m, j, k)[n-1][0]];
      assert s == [s[0]];
    }
  }

  lemma NullVectorIsNull(m: Mat, j: nat, k: nat)
    requires j < k && IsMat(m, |m|, k) && j <= |m|
    requires Reduced(m, j) && NoPivot(m, j, |m|)
    ensures Dependent(m, k)
  {
    var x := NullVector(m, j, k);
    assert x[j] == [true] && ZeroMat(k, 1)[j] == Zero(1);
    assert x[j][0] != Zero(1)[0];
    forall i | 0 <= i < |m| ensures Mul(m, x, 1)[i] == ZeroMat(|m|, 1)[i] {
      NullVectorRow(m, j, k, i, k);
      assert m[i][..k] == m[i] && x[..k] == x;
      assert [false] == Zero(1);
    }
    assert Mul(m, x, 1) == ZeroMat(|m|, 1);
  }

  /** Reduced in all `k` columns: the first `k` rows are the identity. */
  lemma ReducedIsIdentity(m: Mat, k: nat)
    requires IsMat(m, |m|, k) && k <= |m| && Reduced(m, k)
    ensures m[..k] == Identity(k)
  {
    forall i | 0 <= i < k ensures m[i] == Unit(k, i) {
    }
  }

  lemma ReducedIndependent(m: Mat, k: nat)
    requires IsMat(m, |m|, k) && k <= |m| && Reduced(m, k)
    ensures !Dependent(m, k)
  {
    ReducedIsIdentity(m, k);
    forall x: Mat | IsMat(x, k, 1) && Mul(m, x, 1) == ZeroMat(|m|, 1) ensures x == ZeroMat(k, 1) {
      MulIdentity(x, 1);
      assert Mul(m, x, 1)[..k] == Mul(m[..k], x, 1);
      assert ZeroMat(|m|, 1)[..k] == ZeroMat(k, 1);
    }
  }

  // ---------- inversion

  /** `inv` records the row operations that turned `a` into `m`. */
  ghost predicate Tracks(inv: Mat, a: Mat, m: Mat, k: nat) {
    && IsMat(a, k, k) && IsMat(m, k, k) && IsMat(inv, k, k)
    && m == Mul(inv, a, k)
    && Injective(inv, k)
    && (Dependent(m, k) <==> Dependent(a, k))
  }

  lemma TracksStart(a: Mat, k: nat)
    requires IsMat(a, k, k)
    ensures Tracks(Identity(k), a, a, k)
  {
    MulIdentity(a, k);
    IdentityInjective(k);
  }

  lemma TracksAddRow(inv: Mat, a: Mat, m: Mat, k: nat, dst: nat, src: nat)
    requires Tracks(inv, a, m, k) && dst < k && src < k && dst != src
    ensures Tracks(AddRow(inv, dst, src), a, AddRow(m, dst, src), k)
  {
    MulAddRow(inv, dst, src, a, k);
    AddRowInjective(inv, dst, src, k);
    AddRowDependent(m, dst, src, k);
  }

  /** A reduced matrix has turned its record into a two-sided inverse. */
  lemma TracksReduced(inv: Mat, a: Mat, m: Mat, k: nat)
    requires Tracks(inv, a, m, k) && Reduced(m, k)
    ensures Mul(inv, a, k) == Identity(k) && Mul(a, inv, k) == Identity(k)
    ensures !Dependent(a, k)
  {
    ReducedIsIdentity(m, k);
    assert m[..k] == m;
    ReducedIndependent(m, k);
    MulAssoc(inv, a, inv, k);
    MulIdentity(inv, k);
    MulIdentityRight(inv, k);
    assert Mul(inv, Mul(a, inv, k), k) == Mul(inv, Identity(k), k);
  }

  lemma ReducedAddRow(m: Mat, j: nat, k: nat, dst: nat, src: nat)
    requires IsMat(m, |m|, k) && j < k && dst < |m| && j <= src < |m| && dst != src
    requires Reduced(m, j)
    ensures Reduced(AddRow(m, dst, src), j)
    ensures forall i :: 0 <= i < |m| && i != dst ==> AddRow(m, dst, src)[i] == m[i]
    ensures AddRow(m, dst, src)[dst][j] == (m[dst][j] != m[src][j])
  {
  }

  /** Column `j` is the unit column in rows below `n`, and the rest of the columns before it still are. */
  ghost predicate Swept(m: Mat, j: nat, n: nat) {
    && Reduced(m, j) && j < |m|
    && (forall i :: 0 <= i < |m| ==> j < |m[i]|)
    && m[j][j]
    && forall i :: 0 <= i < |m| && i < n ==> (m[i][j] <==> i == j)
  }

  lemma SweptAll(m: Mat, j: nat)
    requires Swept(m, j, |m|)
    ensures Reduced(m, j + 1)
  {
  }

  /** The first row at or below the diagonal with a one in column `j`, or the number of rows. */
  method FindPivot(m: array<Vec>, j: nat) returns (i: nat)
    requires j < m.Length && forall t :: 0 <= t < m.Length ==> j < |m[t]|
    ensures j <= i <= m.Length && NoPivot(m[..], j, i)
    ensures i < m.Length ==> m[i][j]
  {
    i := j;
    while !m[i][j]
      invariant j <= i < m.Length
      invariant NoPivot(m[..], j, i)
      decreases m.Length - i
    {
      i := i + 1;
      if i == m.Length {
        return;
      }
    }
  }

  /** Adds row `src` to row `dst` in both matrices. */
  method AddRows(AA: array<Vec>, AI: array<Vec>, dst: nat, src: nat)
    requires AA != AI && AA.Length == AI.Length && dst < AA.Length && src < AA.Length
    requires |AA[dst]| == |AA[src]| && |AI[dst]| == |AI[src]|
    modifies AA, AI
    ensures AA[..] == AddRow(old(AA[..]), dst, src)
    ensures AI[..] == AddRow(old(AI[..]), dst, src)
  {
    AA[dst] := Xor(AA[dst], AA[src]);
    AI[dst] := Xor(AI[dst], AI[src]);
  }

  /** Clears column `j` outside its pivot row. */
  method SweepColumn(AA: array<Vec>, AI: array<Vec>, j: nat, K: nat, ghost a: Mat)
    requires AA != AI && AA.Length == AI.Length == K && j < K
    requires Tracks(AI[..], a, AA[..], K) && Reduced(AA[..], j) && AA[..][j][j]
    modifies AA, AI
    ensures Tracks(AI[..], a, AA[..], K) && Reduced(AA[..], j + 1)
  {
    for i := 0 to K
      invariant Tracks(AI[..], a, AA[..], K)
      invariant Swept(AA[..], j, i)
    {
      if AA[i][j] && i != j {
        TracksAddRow(AI[..], a, AA[..], K, i, j);
        ReducedAddRow(AA[..], j, K, i, j);
        AddRows(AA, AI, i, j);
      }
    }
    SweptAll(AA[..], j);
  }

  /** The first K columns of `A`, beside the identity. */
  method Start(A: Mat, K: nat) returns (AA: array<Vec>, AI: array<Vec>)
    requires |A| == K && forall i :: 0 <= i < K ==> K <= |A[i]|
    ensures fresh(AA) && fresh(AI) && AA != AI && AA.Length == AI.Length == K
    ensures AA[..] == Cols(A, K) && AI[..] == Identity(K)
  {
    AA, AI := new Vec[K], new Vec[K];
    for i := 0 to K
      invariant AA[..i] == Cols(A, K)[..i] && AI[..i] == Identity(K)[..i]
    {
      AA[i] := A[i][..K];
      AI[i] := Unit(K, i);
    }
  }

  /** Reduces column `j`, a zero pivot repaired by adding a row from below; impossible if there is none. */
  method ReduceColumn(AA: array<Vec>, AI: array<Vec>, j: nat, K: nat, ghost a: Mat) returns (ok: bool)
    requires AA != AI && AA.Length == AI.Length == K && j < K
    requires Tracks(AI[..], a, AA[..], K) && Reduced(AA[..], j)
    modifies AA, AI
    ensures if ok then Tracks(AI[..], a, AA[..], K) && Reduced(AA[..], j + 1)
            else IsMat(a, K, K) && Dependent(a, K)
  {
    var i := FindPivot(AA, j);
    if i == K {
      NullVectorIsNull(AA[..], j, K);
      return false;
    }
    if i != j {
      TracksAddRow(AI[..], a, AA[..], K, j, i);
      ReducedAddRow(AA[..], j, K, j, i);
      AddRows(AA, AI, j, i);
    }
    SweepColumn(AA, AI, j, K, a);
    ok := true;
  }

  /**
   The inverse of the first K columns of `A`, or nothing.  It exists exactly when those columns
   are independent, and it inverts from both sides.
   */
  method FindInverseMatrix(A: Mat, K: nat) returns (r: Option<Mat>)
    requires |A| == K && forall i :: 0 <= i < K ==> K <= |A[i]|
    ensures r.None? <==> Dependent(Cols(A, K), K)
    ensures r.Some? ==> IsMat(r.value, K, K)
    ensures r.Some? ==> Mul(r.value, Cols(A, K), K) == Identity(K)
    ensures r.Some? ==> Mul(Cols(A, K), r.value, K) == Identity(K)
  {
    ghost var a := Cols(A, K);
    var AA, AI := Start(A, K);
    TracksStart(a, K);
    for j := 0 to K
      invariant Tracks(AI[..], a, AA[..], K)
      invariant Reduced(AA[..], j)
    {
      var ok := ReduceColumn(AA, AI, j, K, a);
      if !ok {
        return None;
      }
    }
    TracksReduced(AI[..], a, AA[..], K);
    r := Some(AI[..]);
  }

  // ---------- the decoder's system

  /** Whatever solved the system `a * c == e` still solves `m * c == d`. */
  ghost predicate KeepsSolutions(a: Mat, e: Mat, m: Mat, d: Mat, k: nat, w: nat) {
    && IsMat(a, |a|, k) && IsMat(m, |a|, k) && IsMat(e, |a|, w) && IsMat(d, |a|, w)
    && (Dependent(m, k) <==> Dependent(a, k))
    && forall c: Mat :: IsMat(c, k, w) && Mul(a, c, w) == e ==> Mul(m, c, w) == d
  }

  lemma KeepsAddRow(a: Mat, e: Mat, m: Mat, d: Mat, k: nat, w: nat, dst: nat, src: nat)
    requires KeepsSolutions(a, e, m, d, k, w) && dst < |a| && src < |a| && dst != src
    ensures KeepsSolutions(a, e, AddRow(m, dst, src), AddRow(d, dst, src), k, w)
  {
    AddRowDependent(m, dst, src, k);
    forall c: Mat | IsMat(c, k, w) && Mul(a, c, w) == e
      ensures Mul(AddRow(m, dst, src), c, w) == AddRow(d, dst, src)
    {
      MulAddRow(m, dst, src, c, w);
    }
  }

  lemma KeepsSwapRows(a: Mat, e: Mat, m: Mat, d: Mat, k: nat, w: nat, i: nat, j: nat)
    requires KeepsSolutions(a, e, m, d, k, w) && i < |a| && j < |a|
    ensures KeepsSolutions(a, e, SwapRows(m, i, j), SwapRows(d, i, j), k, w)
  {
    SwapRowsDependent(m, i, j, k);
    forall c: Mat | IsMat(c, k, w) && Mul(a, c, w) == e
      ensures Mul(SwapRows(m, i, j), c, w) == SwapRows(d, i, j)
    {
      MulSwapRows(m, i, j, c, w);
    }
  }

  lemma ReducedSolved(a: Mat, e: Mat, m: Mat, d: Mat, k: nat, w: nat)
    requires KeepsSolutions(a, e, m, d, k, w) && k <= |a| && Reduced(m, k)
    ensures forall c: Mat :: IsMat(c, k, w) && Mul(a, c, w) == e ==> c == d[..k]
    ensures !Dependent(a, k)
  {
    ReducedIsIdentity(m, k);
    ReducedIndependent(m, k);
    forall c: Mat | IsMat(c, k, w) && Mul(a, c, w) == e ensures c == d[..k] {
      MulIdentity(c, w);
      assert Mul(m, c, w)[..k] == Mul(m[..k], c, w);
    }
  }

  lemma ReducedSwapRows(m: Mat, j: nat, k: nat, i: nat)
    requires IsMat(m, |m|, k) && j < k && j <= i < |m| && Reduced(m, j) && m[i][j]
    ensures Reduced(SwapRows(m, j, i), j) && SwapRows(m, j, i)[j][j]
  {
  }

  /** Clears column `j` outside its pivot row, on the rows and on the received symbols. */
  method SweepSystem(A: array<Vec>, d: array<Vec>, j: nat, K: nat, ghost a: Mat, ghost e: Mat, ghost w: nat)
    requires A != d && A.Length == d.Length == |a| && j < K && j < A.Length
    requires forall i :: 0 <= i < A.Length ==> K <= |A[i]|
    requires KeepsSolutions(a, e, Cols(A[..], K), d[..], K, w)
    requires Reduced(Cols(A[..], K), j) && A[..][j][j]
    modifies A, d
    ensures forall i :: 0 <= i < A.Length ==> K <= |A[i]|
    ensures KeepsSolutions(a, e, Cols(A[..], K), d[..], K, w)
    ensures Reduced(Cols(A[..], K), j + 1)
  {
    for i := 0 to A.Length
      invariant forall t :: 0 <= t < A.Length ==> K <= |A[t]|
      invariant KeepsSolutions(a, e, Cols(A[..], K), d[..], K, w)
      invariant Swept(Cols(A[..], K), j, i)
    {
      ghost var m := Cols(A[..], K);
      assert m[i] == A[i][..K];
      if A[i][j] && i != j {
        KeepsAddRow(a, e, m, d[..], K, w, i, j);
        ReducedAddRow(m, j, K, i, j);
        AddSystemRow(A, d, i, j, K);
      }
    }
    SweptAll(Cols(A[..], K), j);
  }

  /** Adds row `src` to row `dst` in the first K columns, and likewise the symbols. */
  method AddSystemRow(A: array<Vec>, d: array<Vec>, dst: nat, src: nat, K: nat)
    requires A != d && A.Length == d.Length && dst < A.Length && src < A.Length
    requires forall i :: 0 <= i < A.Length ==> K <= |A[i]|
    requires |d[dst]| == |d[src]|
    modifies A, d
    ensures forall i :: 0 <= i < A.Length ==> K <= |A[i]|
    ensures Cols(A[..], K) == AddRow(old(Cols(A[..], K)), dst, src)
    ensures d[..] == AddRow(old(d[..]), dst, src)
  {
    A[dst] := Xor(A[dst][..K], A[src][..K]) + A[dst][K..];
    d[dst] := Xor(d[dst], d[src]);
  }

  /** Exchanges two rows and their symbols. */
  method SwapSystemRows(A: array<Vec>, d: array<Vec>, i: nat, j: nat, ghost K: nat)
    requires A != d && A.Length == d.Length && i < A.Length && j < A.Length
    requires forall t :: 0 <= t < A.Length ==> K <= |A[t]|
    modifies A, d
    ensures forall t :: 0 <= t < A.Length ==> K <= |A[t]|
    ensures Cols(A[..], K) == SwapRows(old(Cols(A[..], K)), i, j)
    ensures d[..] == SwapRows(old(d[..]), i, j)
  {
    A[i], A[j] := A[j], A[i];
    d[i], d[j] := d[j], d[i];
  }

  lemma NoPivotCols(m: Mat, j: nat, k: nat, from: nat)
    requires j < k && (forall i :: 0 <= i < |m| ==> k <= |m[i]|) && NoPivot(m, j, from)
    ensures NoPivot(Cols(m, k), j, from)
  {
  }

  /**
   Solves for the first K intermediate symbols.  `A` holds one row per received symbol, of which
   only the first K columns take part; its rows are reordered and overwritten in place.
   Gives up exactly when those columns are dependent; otherwise the result is the one
   solution, if the received symbols have any.
   */
  method IntermediateKSymbols(A: array<Vec>, e: Mat, K: nat, w: nat) returns (r: Option<Mat>)
    requires K <= A.Length && IsMat(e, A.Length, w)
    requires forall i :: 0 <= i < A.Length ==> K <= |A[i]|
    modifies A
    ensures r.None? <==> Dependent(old(Cols(A[..], K)), K)
    ensures r.Some? ==> IsMat(r.value, K, w)
    ensures r.Some? ==> forall c: Mat :: IsMat(c, K, w) && Mul(old(Cols(A[..], K)), c, w) == e ==> r.value == c
  {
    ghost var a := Cols(A[..], K);
    var d := new Vec[A.Length];
    for i := 0 to A.Length
      invariant forall t :: 0 <= t < i ==> d[t] == e[t]
      invariant A[..] == old(A[..])
    {
      d[i] := e[i];
    }
    assert d[..] == e;
    for j := 0 to K
      invariant forall i :: 0 <= i < A.Length ==> K <= |A[i]|
      invariant KeepsSolutions(a, e, Cols(A[..], K), d[..], K, w)
      invariant Reduced(Cols(A[..], K), j)
    {
      var i := FindPivot(A, j);
      if i == A.Length {
        NoPivotCols(A[..], j, K, i);
        NullVectorIsNull(Cols(A[..], K), j, K);
        return None;
      }
      if i != j {
        KeepsSwapRows(a, e, Cols(A[..], K), d[..], K, w, j, i);
        ReducedSwapRows(Cols(A[..], K), j, K, i);
        SwapSystemRows(A, d, j, i, K);
        assert Cols(A[..], K)[j] == A[..][j][..K];
      }
      SweepSystem(A, d, j, K, a, e, w);
    }
    ReducedSolved(a, e, Cols(A[..], K), d[..], K, w);
    r := Some(d[..K]);
  }
}
