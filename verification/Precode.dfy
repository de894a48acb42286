/**
 The Raptor precode: S LDPC symbols and H half symbols appended to K symbols (`Extend`), and its
 transpose on the rows of the code matrix (`Fold`), which lets a system over all L symbols be
 solved for the first K alone.
 */
module Precode {
  import opened Gf2
  import opened GraySequence
  import opened NumberTheory

  /** K source positions, S LDPC positions, H half positions and the K+S half-symbol masks. */
  datatype Shape = Shape(K: nat, S: nat, H: nat, m: seq<nat>) {
    function L(): nat { K + S + H }

    ghost predicate Valid() {
      && (K > 0 ==> S >= 2)
      && |m| == K + S
      && forall i :: 0 <= i < |m| ==> m[i] < Pow2(H)
    }

    /** The three LDPC positions that symbol `i` is added to. */
    function Hop0(i: nat): (b: nat)
      requires S >= 2
      ensures b < S
    {
      i % S
    }

    function Step(i: nat): nat
      requires S >= 2
    {
      1 + (i / S) % (S - 1)
    }

    function Hop1(i: nat): (b: nat)
      requires S >= 2
      ensures b < S
    {
      (Hop0(i) + Step(i)) % S
    }

    function Hop2(i: nat): (b: nat)
      requires S >= 2
      ensures b < S
    {
      (Hop1(i) + Step(i)) % S
    }

    predicate Linked(b: nat, i: nat)
      requires S >= 2
    {
      ((b == Hop0(i)) != (b == Hop1(i))) != (b == Hop2(i))
    }

    /** Which of the K symbols make up LDPC symbol `b`. */
    function LdpcRow(b: nat): (r: Vec)
      requires Valid()
      ensures |r| == K
    {
      seq(K, i requires 0 <= i < K => Linked(b, i))
    }

    function LdpcMat(): (a: Mat)
      requires Valid()
      ensures IsMat(a, S, K)
      ensures forall b :: 0 <= b < S ==> a[b] == LdpcRow(b)
    {
      seq(S, b requires 0 <= b < S => LdpcRow(b))
    }

    /** Which of the K+S symbols make up half symbol `h`. */
    function HalfRow(h: nat): (r: Vec)
      requires Valid()
      ensures |r| == K + S
    {
      seq(K + S, i requires 0 <= i < K + S => Bit(m[i], h))
    }

    function HalfMat(): (a: Mat)
      requires Valid()
      ensures IsMat(a, H, K + S)
      ensures forall h :: 0 <= h < H ==> a[h] == HalfRow(h)
    {
      seq(H, h requires 0 <= h < H => HalfRow(h))
    }

    // ---------- the two directions

    function WithLdpc(c: Mat, w: nat): (x: Mat)
      requires Valid() && IsMat(c, K, w)
      ensures IsMat(x, K + S, w)
    {
      c + Mul(LdpcMat(), c, w)
    }

    /** All L intermediate symbols. */
    function Extend(c: Mat, w: nat): (x: Mat)
      requires Valid() && IsMat(c, K, w)
      ensures IsMat(x, L(), w)
    {
      WithLdpc(c, w) + Mul(HalfMat(), WithLdpc(c, w), w)
    }

    /** Moves what a row says about the half symbols onto the first K+S. */
    function FoldHalf(r: Vec): (f: Vec)
      requires Valid() && |r| == L()
      ensures |f| == K + S
    {
      Xor(r[..K + S], Dot(r[K + S..], HalfMat(), K + S))
    }

    /** Moves what a row says about the LDPC symbols onto the first K. */
    function FoldLdpc(r: Vec): (f: Vec)
      requires Valid() && |r| == K + S
      ensures |f| == K
    {
      Xor(r[..K], Dot(r[K..], LdpcMat(), K))
    }

    function Fold(r: Vec): (f: Vec)
      requires Valid() && |r| == L()
      ensures |f| == K
    {
      FoldLdpc(FoldHalf(r))
    }

    function FoldAll(a: Mat): (f: Mat)
      requires Valid() && IsMat(a, |a|, L())
      ensures IsMat(f, |a|, K)
      ensures forall i :: 0 <= i < |a| ==> f[i] == Fold(a[i])
    {
      seq(|a|, i requires 0 <= i < |a| => Fold(a[i]))
    }
  }

  /** A row's sum over `x + p * x` is the sum, over `x`, of the row with its tail folded through `p`. */
  lemma FoldThrough(r: Vec, p: Mat, x: Mat, w: nat)
    requires |r| == |x| + |p| && IsMat(p, |p|, |x|) && IsMat(x, |x|, w)
    ensures Dot(Xor(r[..|x|], Dot(r[|x|..], p, |x|)), x, w) == Dot(r, x + Mul(p, x, w), w)
  {
    var n := |x|;
    DotXorRow(r[..n], Dot(r[n..], p, n), x, w);
    DotAssoc(r[n..], p, x, w);
    DotSplit(r, x + Mul(p, x, w), n, w);
    assert (x + Mul(p, x, w))[..n] == x && (x + Mul(p, x, w))[n..] == Mul(p, x, w);
  }

  /** Folding keeps the value a row has against the extended symbols. */
  lemma FoldKeepsMeaning(s: Shape, r: Vec, c: Mat, w: nat)
    requires s.Valid() && |r| == s.L() && IsMat(c, s.K, w)
    ensures Dot(s.Fold(r), c, w) == Dot(r, s.Extend(c, w), w)
  {
    FoldThrough(r, s.HalfMat(), s.WithLdpc(c, w), w);
    FoldThrough(s.FoldHalf(r), s.LdpcMat(), c, w);
  }

  // ---------- which LDPC symbols a source symbol goes to

  /** `c` is `a` places after `b` on a circle of `S` places. */
  ghost predicate Around(S: nat, b: nat, a: nat, c: nat) {
    c == if b + a < S then b + a else b + a - S
  }

  /**
   Counting in rows of S places, symbol `i` starts at its place in its row, and goes on twice in steps that grow
   by one from row to row, from 1 to S - 1 and over again.
   */
  lemma LdpcPositions(s: Shape, i: nat) returns (round: nat, a: nat)
    requires s.S >= 2
    ensures 1 <= a < s.S && i == (round * (s.S - 1) + (a - 1)) * s.S + s.Hop0(i)
    ensures Around(s.S, s.Hop0(i), a, s.Hop1(i)) && Around(s.S, s.Hop1(i), a, s.Hop2(i))
  {
    var row := i / s.S;
    round, a := row / (s.S - 1), s.Step(i);
    Rows(i, s.S, row, s.Hop0(i));
    Rows(row, s.S - 1, round, a - 1);
    ModAround(s.S, s.Hop0(i), a);
    ModAround(s.S, s.Hop1(i), a);
  }

  lemma Rows(i: nat, n: nat, row: nat, place: nat)
    requires n > 0 && row == i / n && place == i % n
    ensures i == row * n + place && place < n
  {
  }

  lemma ModAround(S: nat, b: nat, a: nat)
    requires b < S && a <= S
    ensures Around(S, b, a, (b + a) % S)
  {
    DivModUnique(b + a, S, if b + a < S then 0 else 1, if b + a < S then b + a else b + a - S);
  }

  /** In the first round, the number itself gives start and step. */
  lemma LdpcFirstRound(s: Shape, i: nat)
    requires s.S >= 2 && i < s.S * (s.S - 1)
    ensures 1 <= s.Step(i) < s.S && i == (s.Step(i) - 1) * s.S + s.Hop0(i)
  {
    var row := i / s.S;
    Rows(i, s.S, row, s.Hop0(i));
    RowBelow(row, s.S, s.S - 1);
    DivModUnique(row, s.S - 1, 0, row);
  }

  lemma RowBelow(row: nat, n: nat, m: nat)
    requires n > 0 && row * n < m * n
    ensures row < m
  {
    assert (m - row) * n == m * n - row * n;
    MultipleIsLarge(m - row, n);
  }

  /** A round later the positions are the same. */
  lemma LdpcRounds(s: Shape, i: nat)
    requires s.S >= 2
    ensures var j := i + s.S * (s.S - 1); s.Hop0(j) == s.Hop0(i) && s.Hop1(j) == s.Hop1(i) && s.Hop2(j) == s.Hop2(i)
  {
    NextRound(i, s.S, s.S - 1);
  }

  lemma NextRound(i: nat, n: nat, m: nat)
    requires n > 0 && m > 0
    ensures (i + n * m) % n == i % n && ((i + n * m) / n) % m == (i / n) % m
  {
    var row := i / n;
    assert i + n * m == (row + m) * n + i % n by {
      assert (row + m) * n == row * n + m * n;
    }
    DivModUnique(i + n * m, n, row + m, i % n);
    ModShift(row + m, row, 1, m);
  }

  /** With an odd number of LDPC symbols, the three positions differ. */
  lemma ThreePositions(s: Shape, i: nat)
    requires s.S >= 3 && s.S % 2 == 1
    ensures s.Hop0(i) != s.Hop1(i) && s.Hop1(i) != s.Hop2(i) && s.Hop0(i) != s.Hop2(i)
  {
    ModAround(s.S, s.Hop0(i), s.Step(i));
    ModAround(s.S, s.Hop1(i), s.Step(i));
    TwoStepsOn(s.S, s.Hop0(i), s.Step(i), s.Hop1(i), s.Hop2(i));
  }

  lemma TwoStepsOn(S: nat, b: nat, a: nat, c: nat, d: nat)
    requires S % 2 == 1 && b < S && c < S && 1 <= a < S && Around(S, b, a, c) && Around(S, c, a, d)
    ensures b != c && c != d && b != d
  {
  }

  /** The half symbols that symbol `i` is in, read as the digits of a binary number, are its mask. */
  lemma HalfColumn(s: Shape, i: nat)
    requires s.Valid() && i < s.K + s.S
    ensures s.m[i] == Binary(seq(s.H, h requires 0 <= h < s.H => s.HalfMat()[h][i]))
    ensures Ones(s.m[i]) == |set h: nat | h < s.H && s.HalfMat()[h][i]|
  {
    var column := seq(s.H, h requires 0 <= h < s.H => s.HalfMat()[h][i]);
    forall h: nat | h < s.H
      ensures s.HalfMat()[h][i] == Bit(s.m[i], h)
    {
      assert s.HalfMat()[h] == s.HalfRow(h);
    }
    BinaryOfBits(s.m[i], column);
    OnesAreBits(s.m[i], s.H);
    assert (set h: nat | h < s.H && s.HalfMat()[h][i]) == BitsSet(s.m[i], s.H);
  }

  /** So every source symbol is in exactly three LDPC symbols. */
  lemma ColumnWeight(s: Shape, i: nat)
    requires s.Valid() && i < s.K && s.S >= 3 && s.S % 2 == 1
    ensures (set b: nat | b < s.S && s.LdpcMat()[b][i]) == {s.Hop0(i), s.Hop1(i), s.Hop2(i)}
    ensures |set b: nat | b < s.S && s.LdpcMat()[b][i]| == 3
  {
    ThreePositions(s, i);
    forall b: nat | b < s.S
      ensures s.LdpcMat()[b][i] <==> b in {s.Hop0(i), s.Hop1(i), s.Hop2(i)}
    {
      assert s.LdpcMat()[b] == s.LdpcRow(b);
    }
    assert (set b: nat | b < s.S && s.LdpcMat()[b][i]) == {s.Hop0(i), s.Hop1(i), s.Hop2(i)};
  }

  // ---------- folding in place

  /** Column `i` of the LDPC part of a row, gathered hop by hop. */
  lemma {:induction false} LdpcColumn(s: Shape, r: Vec, i: nat, n: nat)
    requires s.Valid() && |r| == s.S && i < s.K && n <= s.S
    ensures Dot(r[..n], s.LdpcMat()[..n], s.K)[i]
         == (((s.Hop0(i) < n && r[s.Hop0(i)]) != (s.Hop1(i) < n && r[s.Hop1(i)])) != (s.Hop2(i) < n && r[s.Hop2(i)]))
  {
    if n == 0 {
    } else {
      LdpcColumn(s, r, i, n - 1);
      assert r[..n][..n-1] == r[..n-1] && s.LdpcMat()[..n][..n-1] == s.LdpcMat()[..n-1];
    }
  }

  lemma FoldLdpcAt(s: Shape, r: Vec, i: nat)
    requires s.Valid() && |r| == s.K + s.S && i < s.K
    ensures s.FoldLdpc(r)[i]
         == (((r[i] != r[s.K + s.Hop0(i)]) != r[s.K + s.Hop1(i)]) != r[s.K + s.Hop2(i)])
  {
    LdpcColumn(s, r[s.K..], i, s.S);
    assert r[s.K..][..s.S] == r[s.K..] && s.LdpcMat()[..s.S] == s.LdpcMat();
  }

  /** A row with its first `h` half positions folded. */
  ghost predicate HalfFolded(s: Shape, r: Vec, f: Vec, h: nat) {
    && s.Valid() && |r| == |f| == s.L() && h <= s.H && f[s.K + s.S..] == r[s.K + s.S..]
    && f[..s.K + s.S] == Xor(r[..s.K + s.S], Dot(r[s.K + s.S..][..h], s.HalfMat()[..h], s.K + s.S))
  }

  lemma HalfFoldedStart(s: Shape, r: Vec)
    requires s.Valid() && |r| == s.L()
    ensures HalfFolded(s, r, r, 0)
  {
    var front := r[..s.K + s.S];
    XorLaws(front, front, front);
  }

  lemma HalfFoldedStep(s: Shape, r: Vec, f: Vec, h: nat, g: Vec)
    requires HalfFolded(s, r, f, h) && h < s.H && |g| == |f| && g[s.K + s.S..] == f[s.K + s.S..]
    requires g[..s.K + s.S] == if f[s.K + s.S + h] then Xor(f[..s.K + s.S], s.HalfRow(h)) else f[..s.K + s.S]
    ensures HalfFolded(s, r, g, h + 1)
  {
    var n := s.K + s.S;
    var tail, mat := r[n..], s.HalfMat();
    assert tail[..h + 1][..h] == tail[..h] && mat[..h + 1][..h] == mat[..h];
    assert tail[h] == f[n..][h] == f[n + h];
    XorLaws(r[..n], Dot(tail[..h], mat[..h], n), s.HalfRow(h));
  }

  lemma HalfFoldedEnd(s: Shape, r: Vec, f: Vec)
    requires HalfFolded(s, r, f, s.H)
    ensures f == s.FoldHalf(r) + r[s.K + s.S..]
  {
    var n := s.K + s.S;
    assert r[n..][..s.H] == r[n..] && s.HalfMat()[..s.H] == s.HalfMat();
    assert f == f[..n] + f[n..];
  }

  method FoldHalfRow(s: Shape, r: Vec) returns (f: Vec)
    requires s.Valid() && |r| == s.L()
    ensures f == s.FoldHalf(r) + r[s.K + s.S..]
  {
    f := r;
    HalfFoldedStart(s, r);
    for h := 0 to s.H
      invariant HalfFolded(s, r, f, h)
    {
      var g := f;
      if f[s.K + s.S + h] {
        g := AddHalfRow(s, f, h);
      }
      HalfFoldedStep(s, r, f, h, g);
      f := g;
    }
    HalfFoldedEnd(s, r, f);
  }

  method AddHalfRow(s: Shape, r: Vec, h: nat) returns (f: Vec)
    requires s.Valid() && |r| == s.L() && h < s.H
    ensures |f| == |r| && f[s.K + s.S..] == r[s.K + s.S..]
    ensures f[..s.K + s.S] == Xor(r[..s.K + s.S], s.HalfRow(h))
  {
    f := r;
    for i := 0 to s.K + s.S
      invariant |f| == |r|
      invariant forall t :: 0 <= t < |r| ==> f[t] == (if t < i then r[t] != Bit(s.m[t], h) else r[t])
    {
      var found := MaskHasBit(s.m[i], h);
      if found {
        f := f[i := !f[i]];
      }
    }
  }

  /** The loop's way round the three LDPC positions of symbol `i`. */
  method Hops(s: Shape, i: nat) returns (b0: nat, b1: nat, b2: nat)
    requires s.S >= 2
    ensures b0 == s.Hop0(i) && b1 == s.Hop1(i) && b2 == s.Hop2(i)
  {
    var a := 1 + (i / s.S) % (s.S - 1);
    b0 := i % s.S;
    b1 := (b0 + a) % s.S;
    b2 := (b1 + a) % s.S;
  }

  method FlipIf(r: Vec, i: nat, t: nat) returns (f: Vec)
    requires i < |r| && t < |r|
    ensures f == r[i := r[i] != r[t]]
  {
    f := if r[t] then r[i := !r[i]] else r;
  }

  method FlipThree(r: Vec, i: nat, t0: nat, t1: nat, t2: nat) returns (f: Vec)
    requires i < |r| && i < t0 < |r| && i < t1 < |r| && i < t2 < |r|
    ensures f == r[i := ((r[i] != r[t0]) != r[t1]) != r[t2]]
  {
    f := FlipIf(r, i, t0);
    f := FlipIf(f, i, t1);
    f := FlipIf(f, i, t2);
  }

  /** Adds to bit `i` the bits of the three LDPC positions it is linked to. */
  method GatherLdpc(s: Shape, r: Vec, i: nat) returns (f: Vec)
    requires s.S >= 2 && |r| == s.L() && i < s.K
    ensures f == r[i := ((r[i] != r[s.K + s.Hop0(i)]) != r[s.K + s.Hop1(i)]) != r[s.K + s.Hop2(i)]]
  {
    var b0, b1, b2 := Hops(s, i);
    f := FlipThree(r, i, s.K + b0, s.K + b1, s.K + b2);
  }

  method FoldLdpcRow(s: Shape, r: Vec) returns (f: Vec)
    requires s.Valid() && |r| == s.L()
    ensures f == s.FoldLdpc(r[..s.K + s.S]) + r[s.K..]
  {
    f := r;
    ghost var g := s.FoldLdpc(r[..s.K + s.S]);
    for i := 0 to s.K
      invariant |f| == |r|
      invariant forall t :: i <= t < |r| ==> f[t] == r[t]
      invariant forall t :: 0 <= t < i ==> f[t] == g[t]
    {
      FoldLdpcAt(s, r[..s.K + s.S], i);
      f := GatherLdpc(s, f, i);
    }
  }

  method InverseHALF(A: array<Vec>, s: Shape)
    requires s.Valid() && IsMat(A[..], A.Length, s.L())
    modifies A
    ensures forall i :: 0 <= i < A.Length ==> A[i] == s.FoldHalf(old(A[i])) + old(A[i])[s.K + s.S..]
  {
    for i := 0 to A.Length
      invariant forall t :: 0 <= t < i ==> A[t] == s.FoldHalf(old(A[t])) + old(A[t])[s.K + s.S..]
      invariant forall t :: i <= t < A.Length ==> A[t] == old(A[t])
    {
      assert |A[..][i]| == s.L();
      A[i] := FoldHalfRow(s, A[i]);
    }
  }

  method InverseLDPC(A: array<Vec>, s: Shape)
    requires s.Valid() && IsMat(A[..], A.Length, s.L())
    modifies A
    ensures forall i :: 0 <= i < A.Length ==> A[i] == s.FoldLdpc(old(A[i])[..s.K + s.S]) + old(A[i])[s.K..]
  {
    for i := 0 to A.Length
      invariant forall t :: 0 <= t < i ==> A[t] == s.FoldLdpc(old(A[t])[..s.K + s.S]) + old(A[t])[s.K..]
      invariant forall t :: i <= t < A.Length ==> A[t] == old(A[t])
    {
      assert |A[..][i]| == s.L();
      A[i] := FoldLdpcRow(s, A[i]);
    }
  }

  /** Both folds, one after the other: the first K columns are the folded rows. */
  method FoldMatrix(A: array<Vec>, s: Shape)
    requires s.Valid() && IsMat(A[..], A.Length, s.L())
    modifies A
    ensures IsMat(A[..], A.Length, s.L())
    ensures Cols(A[..], s.K) == s.FoldAll(old(A[..]))
  {
    ghost var a := A[..];
    InverseHALF(A, s);
    ghost var b := A[..];
    forall i | 0 <= i < A.Length
      ensures |b[i]| == s.L() && b[i][..s.K + s.S] == s.FoldHalf(a[i])
    {
      assert |a[i]| == s.L();
    }
    InverseLDPC(A, s);
    forall i | 0 <= i < A.Length
      ensures |A[..][i]| == s.L() && A[..][i][..s.K] == s.Fold(a[i])
    {
      assert A[i] == s.FoldLdpc(b[i][..s.K + s.S]) + b[i][s.K..];
    }
  }

  // ---------- extending in place

  /** After `n` steps LDPC symbol `b` is the sum of the symbols below `n` linked to it. */
  ghost predicate LdpcProgress(s: Shape, c: Mat, x: Mat, n: nat, w: nat) {
    && s.Valid() && IsMat(c, s.K, w) && IsMat(x, s.L(), w) && n <= s.K
    && x[..s.K] == c && x[s.K + s.S..] == ZeroMat(s.H, w)
    && forall b :: 0 <= b < s.S ==> x[s.K + b] == Dot(s.LdpcRow(b)[..n], c[..n], w)
  }

  lemma LdpcProgressStep(s: Shape, c: Mat, x: Mat, y: Mat, n: nat, w: nat)
    requires LdpcProgress(s, c, x, n, w) && n < s.K && IsMat(y, s.L(), w)
    requires forall t :: 0 <= t < s.L() ==>
      y[t] == (if s.K <= t < s.K + s.S && s.Linked(t - s.K, n) then Xor(x[t], c[n]) else x[t])
    ensures LdpcProgress(s, c, y, n + 1, w)
  {
    assert y[..s.K] == x[..s.K] && y[s.K + s.S..] == x[s.K + s.S..];
    forall b | 0 <= b < s.S ensures y[s.K + b] == Dot(s.LdpcRow(b)[..n + 1], c[..n + 1], w) {
      assert s.LdpcRow(b)[..n + 1][..n] == s.LdpcRow(b)[..n] && c[..n + 1][..n] == c[..n];
    }
  }

  function Added(x: Mat, t: nat, i: nat): (y: Mat)
    requires t < |x| && i < |x| && |x[t]| == |x[i]|
  {
    x[t := Xor(x[t], x[i])]
  }

  method AddTo(c: array<Vec>, t: nat, i: nat)
    requires t < c.Length && i < c.Length && |c[t]| == |c[i]|
    modifies c
    ensures c[..] == Added(old(c[..]), t, i)
  {
    c[t] := Xor(c[t], c[i]);
  }

  /** Symbol `i` is added to the places from `k` on that are named an odd number of times. */
  ghost predicate OddlyAdded(x: Mat, y: Mat, k: nat, b0: nat, b1: nat, b2: nat, i: nat)
    requires i < |x| == |y| && forall t :: 0 <= t < |x| ==> |x[t]| == |x[i]|
  {
    forall t :: 0 <= t < |x| ==>
      y[t] == if k <= t && (((t - k == b0) != (t - k == b1)) != (t - k == b2)) then Xor(x[t], x[i]) else x[t]
  }

  method AddThree(c: array<Vec>, k: nat, b0: nat, b1: nat, b2: nat, i: nat, ghost w: nat)
    requires IsMat(c[..], c.Length, w) && i < k && k + b0 < c.Length && k + b1 < c.Length && k + b2 < c.Length
    modifies c
    ensures IsMat(c[..], c.Length, w) && OddlyAdded(old(c[..]), c[..], k, b0, b1, b2, i)
  {
    ghost var x := c[..];
    AddTo(c, k + b0, i);
    AddTo(c, k + b1, i);
    AddTo(c, k + b2, i);
    ThreeAdditions(x, k, b0, b1, b2, i, w);
  }

  /** Adds symbol `i` to its three LDPC symbols. */
  method AddToLdpc(c: array<Vec>, s: Shape, i: nat, w: nat)
    requires s.Valid() && IsMat(c[..], s.L(), w) && i < s.K
    modifies c
    ensures IsMat(c[..], s.L(), w)
    ensures forall t :: 0 <= t < s.L() ==>
      c[..][t] == (if s.K <= t < s.K + s.S && s.Linked(t - s.K, i) then Xor(old(c[..])[t], old(c[..])[i]) else old(c[..])[t])
  {
    ghost var x := c[..];
    var b0, b1, b2 := Hops(s, i);
    AddThree(c, s.K, b0, b1, b2, i, w);
    assert OddlyAdded(x, c[..], s.K, b0, b1, b2, i);
  }

  /** Three additions to possibly coinciding places add to the places hit an odd number of times. */
  lemma ThreeAdditions(x: Mat, k: nat, b0: nat, b1: nat, b2: nat, i: nat, w: nat)
    requires IsMat(x, |x|, w) && i < k && k + b0 < |x| && k + b1 < |x| && k + b2 < |x|
    ensures var y := Added(Added(Added(x, k + b0, i), k + b1, i), k + b2, i);
      IsMat(y, |x|, w) && OddlyAdded(x, y, k, b0, b1, b2, i)
  {
    forall t | 0 <= t < |x|
      ensures Xor(Xor(x[t], x[i]), x[i]) == x[t]
    {
      XorCancel(x[t], x[i]);
    }
  }

  method ExtendLdpc(c: array<Vec>, s: Shape, w: nat)
    requires s.Valid() && IsMat(c[..], s.L(), w)
    requires c[s.K..] == ZeroMat(s.S + s.H, w)
    modifies c
    ensures c[..] == s.WithLdpc(old(c[..s.K]), w) + ZeroMat(s.H, w)
  {
    ghost var c0 := c[..s.K];
    LdpcStart(s, c[..], w);
    for i := 0 to s.K
      invariant IsMat(c[..], s.L(), w)
      invariant LdpcProgress(s, c0, c[..], i, w)
    {
      ghost var x := c[..];
      assert x[i] == x[..s.K][i];
      AddToLdpc(c, s, i, w);
      LdpcProgressStep(s, c0, x, c[..], i, w);
    }
    LdpcDone(s, c0, c[..], w);
  }

  lemma LdpcStart(s: Shape, x: Mat, w: nat)
    requires s.Valid() && IsMat(x, s.L(), w) && x[s.K..] == ZeroMat(s.S + s.H, w)
    ensures LdpcProgress(s, x[..s.K], x, 0, w)
  {
    assert x[s.K + s.S..] == x[s.K..][s.S..];
    assert x[s.K + s.S..] == ZeroMat(s.H, w);
    forall b | 0 <= b < s.S ensures x[s.K + b] == Dot(s.LdpcRow(b)[..0], x[..s.K][..0], w) {
      assert x[s.K + b] == x[s.K..][b];
    }
  }

  lemma LdpcDone(s: Shape, c: Mat, x: Mat, w: nat)
    requires LdpcProgress(s, c, x, s.K, w)
    ensures x == s.WithLdpc(c, w) + ZeroMat(s.H, w)
  {
    var mid := x[s.K..s.K + s.S];
    forall b | 0 <= b < s.S
      ensures mid[b] == Mul(s.LdpcMat(), c, w)[b]
    {
      assert mid[b] == x[s.K + b];
      assert s.LdpcRow(b)[..s.K] == s.LdpcRow(b) && c[..s.K] == c;
    }
    assert mid == Mul(s.LdpcMat(), c, w);
    ThreeParts(x, s.K, s.K + s.S);
  }

  lemma ThreeParts(x: Mat, k: nat, n: nat)
    requires k <= n <= |x|
    ensures x == x[..k] + x[k..n] + x[n..]
  {
  }

  /** After `n` symbols half symbol `h` is the sum of those below `n` whose mask has bit `h`. */
  ghost predicate HalfProgress(s: Shape, c: Mat, x: Mat, n: nat, w: nat) {
    && s.Valid() && IsMat(c, s.K + s.S, w) && IsMat(x, s.L(), w) && n <= s.K + s.S
    && x[..s.K + s.S] == c
    && forall h :: 0 <= h < s.H ==> x[s.K + s.S + h] == Dot(s.HalfRow(h)[..n], c[..n], w)
  }

  /** Adds symbol `i` to the half symbols its mask names, shifting the mask out bit by bit. */
  method AddToHalves(c: array<Vec>, s: Shape, i: nat, w: nat)
    requires s.Valid() && IsMat(c[..], s.L(), w) && i < s.K + s.S
    modifies c
    ensures forall t :: 0 <= t < c.Length ==>
      c[t] == (if t >= s.K + s.S && Bit(s.m[i], t - s.K - s.S) then Xor(old(c[t]), old(c[i])) else old(c[t]))
  {
    var n := s.K + s.S;
    var tmp, j := s.m[i], 0;
    ghost var v, x := c[i], c[..];
    while true
      invariant tmp == ShiftRight(s.m[i], j)
      invariant j > 0 ==> tmp > 0
      invariant forall t :: 0 <= t < c.Length ==>
        c[t] == (if n <= t < n + j && Bit(s.m[i], t - n) then Xor(x[t], v) else x[t])
      decreases tmp
    {
      BitShift(s.m[i], j, 0);
      if tmp % 2 == 1 {
        MaskWidth(s.m[i], s.H, j);
        c[n + j] := Xor(c[n + j], c[i]);
      }
      tmp := tmp / 2;
      j := j + 1;
      if tmp == 0 {
        ShiftedOut(s.m[i], j);
        break;
      }
    }
  }

  lemma HalfProgressStep(s: Shape, c: Mat, x: Mat, y: Mat, n: nat, w: nat)
    requires HalfProgress(s, c, x, n, w) && n < s.K + s.S && |y| == s.L()
    requires forall t :: 0 <= t < s.L() ==>
      y[t] == (if t >= s.K + s.S && Bit(s.m[n], t - s.K - s.S) then Xor(x[t], x[n]) else x[t])
    ensures HalfProgress(s, c, y, n + 1, w)
  {
    assert y[..s.K + s.S] == x[..s.K + s.S];
    assert x[n] == x[..s.K + s.S][n];
    forall h | 0 <= h < s.H ensures y[s.K + s.S + h] == Dot(s.HalfRow(h)[..n + 1], c[..n + 1], w) {
      assert s.HalfRow(h)[..n + 1][..n] == s.HalfRow(h)[..n] && c[..n + 1][..n] == c[..n];
    }
  }

  method ExtendHalf(c: array<Vec>, s: Shape, w: nat)
    requires s.Valid() && IsMat(c[..], s.L(), w)
    requires c[s.K + s.S..] == ZeroMat(s.H, w)
    modifies c
    ensures c[..] == old(c[..s.K + s.S]) + Mul(s.HalfMat(), old(c[..s.K + s.S]), w)
  {
    ghost var c0 := c[..s.K + s.S];
    forall h | 0 <= h < s.H ensures c[..][s.K + s.S + h] == Dot(s.HalfRow(h)[..0], c0[..0], w) {
      assert c[..][s.K + s.S + h] == c[s.K + s.S..][h];
    }
    for i := 0 to s.K + s.S
      invariant HalfProgress(s, c0, c[..], i, w)
    {
      ghost var x := c[..];
      AddToHalves(c, s, i, w);
      HalfProgressStep(s, c0, x, c[..], i, w);
    }
    HalfDone(s, c0, c[..], w);
  }

  lemma HalfDoneAt(s: Shape, c: Mat, x: Mat, w: nat, h: nat)
    requires HalfProgress(s, c, x, s.K + s.S, w) && h < s.H
    ensures x[s.K + s.S + h] == Mul(s.HalfMat(), c, w)[h]
  {
    var n := s.K + s.S;
    assert s.HalfRow(h)[..n] == s.HalfRow(h) && c[..n] == c;
  }

  lemma HalfDone(s: Shape, c: Mat, x: Mat, w: nat)
    requires HalfProgress(s, c, x, s.K + s.S, w)
    ensures x == c + Mul(s.HalfMat(), c, w)
  {
    var n := s.K + s.S;
    var rest := x[n..];
    forall h | 0 <= h < s.H
      ensures rest[h] == Mul(s.HalfMat(), c, w)[h]
    {
      HalfDoneAt(s, c, x, w, h);
    }
    assert rest == Mul(s.HalfMat(), c, w);
    ThreeParts(x, n, n);
  }

  /** Fills in the LDPC and half symbols behind the first K. */
  method ExtendSymbols(c: Mat, s: Shape, w: nat) returns (x: Mat)
    requires s.Valid() && IsMat(c, s.K, w)
    ensures x == s.Extend(c, w)
  {
    var a := new Vec[s.L()](i requires 0 <= i < s.L() => if i < s.K then c[i] else Zero(w));
    assert a[..s.K] == c && a[s.K..] == ZeroMat(s.S + s.H, w);
    ExtendLdpc(a, s, w);
    assert a[..s.K + s.S] == s.WithLdpc(c, w);
    assert a[s.K + s.S..] == ZeroMat(s.H, w);
    ExtendHalf(a, s, w);
    x := a[..];
  }
}
