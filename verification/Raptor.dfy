/**
 The Raptor code: parameter derivation, systematic encoder and decoder (RFC 5053, section 5).
 */
module Raptor {
  import opened Basics
  import opened Gf2
  import opened NumberTheory
  import opened GraySequence
  import opened LtWalk
  import opened Precode
  import Elimination

  // ---------- parameters

  ghost predicate SmallestPrimeFrom(p: int, from: int) {
    IsPrime(p) && from <= p && forall q :: from <= q < p ==> !IsPrime(q)
  }

  method Isp(x: nat) returns (r: bool)
    ensures r <==> NoDivisor(x)
  {
    var i := 2;
    while i < x
      invariant 2 <= i
      invariant forall m :: 2 <= m < i && m < x ==> !Divides(m, x)
    {
      if Divides(i, x) {
        return false;
      }
      i := i + 1;
    }
    return true;
  }

  method SearchPrime(from: nat) returns (p: nat)
    requires from >= 1
    ensures from >= 2 ==> SmallestPrimeFrom(p, from)
    ensures from == 1 ==> p == 1
  {
    p := from;
    ghost var bound := PrimeAbove(from);
    var found := Isp(p);
    while !found
      invariant from <= p <= bound
      invariant found <==> NoDivisor(p)
      invariant forall q :: from <= q < p ==> !NoDivisor(q)
      decreases bound - p
    {
      p := p + 1;
      found := Isp(p);
    }
  }

  method Factor(n: nat) returns (v: nat)
    ensures v == Factorial(n)
  {
    v := 1;
    for i := 1 to n + 1
      invariant v == Factorial(i - 1)
    {
      v := v * i;
    }
  }

  function Middle(H: nat): nat {
    Binomial(H, (H + 1) / 2)
  }

  lemma MiddleQuotient(H: nat)
    ensures Factorial(H) as real / (Factorial((H + 1) / 2) * Factorial(H - (H + 1) / 2)) as real == Middle(H) as real
  {
    BinomialFactorial(H, (H + 1) / 2);
    var d := Factorial((H + 1) / 2) * Factorial(H - (H + 1) / 2);
    assert d >= 1 by {
      MultipleIsLarge(Factorial((H + 1) / 2), Factorial(H - (H + 1) / 2));
    }
    QuotientOfProduct(Middle(H), d, Factorial(H));
  }

  lemma QuotientOfProduct(q: nat, d: nat, n: nat)
    requires d >= 1 && q * d == n
    ensures n as real / d as real == q as real
  {
    assert n as real == q as real * d as real;
  }

  /** The smallest H whose middle binomial coefficient reaches `n`. */
  method SearchHalf(n: nat) returns (H: nat)
    ensures 1 <= H && n <= Middle(H)
    ensures forall h :: 1 <= h < H ==> Middle(h) < n
  {
    H := 1;
    while true
      invariant 1 <= H <= n + 2
      invariant forall h :: 1 <= h < H ==> Middle(h) < n
      decreases n + 2 - H
    {
      var f := Factor(H);
      var g := Factor((H + 1) / 2);
      var h := Factor(H - (H + 1) / 2);
      MiddleQuotient(H);
      assert g * h >= 1 by { MultipleIsLarge(g, h); }
      if !(f as real / (g * h) as real < n as real) {
        return;
      }
      if H >= 2 {
        BinomialGrows(H, (H + 1) / 2);
      }
      H := H + 1;
    }
  }

  /** The smallest X with X*(X-1) >= 2*K. */
  method SearchX(K: nat) returns (X: nat)
    ensures 1 <= X && 2 * K <= X * (X - 1)
    ensures forall x :: 1 <= x < X ==> Triangle(x) < 2 * K
  {
    X := 1;
    while X * (X - 1) < 2 * K
      invariant 1 <= X <= 2 * K + 1
      invariant forall x :: 1 <= x < X ==> Triangle(x) < 2 * K
      decreases 2 * K + 1 - X
    {
      assert Triangle(X) < 2 * K;
      if X >= 2 {
        MultipleIsLarge(X - 1, X);
      }
      X := X + 1;
    }
  }

  function Triangle(x: int): int {
    x * (x - 1)
  }

  /** The tables of pseudo-random numbers and systematic indices. */
  datatype Tables = Tables(V0: seq<nat>, V1: seq<nat>, J: seq<nat>) {
    predicate Covers(K: nat) {
      |V0| == 256 && |V1| == 256 && K < |J|
    }
  }

  const DEGREES: seq<nat> := [1, 2, 3, 4, 10, 11, 40]
  const THRESHOLDS: seq<nat> := [10241, 491582, 712794, 831695, 948446, 1032189, 1048576]

  /** `d` is the degree whose interval of the table holds `v`. */
  ghost predicate IsDegree(v: nat, d: nat) {
    exists j :: 0 <= j < 7 && d == DEGREES[j] && v < THRESHOLDS[j] && (j > 0 ==> THRESHOLDS[j - 1] <= v)
  }

  method Rg(v: nat) returns (d: nat)
    requires v < 1048576
    ensures IsDegree(v, d)
  {
    var j := 0;
    while v >= THRESHOLDS[j]
      invariant 0 <= j < 7
      invariant j > 0 ==> THRESHOLDS[j - 1] <= v
      decreases 7 - j
    {
      j := j + 1;
    }
    d := DEGREES[j];
  }

  /** `w` has exactly the bits in which `a` and `b` differ. */
  ghost predicate IsXor(w: nat, a: nat, b: nat) {
    forall j: nat {:trigger Bit(w, j)} :: Bit(w, j) <==> Bit(a, j) != Bit(b, j)
  }

  /** `r` is what is left, modulo `m`, of the word in which the two table entries for `X` and `i` differ. */
  ghost predicate IsDraw(t: Tables, X: nat, i: nat, m: nat, r: nat)
    requires m > 0 && |t.V0| == 256 && |t.V1| == 256
  {
    exists w: nat, q: nat {:trigger Divided(w, m, q, r)} ::
      IsXor(w, t.V0[(X + i) % 256], t.V1[(X / 256 + i) % 256]) && Divided(w, m, q, r)
  }

  ghost predicate Divided(w: int, m: nat, q: int, r: nat) {
    w == q * m + r && r < m
  }

  function Rd(t: Tables, X: nat, i: nat, m: nat): (r: nat)
    requires m > 0 && |t.V0| == 256 && |t.V1| == 256
    ensures r < m && IsDraw(t, X, i, m, r)
  {
    var v0, v1 := t.V0[(X + i) % 256], t.V1[(X / 256 + i) % 256];
    var w := NatXor(v0, v1);
    XorIsXor(v0, v1);
    assert Divided(w, m, w / m, w % m);
    w % m
  }

  lemma XorIsXor(a: nat, b: nat)
    ensures IsXor(NatXor(a, b), a, b)
  {
    forall j: nat
      ensures Bit(NatXor(a, b), j) <==> Bit(a, j) != Bit(b, j)
    {
      NatXorBits(a, b, j);
    }
  }

  /** `y` is the seed of symbol `i`: a linear function of `i`, modulo 65521. */
  ghost predicate IsSeed(t: Tables, K: nat, i: nat, y: nat)
    requires t.Covers(K)
  {
    exists q: int {:trigger Divided(Line(t.J[K], i), 65521, q, y)} :: Divided(Line(t.J[K], i), 65521, q, y)
  }

  ghost function Line(j: nat, i: nat): int {
    10267 * (j + 1) + i * (53591 + j * 997)
  }

  /** `u` is the triple of symbol `i` (the generator of section 5.4.4.4 of RFC 5053). */
  ghost predicate IsTriple(t: Tables, K: nat, Lp: nat, i: nat, u: Triple)
    requires t.Covers(K) && Lp >= 2
  {
    exists y: nat, v: nat {:trigger IsDraw(t, y, 0, 1048576, v)} ::
      && IsSeed(t, K, i, y) && IsDraw(t, y, 0, 1048576, v) && IsDegree(v, u.d)
      && u.a >= 1 && IsDraw(t, y, 1, Lp - 1, u.a - 1) && IsDraw(t, y, 2, Lp, u.b)
  }

  lemma DrawUnique(t: Tables, X: nat, i: nat, m: nat, r: nat, r': nat)
    requires m > 0 && |t.V0| == 256 && |t.V1| == 256 && IsDraw(t, X, i, m, r) && IsDraw(t, X, i, m, r')
    ensures r == r'
  {
    var v0, v1 := t.V0[(X + i) % 256], t.V1[(X / 256 + i) % 256];
    var w: nat, q: nat :| IsXor(w, v0, v1) && Divided(w, m, q, r);
    var w': nat, q': nat :| IsXor(w', v0, v1) && Divided(w', m, q', r');
    forall j: nat
      ensures Bit(w, j) == Bit(w', j)
    {
      assert Bit(w, j) <==> Bit(v0, j) != Bit(v1, j);
    }
    BitsUnique(w, w');
    DivModUnique(w, m, q, r);
    DivModUnique(w, m, q', r');
  }

  lemma DegreeUnique(v: nat, d: nat, d': nat)
    requires IsDegree(v, d) && IsDegree(v, d')
    ensures d == d'
  {
  }

  /** The generator leaves no choice. */
  lemma TripleUnique(t: Tables, K: nat, Lp: nat, i: nat, u: Triple, u': Triple)
    requires t.Covers(K) && Lp >= 2 && IsTriple(t, K, Lp, i, u) && IsTriple(t, K, Lp, i, u')
    ensures u == u'
  {
    var y: nat, v: nat :|
      && IsSeed(t, K, i, y) && IsDraw(t, y, 0, 1048576, v) && IsDegree(v, u.d)
      && u.a >= 1 && IsDraw(t, y, 1, Lp - 1, u.a - 1) && IsDraw(t, y, 2, Lp, u.b);
    var y': nat, v': nat :|
      && IsSeed(t, K, i, y') && IsDraw(t, y', 0, 1048576, v') && IsDegree(v', u'.d)
      && u'.a >= 1 && IsDraw(t, y', 1, Lp - 1, u'.a - 1) && IsDraw(t, y', 2, Lp, u'.b);
    SeedUnique(t, K, i, y, y');
    DrawUnique(t, y, 0, 1048576, v, v');
    DegreeUnique(v, u.d, u'.d);
    DrawUnique(t, y, 1, Lp - 1, u.a - 1, u'.a - 1);
    DrawUnique(t, y, 2, Lp, u.b, u'.b);
  }

  lemma SeedUnique(t: Tables, K: nat, i: nat, y: nat, y': nat)
    requires t.Covers(K) && IsSeed(t, K, i, y) && IsSeed(t, K, i, y')
    ensures y == y'
  {
    var n := Line(t.J[K], i);
    var q: int :| Divided(n, 65521, q, y);
    var q': int :| Divided(n, 65521, q', y');
    DivModUnique(n, 65521, q, y);
    DivModUnique(n, 65521, q', y');
  }

  lemma SeedIsSeed(j: nat, i: nat, A: nat, B: nat) returns (q: int)
    requires A == (53591 + j * 997) % 65521 && B == (10267 * (j + 1)) % 65521
    ensures Divided(Line(j, i), 65521, q, (B + i * A) % 65521)
  {
    var a, b, c := (53591 + j * 997) / 65521, (10267 * (j + 1)) / 65521, (B + i * A) / 65521;
    q := b + i * a + c;
    assert i * (53591 + j * 997) == i * (65521 * a) + i * A by {
      assert 53591 + j * 997 == 65521 * a + A;
    }
    assert i * (65521 * a) == 65521 * (i * a);
  }

  method MakeTriple(t: Tables, K: nat, Lp: nat, i: nat) returns (u: Triple)
    requires t.Covers(K) && Lp >= 2
    ensures IsTriple(t, K, Lp, i, u) && ValidTriple(u, Lp)
  {
    var Q := 65521;
    var Jk := t.J[K];
    var A := (53591 + Jk * 997) % Q;
    var B := (10267 * (Jk + 1)) % Q;
    var Y := (B + i * A) % Q;
    var V := Rd(t, Y, 0, 1048576);
    var d := Rg(V);
    u := Triple(d, 1 + Rd(t, Y, 1, Lp - 1), Rd(t, Y, 2, Lp));
    ghost var q := SeedIsSeed(Jk, i, A, B);
    assert IsSeed(t, K, i, Y) && IsDraw(t, Y, 0, 1048576, V);
  }

  method TripleCalculate(t: Tables, K: nat, Lp: nat, M: nat) returns (U: seq<Triple>)
    requires t.Covers(K) && Lp >= 2
    ensures |U| == M && forall i :: 0 <= i < M ==> IsTriple(t, K, Lp, i, U[i]) && ValidTriple(U[i], Lp)
  {
    U := [];
    for i := 0 to M
      invariant |U| == i
      invariant forall k :: 0 <= k < i ==> IsTriple(t, K, Lp, k, U[k]) && ValidTriple(U[k], Lp)
    {
      var u := MakeTriple(t, K, Lp, i);
      U := U + [u];
    }
  }

  /** What a successful initialization hands to the encoder and the decoder. */
  datatype Params = Params(N: nat, M: nat, shape: Shape, Lp: nat, U: seq<Triple>, AI: Mat) {
    function K(): nat { shape.K }

    ghost predicate Wellformed() {
      && shape.Valid() && WalkParams(shape.L(), Lp)
      && |U| == M && K() <= M && K() <= N
      && forall i :: 0 <= i < M ==> ValidTriple(U[i], Lp)
    }

    function CodeRow(esi: nat): (r: Vec)
      requires esi < |U| && Lp > 0
      ensures |r| == shape.L()
    {
      LtRow(U[esi], shape.L(), Lp)
    }

    function CodeRows(esis: seq<nat>): (a: Mat)
      requires Lp > 0 && forall i :: 0 <= i < |esis| ==> esis[i] < |U|
      ensures IsMat(a, |esis|, shape.L())
      ensures forall i :: 0 <= i < |esis| ==> a[i] == CodeRow(esis[i])
    {
      seq(|esis|, i requires 0 <= i < |esis| => CodeRow(esis[i]))
    }

    /** The folded matrix of the listed symbols, one row each. */
    function Received(esis: seq<nat>): (a: Mat)
      requires shape.Valid() && Lp > 0 && forall i :: 0 <= i < |esis| ==> esis[i] < |U|
      ensures IsMat(a, |esis|, K())
    {
      shape.FoldAll(CodeRows(esis))
    }

    ghost predicate Valid() {
      && Wellformed()
      && IsMat(AI, K(), K())
      && Mul(AI, Received(Upto(K())), K()) == Identity(K())
      && Mul(Received(Upto(K())), AI, K()) == Identity(K())
    }

    /** The intermediate symbols of a source block. */
    function Intermediate(data: Mat, w: nat): (c: Mat)
      requires shape.Valid() && IsMat(AI, K(), K()) && IsMat(data, K(), w)
      ensures IsMat(c, shape.L(), w)
    {
      shape.Extend(Mul(AI, data, w), w)
    }

    /** The encoded symbol with identifier `esi` of a source block. */
    function Encoded(data: Mat, esi: nat, w: nat): (e: Vec)
      requires shape.Valid() && Lp > 0 && IsMat(AI, K(), K()) && IsMat(data, K(), w) && esi < |U|
      ensures |e| == w
    {
      Dot(CodeRow(esi), Intermediate(data, w), w)
    }
  }

  function Upto(n: nat): (s: seq<nat>)
    ensures |s| == n && forall i :: 0 <= i < n ==> s[i] == i
  {
    seq(n, i requires 0 <= i < n => i)
  }

  /** S, H and L' as section 5.4.2.3 of RFC 5053 defines them. */
  ghost predicate StandardShape(K: nat, S: nat, H: nat, Lp: nat) {
    && (exists X: nat :: 1 <= X && 2 * K <= Triangle(X) && (forall x :: 1 <= x < X ==> Triangle(x) < 2 * K)
                      && SmallestPrimeFrom(S, (K + 99) / 100 + X))
    && 1 <= H && K + S <= Middle(H) && (forall h :: 1 <= h < H ==> Middle(h) < K + S)
    && SmallestPrimeFrom(Lp, K + S + H)
  }

  /** The sizes S, H and Lp, and the mask table. */
  method DeriveShape(K: nat) returns (s: Shape, Lp: nat)
    ensures s.K == K && s.Valid() && WalkParams(s.L(), Lp)
    ensures Masks(s.m, K + s.S, s.H)
    ensures K >= 1 ==> StandardShape(K, s.S, s.H, Lp)
  {
    var X := SearchX(K);
    var S := 1;
    while S < (K + 99) / 100 + X
      invariant 1 <= S <= (K + 99) / 100 + X
    {
      S := S + 1;
    }
    if K >= 1 {
      assert X >= 2 && S >= 2;
      assert Triangle(X) == X * (X - 1);
    }
    S := SearchPrime(S);
    var H := SearchHalf(K + S);
    Lp := SearchPrime(K + S + H);
    var m := MakeGraySequence(K + S, H);
    s := Shape(K, S, H, m);
  }

  /** There are at least three LDPC symbols, and their number is odd. */
  lemma StandardOdd(K: nat, S: nat, H: nat, Lp: nat)
    requires K >= 1 && StandardShape(K, S, H, Lp)
    ensures S >= 3 && S % 2 == 1
  {
    var X: nat :| 1 <= X && 2 * K <= Triangle(X) && SmallestPrimeFrom(S, (K + 99) / 100 + X);
    OddFrom(K, X, S);
  }

  lemma OddFrom(K: nat, X: nat, S: nat)
    requires K >= 1 && X >= 1 && 2 * K <= Triangle(X) && SmallestPrimeFrom(S, (K + 99) / 100 + X)
    ensures S >= 3 && S % 2 == 1
  {
    PositiveTriangle(X);
    PrimeOdd(S);
  }

  lemma PositiveTriangle(x: nat)
    requires 1 <= x && Triangle(x) > 0
    ensures x >= 2
  {
  }

  lemma PrimeOdd(p: nat)
    requires IsPrime(p) && p >= 3
    ensures p % 2 == 1
  {
    assert !Divides(2, p);
  }

  /** So every source symbol goes into exactly three LDPC symbols. */
  lemma StandardColumns(s: Shape, Lp: nat, i: nat)
    requires s.Valid() && i < s.K && StandardShape(s.K, s.S, s.H, Lp)
    ensures |set b: nat | b < s.S && s.LdpcMat()[b][i]| == 3
  {
    StandardOdd(s.K, s.S, s.H, Lp);
    ColumnWeight(s, i);
  }

  /** To the nearest integer, a half upwards. */
  function Round(x: real): (r: int)
    ensures r as real - 0.5 <= x < r as real + 0.5
  {
    (x + 0.5).Floor
  }

  lemma RoundUp(K: nat, r: real)
    requires r >= 0.0
    ensures Round((1.0 + r) * K as real) >= K
  {
    assert (1.0 + r) * K as real == K as real + r * K as real;
    assert r * K as real >= 0.0;
  }

  lemma RoundOrder(K: nat, a: real, b: real)
    requires a <= b
    ensures Round((1.0 + a) * K as real) <= Round((1.0 + b) * K as real)
  {
    assert (1.0 + b) * K as real - (1.0 + a) * K as real == (b - a) * K as real;
    assert (b - a) * K as real >= 0.0;
  }

  /**
   Sets up the code for blocks of K symbols: the parameters `p`, and with the inverse matrix if there
   is one.  It fails exactly when the folded matrix of the first K symbols is singular.
   */
  method RaptorInitialization(t: Tables, K: nat, minCR: real, CR: real)
    returns (r: Option<Params>, p: Params)
    requires t.Covers(K) && minCR >= 0.0 && CR >= 0.0
    ensures p.Wellformed() && p.K() == K && Masks(p.shape.m, K + p.shape.S, p.shape.H)
    ensures p.N as real - 0.5 <= (1.0 + minCR) * K as real < p.N as real + 0.5
    ensures p.M as real - 0.5 <= (1.0 + CR) * K as real < p.M as real + 0.5
    ensures minCR <= CR ==> p.N <= p.M
    ensures K >= 1 ==> StandardShape(K, p.shape.S, p.shape.H, p.Lp)
    ensures forall i :: 0 <= i < p.M ==> IsTriple(t, K, p.Lp, i, p.U[i])
    ensures r.None? <==> Dependent(p.Received(Upto(K)), K)
    ensures r.Some? ==> r.value.Valid() && r.value == p.(AI := r.value.AI)
  {
    var s, Lp := DeriveShape(K);
    var N := Round((1.0 + minCR) * K as real);
    var M := Round((1.0 + CR) * K as real);
    RoundUp(K, minCR);
    RoundUp(K, CR);
    if minCR <= CR {
      RoundOrder(K, minCR, CR);
    }
    var U := TripleCalculate(t, K, Lp, M);
    p := Params(N, M, s, Lp, U, []);
    var A := FindMatrixA(U, K, s.L(), Lp);
    assert A[..] == p.CodeRows(Upto(K));
    FoldMatrix(A, s);
    var AI := Elimination.FindInverseMatrix(A[..], K);
    if AI.None? {
      return None, p;
    }
    r := Some(Params(N, M, s, Lp, U, AI.value));
    assert r.value.CodeRows(Upto(K)) == p.CodeRows(Upto(K));
  }

  // ---------- what the encoder computes

  /** A code row sees the intermediate symbols exactly as its folded row sees the first K. */
  lemma ReceivedMeaning(p: Params, data: Mat, esis: seq<nat>, w: nat)
    requires p.Valid() && IsMat(data, p.K(), w)
    requires forall i :: 0 <= i < |esis| ==> esis[i] < p.M
    ensures forall i :: 0 <= i < |esis| ==>
      Mul(p.Received(esis), Mul(p.AI, data, w), w)[i] == p.Encoded(data, esis[i], w)
  {
    forall i | 0 <= i < |esis|
      ensures Mul(p.Received(esis), Mul(p.AI, data, w), w)[i] == p.Encoded(data, esis[i], w)
    {
      FoldKeepsMeaning(p.shape, p.CodeRow(esis[i]), Mul(p.AI, data, w), w);
    }
  }

  /** The code is systematic: the first K encoded symbols are the source symbols. */
  lemma Systematic(p: Params, data: Mat, w: nat)
    requires p.Valid() && IsMat(data, p.K(), w)
    ensures forall i :: 0 <= i < p.K() ==> p.Encoded(data, i, w) == data[i]
  {
    var rows := p.Received(Upto(p.K()));
    ReceivedMeaning(p, data, Upto(p.K()), w);
    MulAssoc(rows, p.AI, data, w);
    MulIdentity(data, w);
    forall i | 0 <= i < p.K() ensures p.Encoded(data, i, w) == data[i] {
      assert Mul(rows, Mul(p.AI, data, w), w)[i] == p.Encoded(data, Upto(p.K())[i], w);
    }
  }

  /** The first K intermediate symbols: each the sum of the source symbols its row of AI marks. */
  method SourceToIntermediate(AI: Mat, data: Mat, K: nat, w: nat) returns (c: Mat)
    requires IsMat(AI, K, K) && IsMat(data, K, w)
    ensures c == Mul(AI, data, w)
  {
    c := [];
    for j := 0 to K
      invariant |c| == j && forall t :: 0 <= t < j ==> c[t] == Dot(AI[t], data, w)
    {
      var s := Zero(w);
      for i := 0 to K
        invariant s == Dot(AI[j][..i], data[..i], w)
      {
        assert AI[j][..i + 1][..i] == AI[j][..i] && data[..i + 1][..i] == data[..i];
        if AI[j][i] {
          s := Xor(s, data[i]);
        }
      }
      assert AI[j][..K] == AI[j] && data[..K] == data;
      c := c + [s];
    }
  }

  method RaptorEncoder2(p: Params, data: Mat, n: nat, w: nat) returns (e: Mat)
    requires p.Valid() && IsMat(data, p.K(), w) && n <= p.M
    ensures IsMat(e, n, w)
    ensures forall i :: 0 <= i < n ==> e[i] == p.Encoded(data, i, w)
    ensures forall i :: 0 <= i < n && i < p.K() ==> e[i] == data[i]
  {
    var c := SourceToIntermediate(p.AI, data, p.K(), w);
    var x := ExtendSymbols(c, p.shape, w);
    e := LTCode(p.U, x, n, p.shape.L(), p.Lp, w);
    Systematic(p, data, w);
  }

  /**
   Decodes any N symbols from their identifiers.  It gives up exactly when the columns of
   their folded matrix are dependent; otherwise, if they are the encoding of some source block,
   the result is that block.
   */
  method RaptorDecoder(p: Params, e: Mat, esis: seq<nat>, w: nat) returns (r: Option<Mat>)
    requires p.Valid() && |esis| == p.N && IsMat(e, p.N, w)
    requires forall i :: 0 <= i < |esis| ==> esis[i] < p.M
    ensures r.None? <==> Dependent(p.Received(esis), p.K())
    ensures r.Some? ==> forall data: Mat ::
      IsMat(data, p.K(), w) && (forall i :: 0 <= i < p.N ==> e[i] == p.Encoded(data, esis[i], w))
      ==> r.value == data
  {
    var A := FindMatrixAUsingSymbols(p.U, esis, p.shape.L(), p.Lp);
    assert A[..] == p.CodeRows(esis);
    FoldMatrix(A, p.shape);
    var c := Elimination.IntermediateKSymbols(A, e, p.K(), w);
    if c.None? {
      return None;
    }
    var x := ExtendSymbols(c.value, p.shape, w);
    var d := LTCode(p.U, x, p.K(), p.shape.L(), p.Lp, w);
    forall data: Mat |
      IsMat(data, p.K(), w) && (forall i :: 0 <= i < p.N ==> e[i] == p.Encoded(data, esis[i], w))
      ensures d == data
    {
      ReceivedMeaning(p, data, esis, w);
      assert Mul(p.Received(esis), Mul(p.AI, data, w), w) == e;
      assert c.value == Mul(p.AI, data, w);
      Systematic(p, data, w);
      assert forall i :: 0 <= i < p.K() ==> d[i] == p.Encoded(data, i, w);
    }
    r := Some(d);
  }

  /** The symbols with these identifiers. */
  method Keep(e: Mat, esis: seq<nat>, w: nat) returns (got: Mat)
    requires IsMat(e, |e|, w) && forall i :: 0 <= i < |esis| ==> esis[i] < |e|
    ensures IsMat(got, |esis|, w) && forall k :: 0 <= k < |esis| ==> got[k] == e[esis[k]]
  {
    got := [];
    for i := 0 to |esis|
      invariant IsMat(got, i, w) && forall k :: 0 <= k < i ==> got[k] == e[esis[k]]
    {
      got := got + [e[esis[i]]];
    }
  }

  /** Encode, keep any N of the symbols, decode: the block comes back unless the rank is too low. */
  method RoundTrip(p: Params, data: Mat, esis: seq<nat>, w: nat) returns (r: Option<Mat>)
    requires p.Valid() && IsMat(data, p.K(), w) && |esis| == p.N
    requires forall i :: 0 <= i < |esis| ==> esis[i] < p.M
    ensures r == if Dependent(p.Received(esis), p.K()) then None else Some(data)
  {
    var e := RaptorEncoder2(p, data, p.M, w);
    var got := Keep(e, esis, w);
    r := RaptorDecoder(p, got, esis, w);
  }
}
