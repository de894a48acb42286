/**
 The LT walk: from `b`, in steps of `a` modulo the prime `Lp`, skipping what is not below `L`,
 visit `min(d, L)` columns.  It builds the rows of the code matrix and the encoded symbols.
 */
module LtWalk {
  import opened Basics
  import opened Gf2
  import opened NumberTheory

  /** A degree, a step and a start: one column of the table `U`. */
  datatype Triple = Triple(d: nat, a: nat, b: nat)

  ghost predicate WalkParams(L: nat, p: nat) {
    1 <= L <= p && IsPrime(p)
  }

  ghost predicate ValidTriple(u: Triple, p: nat) {
    1 <= u.d && 1 <= u.a < p && u.b < p
  }

  /** Where the walk is after `t` steps. */
  function At(u: Triple, p: nat, t: nat): (c: nat)
    requires p > 0
  {
    (u.b + t * u.a) % p
  }

  /** The columns met during the first `t` steps, in order. */
  function Visits(u: Triple, L: nat, p: nat, t: nat): (cs: seq<nat>)
    requires p > 0
  {
    if t == 0 then []
    else Visits(u, L, p, t - 1) + (if At(u, p, t - 1) < L then [At(u, p, t - 1)] else [])
  }

  function RowOf(cols: seq<nat>, L: nat): (r: Vec)
    ensures |r| == L
  {
    seq(L, j => j in cols)
  }

  /** The row of the code matrix for one triple. */
  function LtRow(u: Triple, L: nat, p: nat): (r: Vec)
    requires p > 0
    ensures |r| == L
  {
    var cs := Visits(u, L, p, p);
    RowOf(if u.d < |cs| then cs[..u.d] else cs, L)
  }

  // ---------- the walk is a bijection between times and residues

  /** When the walk is at `c`. */
  ghost function Time(u: Triple, p: nat, c: nat): (t: nat)
    requires IsPrime(p) && ValidTriple(u, p)
    ensures t < p
  {
    ((c - u.b) * Inverse(u.a, p)) % p
  }

  lemma AtTime(u: Triple, p: nat, c: nat)
    requires IsPrime(p) && ValidTriple(u, p) && c < p
    ensures At(u, p, Time(u, p, c)) == c
  {
    ReachResidue(u.a, u.b, c, Inverse(u.a, p), p);
  }

  lemma TimeAt(u: Triple, p: nat, t: nat)
    requires IsPrime(p) && ValidTriple(u, p) && t < p
    ensures Time(u, p, At(u, p, t)) == t
  {
    ReachTime(u.a, u.b, At(u, p, t), t, Inverse(u.a, p), p);
  }

  /** With `x` inverse to `a`, the time for `c` leads from `b` to `c`. */
  lemma ReachResidue(a: int, b: int, c: int, x: int, p: int)
    requires p > 0 && 0 <= c < p && (a * x) % p == 1
    ensures (b + (((c - b) * x) % p) * a) % p == c
  {
    var y, z := (c - b) * x, a * x;
    var k := Quotient(y, p);
    var m := Quotient(z, p);
    var j := TimeAlgebra(a, b, c, x, k, m, y % p, p);
    DivModUnique(b + (y % p) * a, p, j, c);
  }

  /** And the time for where `t` steps lead is `t`. */
  lemma ReachTime(a: int, b: int, c: int, t: int, x: int, p: int)
    requires p > 0 && 0 <= t < p && (a * x) % p == 1 && c == (b + t * a) % p
    ensures ((c - b) * x) % p == t
  {
    var n, z := b + t * a, a * x;
    var k := Quotient(n, p);
    var m := Quotient(z, p);
    var j := TimeAlgebraBack(a, b, c, x, k, m, t, p);
    DivModUnique((c - b) * x, p, j, t);
  }

  lemma Quotient(n: int, p: int) returns (q: int)
    requires p > 0
    ensures n == q * p + n % p
  {
    q := n / p;
  }

  lemma TimeAlgebra(a: int, b: int, c: int, x: int, k: int, m: int, t: int, p: int) returns (j: int)
    requires (c - b) * x == k * p + t && a * x == m * p + 1
    ensures b + t * a == j * p + c
  {
    j := (c - b) * m - k * a;
    assert t * a == ((c - b) * x) * a - (k * p) * a;
    assert ((c - b) * x) * a == (c - b) * (a * x);
    assert (c - b) * (m * p + 1) == ((c - b) * m) * p + (c - b);
    assert j * p == ((c - b) * m) * p - (k * a) * p;
    assert (k * p) * a == (k * a) * p;
  }

  lemma TimeAlgebraBack(a: int, b: int, c: int, x: int, k: int, m: int, t: int, p: int) returns (j: int)
    requires b + t * a == k * p + c && a * x == m * p + 1
    ensures (c - b) * x == j * p + t
  {
    j := t * m - k * x;
    assert c - b == t * a - k * p;
    assert (t * a - k * p) * x == (t * a) * x - (k * p) * x;
    assert (t * a) * x == t * (a * x);
    assert t * (m * p + 1) == (t * m) * p + t;
    assert j * p == (t * m) * p - (k * x) * p;
    assert (k * p) * x == (k * x) * p;
  }

  /** One step of the loop. */
  lemma AtNext(u: Triple, p: nat, t: nat)
    requires p > 0
    ensures (At(u, p, t) + u.a) % p == At(u, p, t + 1)
  {
    var k := (u.b + t * u.a) / p;
    assert u.b + t * u.a == k * p + At(u, p, t);
    assert u.b + (t + 1) * u.a == (At(u, p, t) + u.a) + k * p;
    ModShift(u.b + (t + 1) * u.a, At(u, p, t) + u.a, k, p);
  }

  /** The walk starts at `b`, and each step adds `a`, starting over behind the prime. */
  lemma WalkSteps(u: Triple, p: nat, t: nat)
    requires ValidTriple(u, p)
    ensures At(u, p, 0) == u.b
    ensures At(u, p, t + 1) == if At(u, p, t) + u.a < p then At(u, p, t) + u.a else At(u, p, t) + u.a - p
  {
    DivModUnique(u.b, p, 0, u.b);
    AtNext(u, p, t);
    var c := At(u, p, t) + u.a;
    DivModUnique(c, p, if c < p then 0 else 1, if c < p then c else c - p);
  }

  // ---------- so a full turn meets each column below L exactly once

  ghost predicate Distinct(s: seq<nat>) {
    forall i, j :: 0 <= i < j < |s| ==> s[i] != s[j]
  }

  lemma {:induction false} VisitsMember(u: Triple, L: nat, p: nat, t: nat, c: nat)
    requires IsPrime(p) && ValidTriple(u, p) && t <= p && c < p
    ensures c in Visits(u, L, p, t) <==> c < L && Time(u, p, c) < t
    decreases t
  {
    if t == 0 {
    } else {
      VisitsMember(u, L, p, t - 1, c);
      TimeAt(u, p, t - 1);
      AtTime(u, p, c);
    }
  }

  lemma {:induction false} VisitsBounded(u: Triple, L: nat, p: nat, t: nat)
    requires p > 0
    ensures forall c :: c in Visits(u, L, p, t) ==> c < L
    decreases t
  {
    if t == 0 {
    } else {
      VisitsBounded(u, L, p, t - 1);
    }
  }

  lemma {:induction false} VisitsDistinct(u: Triple, L: nat, p: nat, t: nat)
    requires IsPrime(p) && ValidTriple(u, p) && t <= p
    ensures Distinct(Visits(u, L, p, t))
    decreases t
  {
    if t == 0 {
    } else {
      VisitsDistinct(u, L, p, t - 1);
      VisitsMember(u, L, p, t - 1, At(u, p, t - 1));
      TimeAt(u, p, t - 1);
    }
  }

  lemma {:induction false} VisitsPrefix(u: Triple, L: nat, p: nat, s: nat, t: nat)
    requires p > 0 && s <= t
    ensures Visits(u, L, p, s) <= Visits(u, L, p, t)
    decreases t
  {
    if s == t {
    } else {
      VisitsPrefix(u, L, p, s, t - 1);
    }
  }

  ghost function Elements(s: seq<nat>): set<nat> {
    set x | x in s
  }

  ghost function Below(n: nat): (b: set<nat>)
    ensures |b| == n
    ensures forall x: nat :: x in b <==> x < n
  {
    if n == 0 then {} else Below(n - 1) + {n - 1}
  }

  lemma {:induction false} DistinctSize(s: seq<nat>)
    requires Distinct(s)
    ensures |Elements(s)| == |s|
  {
    if s == [] {
    } else {
      var n := |s| - 1;
      DistinctSize(s[..n]);
      assert Elements(s) == Elements(s[..n]) + {s[n]};
    }
  }

  /** All L columns, each once. */
  lemma FullTurn(u: Triple, L: nat, p: nat)
    requires WalkParams(L, p) && ValidTriple(u, p)
    ensures |Visits(u, L, p, p)| == L
    ensures Distinct(Visits(u, L, p, p))
  {
    var cs := Visits(u, L, p, p);
    VisitsDistinct(u, L, p, p);
    VisitsBounded(u, L, p, p);
    forall c: nat | c < L ensures c in cs {
      VisitsMember(u, L, p, p, c);
    }
    assert Elements(cs) == Below(L);
    DistinctSize(cs);
  }

  /** The columns a row selects. */
  ghost function Support(r: Vec): set<nat> {
    set j: nat | j < |r| && r[j]
  }

  lemma RowOfSupport(cs: seq<nat>, L: nat)
    requires forall c :: c in cs ==> c < L
    ensures Support(RowOf(cs, L)) == Elements(cs)
  {
  }

  /** Each row touches exactly min(d, L) distinct columns. */
  lemma RowWeight(u: Triple, L: nat, p: nat)
    requires WalkParams(L, p) && ValidTriple(u, p)
    ensures |Support(LtRow(u, L, p))| == Min(u.d, L)
  {
    FullTurn(u, L, p);
    var cs := Visits(u, L, p, p);
    VisitsBounded(u, L, p, p);
    var taken := if u.d < |cs| then cs[..u.d] else cs;
    assert forall c :: c in taken ==> c in cs;
    RowOfSupport(taken, L);
    DistinctSize(taken);
  }

  /** The columns the walk meets before `c`. */
  ghost function Before(u: Triple, L: nat, p: nat, c: nat): set<nat>
    requires IsPrime(p) && ValidTriple(u, p)
  {
    set x: nat | x < L && Time(u, p, x) < Time(u, p, c)
  }

  /** They are the first ones on the walk: a column is in the row if and only if fewer than d are met before it. */
  lemma FirstColumns(u: Triple, L: nat, p: nat, c: nat)
    requires WalkParams(L, p) && ValidTriple(u, p) && c < L
    ensures LtRow(u, L, p)[c] <==> |Before(u, L, p, c)| < u.d
  {
    var t := Time(u, p, c);
    var met, cs := Visits(u, L, p, t), Visits(u, L, p, p);
    MetBefore(u, L, p, c);
    AtTime(u, p, c);
    VisitsPrefix(u, L, p, t + 1, p);
    assert cs[|met|] == c;
    FullTurn(u, L, p);
  }

  lemma MetBefore(u: Triple, L: nat, p: nat, c: nat)
    requires WalkParams(L, p) && ValidTriple(u, p) && c < p
    ensures |Visits(u, L, p, Time(u, p, c))| == |Before(u, L, p, c)|
  {
    var t := Time(u, p, c);
    var met := Visits(u, L, p, t);
    VisitsDistinct(u, L, p, t);
    VisitsBounded(u, L, p, t);
    DistinctSize(met);
    forall x: nat | x < L
      ensures x in met <==> Time(u, p, x) < t
    {
      VisitsMember(u, L, p, t, x);
    }
    assert Elements(met) == Before(u, L, p, c);
  }

  lemma RowOfAppend(cols: seq<nat>, b: nat, L: nat)
    requires b < L && b !in cols
    ensures RowOf(cols + [b], L) == RowOf(cols, L)[b := !RowOf(cols, L)[b]]
  {
  }

  /** A walk that has met min(d, L) columns has met those of its row. */
  lemma WalkDone(u: Triple, L: nat, p: nat, t: nat)
    requires WalkParams(L, p) && ValidTriple(u, p) && t <= p
    requires |Visits(u, L, p, t)| == Min(u.d, L)
    ensures LtRow(u, L, p) == RowOf(Visits(u, L, p, t), L)
  {
    FullTurn(u, L, p);
    VisitsPrefix(u, L, p, t, p);
  }

  // ---------- the operations

  /** Skips to the next column below L; there is one as long as not all have been met. */
  method Settle(b0: nat, u: Triple, L: nat, Lp: nat, ghost t0: nat) returns (b: nat, ghost t: nat)
    requires WalkParams(L, Lp) && ValidTriple(u, Lp)
    requires t0 <= Lp && b0 == At(u, Lp, t0)
    requires |Visits(u, L, Lp, t0)| < L
    ensures t0 <= t < Lp && b == At(u, Lp, t) && b < L
    ensures b !in Visits(u, L, Lp, t0)
    ensures Visits(u, L, Lp, t + 1) == Visits(u, L, Lp, t0) + [b]
  {
    b, t := b0, t0;
    FullTurn(u, L, Lp);
    while b >= L
      invariant t0 <= t <= Lp && b == At(u, Lp, t)
      invariant Visits(u, L, Lp, t) == Visits(u, L, Lp, t0)
      decreases Lp - t
    {
      AtNext(u, Lp, t);
      b := (b + u.a) % Lp;
      t := t + 1;
    }
    VisitsMember(u, L, Lp, t, b);
    TimeAt(u, Lp, t);
  }

  /** One step on from a column, and then to the next one. */
  method StepOn(b0: nat, u: Triple, L: nat, Lp: nat, ghost t0: nat) returns (b: nat, ghost t: nat)
    requires WalkParams(L, Lp) && ValidTriple(u, Lp)
    requires t0 < Lp && b0 == At(u, Lp, t0)
    requires |Visits(u, L, Lp, t0 + 1)| < L
    ensures t0 < t < Lp && b == At(u, Lp, t) && b < L
    ensures b !in Visits(u, L, Lp, t0 + 1)
    ensures Visits(u, L, Lp, t + 1) == Visits(u, L, Lp, t0 + 1) + [b]
  {
    AtNext(u, Lp, t0);
    b, t := Settle((b0 + u.a) % Lp, u, L, Lp, t0 + 1);
  }

  /** The row of one triple, by flipping the bits the walk meets. */
  method BuildRow(u: Triple, L: nat, Lp: nat) returns (row: Vec)
    requires WalkParams(L, Lp) && ValidTriple(u, Lp)
    ensures row == LtRow(u, L, Lp)
  {
    DivModUnique(u.b, Lp, 0, u.b);
    ghost var t;
    var b;
    b, t := Settle(u.b, u, L, Lp, 0);
    RowOfAppend([], b, L);
    assert Zero(L) == RowOf([], L) && [] + [b] == [b];
    row := Zero(L)[b := !Zero(L)[b]];
    var SS := Min(u.d - 1, L - 1);
    ghost var cols := [b];
    for j := 0 to SS
      invariant 0 <= t < Lp && b == At(u, Lp, t)
      invariant cols == Visits(u, L, Lp, t + 1) && |cols| == j + 1
      invariant row == RowOf(cols, L)
    {
      b, t := StepOn(b, u, L, Lp, t);
      RowOfAppend(cols, b, L);
      row := row[b := !row[b]];
      cols := cols + [b];
    }
    WalkDone(u, L, Lp, t + 1);
  }

  /** The symbol of one triple: the sum of the intermediate symbols the walk meets. */
  method BuildSymbol(u: Triple, c: Mat, L: nat, Lp: nat, w: nat) returns (e: Vec)
    requires WalkParams(L, Lp) && ValidTriple(u, Lp) && IsMat(c, L, w)
    ensures e == Dot(LtRow(u, L, Lp), c, w)
  {
    DivModUnique(u.b, Lp, 0, u.b);
    ghost var t;
    var b;
    b, t := Settle(u.b, u, L, Lp, 0);
    e := c[b];
    SingleColumn(b, c, L, w);
    var SS := Min(u.d - 1, L - 1);
    ghost var cols := [b];
    for j := 0 to SS
      invariant 0 <= t < Lp && b == At(u, Lp, t)
      invariant cols == Visits(u, L, Lp, t + 1) && |cols| == j + 1
      invariant e == Dot(RowOf(cols, L), c, w)
    {
      b, t := StepOn(b, u, L, Lp, t);
      OneMoreColumn(cols, b, c, L, w);
      e := Xor(e, c[b]);
      cols := cols + [b];
    }
    WalkDone(u, L, Lp, t + 1);
  }

  lemma OneMoreColumn(cols: seq<nat>, b: nat, c: Mat, L: nat, w: nat)
    requires b < L && b !in cols && IsMat(c, L, w)
    ensures Dot(RowOf(cols + [b], L), c, w) == Xor(Dot(RowOf(cols, L), c, w), c[b])
  {
    DotToggle(RowOf(cols, L), b, c, w);
    RowOfAppend(cols, b, L);
  }

  lemma SingleColumn(b: nat, c: Mat, L: nat, w: nat)
    requires b < L && IsMat(c, L, w)
    ensures Dot(RowOf([b], L), c, w) == c[b]
  {
    assert RowOf([b], L) == Unit(L, b);
    DotUnit(L, b, c, w);
  }

  /** One row per received symbol. */
  method FindMatrixAUsingSymbols(U: seq<Triple>, esis: seq<nat>, L: nat, Lp: nat) returns (A: array<Vec>)
    requires WalkParams(L, Lp) && forall i :: 0 <= i < |U| ==> ValidTriple(U[i], Lp)
    requires forall i :: 0 <= i < |esis| ==> esis[i] < |U|
    ensures fresh(A) && A.Length == |esis|
    ensures forall i :: 0 <= i < |esis| ==> A[i] == LtRow(U[esis[i]], L, Lp)
  {
    A := new Vec[|esis|];
    for i := 0 to |esis|
      invariant forall k :: 0 <= k < i ==> A[k] == LtRow(U[esis[k]], L, Lp)
    {
      A[i] := BuildRow(U[esis[i]], L, Lp);
    }
  }

  /** One row for each of the first K symbols. */
  method FindMatrixA(U: seq<Triple>, K: nat, L: nat, Lp: nat) returns (A: array<Vec>)
    requires WalkParams(L, Lp) && forall i :: 0 <= i < |U| ==> ValidTriple(U[i], Lp)
    requires K <= |U|
    ensures fresh(A) && A.Length == K
    ensures forall i :: 0 <= i < K ==> A[i] == LtRow(U[i], L, Lp)
  {
    A := new Vec[K];
    for i := 0 to K
      invariant forall k :: 0 <= k < i ==> A[k] == LtRow(U[k], L, Lp)
    {
      A[i] := BuildRow(U[i], L, Lp);
    }
  }

  /** Symbol i is what row i of the code matrix makes of the intermediate symbols. */
  ghost predicate AllCoded(U: seq<Triple>, c: Mat, n: nat, L: nat, p: nat, w: nat, e: Mat) {
    && n <= |U| && p > 0 && IsMat(c, L, w) && IsMat(e, n, w)
    && (forall i :: 0 <= i < n ==> e[i] == Dot(LtRow(U[i], L, p), c, w))
  }

  lemma AllCodedMore(U: seq<Triple>, c: Mat, n: nat, L: nat, p: nat, w: nat, e: Mat, s: Vec)
    requires AllCoded(U, c, n, L, p, w, e) && n < |U| && s == Dot(LtRow(U[n], L, p), c, w)
    ensures AllCoded(U, c, n + 1, L, p, w, e + [s])
  {
  }

  /** The first `n` encoded symbols. */
  method LTCode(U: seq<Triple>, c: Mat, n: nat, L: nat, Lp: nat, w: nat) returns (e: Mat)
    requires WalkParams(L, Lp) && forall i :: 0 <= i < |U| ==> ValidTriple(U[i], Lp)
    requires n <= |U| && IsMat(c, L, w)
    ensures AllCoded(U, c, n, L, Lp, w, e)
  {
    e := [];
    for i := 0 to n
      invariant AllCoded(U, c, i, L, Lp, w, e)
    {
      var s := BuildSymbol(U[i], c, L, Lp, w);
      AllCodedMore(U, c, i, L, Lp, w, e, s);
      e := e + [s];
    }
  }
}
