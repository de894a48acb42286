/**
 Primes, inverses modulo a prime, and counting: what the Raptor parameter search, the LT walk
 and the half-symbol masks rest on.
 */
module NumberTheory {

  predicate Divides(m: int, n: int)
    requires m != 0
  {
    n % m == 0
  }

  /** No proper divisor: the test the parameter search makes, which also accepts one. */
  ghost predicate NoDivisor(x: int) {
    forall m :: 2 <= m < x ==> !Divides(m, x)
  }

  ghost predicate IsPrime(p: int) {
    2 <= p && NoDivisor(p)
  }

  // ---------- arithmetic modulo p

  /** A non-zero multiple of `p` is at least `p` away from zero. */
  lemma MultipleIsLarge(d: int, p: int)
    requires p > 0
    ensures d >= 1 ==> d * p >= p
    ensures d <= -1 ==> d * p <= -p
  {
    assert d * p == (d - 1) * p + p;
    assert d * p == (d + 1) * p - p;
  }

  lemma DivModUnique(n: int, p: int, q: int, r: int)
    requires p > 0 && 0 <= r < p && n == q * p + r
    ensures n / p == q && n % p == r
  {
    var q', r' := n / p, n % p;
    assert n == q' * p + r';
    assert (q - q') * p == q * p - q' * p;
    MultipleIsLarge(q - q', p);
  }

  /** Adding a multiple of `p` changes nothing modulo `p`. */
  lemma ModShift(x: int, y: int, k: int, p: int)
    requires p > 0 && x == y + k * p
    ensures x % p == y % p
  {
    var q := y / p;
    assert y == q * p + y % p;
    assert x == (q + k) * p + y % p by {
      assert (q + k) * p == q * p + k * p;
    }
    DivModUnique(x, p, q + k, y % p);
  }

  /** The multiplicative inverse of `a` modulo the prime `p`, by descent on `p % a`. */
  ghost function Inverse(a: int, p: int): (x: int)
    requires IsPrime(p) && 1 <= a < p
    ensures (a * x) % p == 1
    decreases a
  {
    if a == 1 then
      assert 1 % p == 1 by { DivModUnique(1, p, 0, 1); }
      1
    else
      assert !Divides(a, p);
      var q, r := p / a, p % a;
      var s := Inverse(r, p);
      InverseStep(a, p, q, r, s);
      -(q * s)
  }

  lemma InverseStep(a: int, p: int, q: int, r: int, s: int)
    requires p > 0 && p == q * a + r && (r * s) % p == 1
    ensures (a * -(q * s)) % p == 1
  {
    assert a * -(q * s) == r * s + (-s) * p by {
      assert (-s) * p == (-s) * (q * a) + (-s) * r;
      assert (-s) * (q * a) == a * -(q * s);
    }
    ModShift(a * -(q * s), r * s, -s, p);
  }

  // ---------- there is always a larger prime

  function Factorial(n: nat): (f: nat)
    ensures f >= 1
  {
    if n == 0 then 1 else n * Factorial(n - 1)
  }

  lemma MultipleDivides(n: int, f: int, m: int)
    requires m > 0 && f % m == 0
    ensures (n * f) % m == 0
  {
    var q := f / m;
    assert n * f == (n * q) * m by {
      assert f == q * m;
    }
    DivModUnique(n * f, m, n * q, 0);
  }

  lemma {:induction false} FactorialDivides(m: nat, n: nat)
    requires 1 <= m <= n
    ensures Factorial(n) % m == 0
    decreases n
  {
    if m == n {
      DivModUnique(Factorial(n), m, Factorial(n - 1), 0);
    } else {
      FactorialDivides(m, n - 1);
      MultipleDivides(n, Factorial(n - 1), m);
    }
  }

  lemma DividesTrans(a: int, b: int, c: int)
    requires a > 0 && b > 0 && Divides(a, b) && Divides(b, c)
    ensures Divides(a, c)
  {
    var x, y := b / a, c / b;
    assert c == (y * x) * a by {
      assert b == x * a && c == y * b;
      assert y * (x * a) == (y * x) * a;
    }
    DivModUnique(c, a, y * x, 0);
  }

  /** Every number from two up has a prime divisor. */
  lemma {:induction false} PrimeDivisor(n: int) returns (p: int)
    requires n >= 2
    ensures IsPrime(p) && p <= n && Divides(p, n)
    decreases n
  {
    if IsPrime(n) {
      p := n;
      DivModUnique(n, n, 1, 0);
    } else {
      var m :| 2 <= m < n && Divides(m, n);
      p := PrimeDivisor(m);
      DividesTrans(p, m, n);
    }
  }

  /** Between `n` and `n! + 1` there is a prime. */
  lemma PrimeAbove(n: nat) returns (p: int)
    ensures IsPrime(p) && n < p <= Factorial(n) + 1
  {
    p := PrimeDivisor(Factorial(n) + 1);
    if p <= n {
      FactorialDivides(p, n);
      var q := Factorial(n) / p;
      assert Factorial(n) + 1 == q * p + 1;
      DivModUnique(Factorial(n) + 1, p, q, 1);
      assert false;
    }
  }

  // ---------- binomial coefficients

  function Binomial(n: nat, k: int): (b: nat) {
    if k < 0 || k > n then 0
    else if n == 0 then 1
    else Binomial(n - 1, k - 1) + Binomial(n - 1, k)
  }

  lemma {:induction false} BinomialEnds(n: nat)
    ensures Binomial(n, 0) == 1 && Binomial(n, n) == 1
  {
    if n == 0 {
    } else {
      BinomialEnds(n - 1);
    }
  }

  /** Pascal's triangle and the quotient of factorials agree. */
  lemma {:induction false} BinomialFactorial(n: nat, k: nat)
    requires k <= n
    ensures Binomial(n, k) * (Factorial(k) * Factorial(n - k)) == Factorial(n)
    decreases n
  {
    if k == 0 || k == n {
      BinomialEnds(n);
      assert Factorial(0) == 1;
    } else {
      BinomialFactorial(n - 1, k - 1);
      BinomialFactorial(n - 1, k);
      var b, c, f, g := Binomial(n - 1, k - 1), Binomial(n - 1, k), Factorial(k - 1), Factorial(n - k - 1);
      assert Factorial(k) == k * f && Factorial(n - k) == (n - k) * g;
      BinomialStep(n, k, b, c, f, g, Factorial(n - 1));
    }
  }

  lemma BinomialStep(n: nat, k: nat, b: nat, c: nat, f: nat, g: nat, m: nat)
    requires k < n
    requires b * (f * ((n - k) * g)) == m && c * ((k * f) * g) == m
    ensures (b + c) * ((k * f) * ((n - k) * g)) == n * m
  {
    var u := (k * f) * ((n - k) * g);
    assert b * u == k * (b * (f * ((n - k) * g)));
    assert c * u == (n - k) * (c * ((k * f) * g));
    assert (b + c) * u == b * u + c * u;
    assert k * m + (n - k) * m == n * m;
  }

  /** Away from the edges a row of Pascal's triangle is at least as large as its index. */
  lemma {:induction false} BinomialGrows(n: nat, k: nat)
    requires 1 <= k < n
    ensures Binomial(n, k) >= n
    decreases n
  {
    BinomialEnds(n - 1);
    if k <= 1 {
    } else {
      BinomialGrows(n - 1, k - 1);
    }
    if k < n - 1 {
      BinomialGrows(n - 1, k);
    }
  }
}
