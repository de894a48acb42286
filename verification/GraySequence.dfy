/**
 The half-symbol masks: the words of a given weight in the binary reflected Gray sequence.
 */
module GraySequence {
  import opened NumberTheory

  function NatXor(a: nat, b: nat): (c: nat) {
    if a == 0 && b == 0 then 0
    else 2 * NatXor(a / 2, b / 2) + (a % 2 + b % 2) % 2
  }

  /** The i-th word of the Gray sequence. */
  function Gray(i: nat): (g: nat) {
    NatXor(i, i / 2)
  }

  function Ones(n: nat): (k: nat) {
    if n == 0 then 0 else n % 2 + Ones(n / 2)
  }

  function Pow2(n: nat): (p: nat)
    ensures p >= 1
  {
    if n == 0 then 1 else 2 * Pow2(n - 1)
  }

  function Bit(m: nat, pos: nat): bool {
    if pos == 0 then m % 2 == 1 else Bit(m / 2, pos - 1)
  }

  /** The words of weight `h` among the first `n` of the Gray sequence, in order. */
  function Words(n: nat, h: int): (ws: seq<nat>) {
    if n == 0 then []
    else Words(n - 1, h) + (if Ones(Gray(n - 1)) == h then [Gray(n - 1)] else [])
  }

  // ---------- the Gray sequence visits every word once

  lemma GrayHalves(i: nat)
    ensures Gray(i) / 2 == Gray(i / 2)
    ensures Gray(i) % 2 == (i % 2 + (i / 2) % 2) % 2
    ensures Ones(Gray(i)) == Gray(i) % 2 + Ones(Gray(i / 2))
  {
  }

  lemma GrayOfHalf(i: nat, h: nat, g: nat, b: nat)
    requires i / 2 == h && Gray(h) == g && b == (i % 2 + h % 2) % 2
    ensures Gray(i) == 2 * g + b
  {
    GrayHalves(i);
  }

  /** The sequence is the reflected one: its second half is the first one backwards, with the next bit set. */
  lemma {:induction false} GrayReflects(n: nat, i: nat)
    requires i < Pow2(n)
    ensures Gray(Pow2(n) + i) == Pow2(n) + Gray(Pow2(n) - 1 - i)
  {
    if n == 0 {
      GrayStarts();
    } else {
      GrayReflects(n - 1, i / 2);
      ReflectStep(n, Pow2(n - 1), i, Gray(Pow2(n - 1) - 1 - i / 2));
    }
  }

  lemma GrayStarts()
    ensures Gray(0) == 0 && Gray(1) == 1
  {
  }

  lemma ReflectStep(n: nat, p: nat, i: nat, g: nat)
    requires n > 0 && p == Pow2(n - 1) && i < 2 * p && g == Gray(p - 1 - i / 2) && Gray(p + i / 2) == p + g
    ensures Gray(2 * p + i) == 2 * p + Gray(2 * p - 1 - i)
  {
    ReflectedHalves(p, i);
    var b := ReflectedBit(n, p, i);
    GrayOfHalf(2 * p + i, p + i / 2, p + g, b);
    GrayOfHalf(2 * p - 1 - i, p - 1 - i / 2, g, b);
  }

  lemma ReflectedHalves(p: nat, i: nat)
    requires i < 2 * p
    ensures (2 * p + i) / 2 == p + i / 2 && (2 * p - 1 - i) / 2 == p - 1 - i / 2
  {
  }

  lemma ReflectedBit(n: nat, p: nat, i: nat) returns (b: nat)
    requires n > 0 && p == Pow2(n - 1) && i < 2 * p
    ensures b == ((2 * p + i) % 2 + (p + i / 2) % 2) % 2 == ((2 * p - 1 - i) % 2 + (p - 1 - i / 2) % 2) % 2
  {
    b := ((2 * p + i) % 2 + (p + i / 2) % 2) % 2;
    if n == 1 {
    } else {
      assert p == 2 * Pow2(n - 2);
      EvenReflectedBit(Pow2(n - 2), i);
    }
  }

  lemma EvenReflectedBit(h: nat, i: nat)
    requires i < 4 * h
    ensures ((4 * h + i) % 2 + (2 * h + i / 2) % 2) % 2 == ((4 * h - 1 - i) % 2 + (2 * h - 1 - i / 2) % 2) % 2
  {
    Parity(2 * h, i);
    Parity(h, i / 2);
  }

  lemma Parity(h: nat, x: nat)
    requires x < 2 * h
    ensures (2 * h + x) % 2 == x % 2 && (2 * h - 1 - x) % 2 == 1 - x % 2
  {
  }

  /** Bit by bit, the exclusive or is set where its arguments differ. */
  lemma {:induction false} NatXorBits(a: nat, b: nat, j: nat)
    ensures Bit(NatXor(a, b), j) <==> Bit(a, j) != Bit(b, j)
    decreases j
  {
    XorHalves(a, b);
    if j == 0 {
    } else {
      NatXorBits(a / 2, b / 2, j - 1);
    }
  }

  /** A number is its bits. */
  lemma {:induction false} BitsUnique(a: nat, b: nat)
    requires forall j: nat :: Bit(a, j) == Bit(b, j)
    ensures a == b
    decreases a + b
  {
    assert Bit(a, 0) == Bit(b, 0);
    if a + b == 0 {
    } else {
      forall j: nat
        ensures Bit(a / 2, j) == Bit(b / 2, j)
      {
        assert Bit(a, j + 1) == Bit(b, j + 1);
      }
      BitsUnique(a / 2, b / 2);
    }
  }

  lemma XorHalves(a: nat, b: nat)
    ensures NatXor(a, b) / 2 == NatXor(a / 2, b / 2) && NatXor(a, b) % 2 == (a % 2 + b % 2) % 2
  {
  }

  lemma {:induction false} GrayInjective(i: nat, j: nat)
    requires Gray(i) == Gray(j)
    ensures i == j
    decreases i + j
  {
    if i + j == 0 {
    } else {
      GrayHalves(i);
      GrayHalves(j);
      GrayInjective(i / 2, j / 2);
      SameBits(i, j);
    }
  }

  lemma SameBits(i: nat, j: nat)
    requires i / 2 == j / 2 && (i % 2 + (i / 2) % 2) % 2 == (j % 2 + (j / 2) % 2) % 2
    ensures i == j
  {
  }

  lemma {:induction false} GrayBelow(i: nat, n: nat)
    requires i < Pow2(n)
    ensures Gray(i) < Pow2(n)
    decreases n
  {
    GrayHalves(i);
    if n == 0 {
    } else {
      GrayBelow(i / 2, n - 1);
    }
  }

  lemma {:induction false} WordsMember(n: nat, h: int, x: nat)
    requires x in Words(n, h)
    ensures Ones(x) == h && exists i: nat :: i < n && x == Gray(i)
  {
    if x in Words(n - 1, h) {
      WordsMember(n - 1, h, x);
    } else {
      assert x == Gray(n - 1);
    }
  }

  lemma {:induction false} WordsDistinct(n: nat, h: int)
    ensures forall i, j :: 0 <= i < j < |Words(n, h)| ==> Words(n, h)[i] != Words(n, h)[j]
  {
    if n == 0 {
    } else {
      WordsDistinct(n - 1, h);
      var g, ws := Gray(n - 1), Words(n - 1, h);
      if g in ws {
        WordsMember(n - 1, h, g);
        var i: nat :| i < n - 1 && g == Gray(i);
        GrayInjective(i, n - 1);
        assert false;
      }
    }
  }

  // ---------- and the words of weight h below 2^n number C(n, h)

  function Hit(i: nat, h: int): nat {
    if Ones(Gray(i)) == h then 1 else 0
  }

  lemma WordsStep(n: nat, h: int)
    ensures |Words(n + 1, h)| == |Words(n, h)| + Hit(n, h)
  {
  }

  lemma OnesDouble(q: nat, b: nat)
    requires b < 2
    ensures Ones(Gray(2 * q + b)) == Ones(Gray(q)) + (b + q % 2) % 2
  {
    var i := 2 * q + b;
    assert i / 2 == q && i % 2 == b;
    GrayHalves(i);
  }

  /** Of the two words whose upper bits are the q-th word, one has a one more and one has not. */
  lemma HitDouble(q: nat, h: int)
    ensures Hit(2 * q, h) + Hit(2 * q + 1, h) == Hit(q, h) + Hit(q, h - 1)
  {
    OnesDouble(q, 0);
    OnesDouble(q, 1);
    var o := Ones(Gray(q));
    if q % 2 == 0 {
      assert Ones(Gray(2 * q)) == o && Ones(Gray(2 * q + 1)) == o + 1;
    } else {
      assert Ones(Gray(2 * q)) == o + 1 && Ones(Gray(2 * q + 1)) == o;
    }
  }

  lemma {:induction false} WordsDouble(n: nat, h: int)
    ensures |Words(2 * n, h)| == |Words(n, h)| + |Words(n, h - 1)|
  {
    if n == 0 {
    } else {
      var q := n - 1;
      WordsDouble(q, h);
      WordsStep(q, h);
      WordsStep(q, h - 1);
      WordsStep(2 * q, h);
      WordsStep(2 * q + 1, h);
      HitDouble(q, h);
    }
  }

  lemma {:induction false} WordsCount(n: nat, h: int)
    ensures |Words(Pow2(n), h)| == Binomial(n, h)
  {
    if n == 0 {
      assert Words(1, h) == Words(0, h) + (if Ones(Gray(0)) == h then [Gray(0)] else []);
      assert Gray(0) == 0;
    } else {
      WordsDouble(Pow2(n - 1), h);
      WordsCount(n - 1, h);
      WordsCount(n - 1, h - 1);
      if h > n - 1 || h < 0 {
        assert Binomial(n - 1, h) == 0;
      }
    }
  }

  lemma {:induction false} WordsPrefix(i: nat, n: nat, h: int)
    requires i <= n
    ensures Words(i, h) <= Words(n, h)
  {
    if i == n {
    } else {
      WordsPrefix(i, n - 1, h);
    }
  }

  /** What the mask table promises its users. */
  ghost predicate Masks(m: seq<nat>, n: nat, H: nat) {
    && |m| == n
    && (forall i :: 0 <= i < n ==> m[i] < Pow2(H) && Ones(m[i]) == (H + 1) / 2)
    && (forall i, j :: 0 <= i < j < n ==> m[i] != m[j])
  }

  lemma WordsAreMasks(n: nat, H: nat)
    requires n <= |Words(Pow2(H), (H + 1) / 2)|
    ensures Masks(Words(Pow2(H), (H + 1) / 2)[..n], n, H)
  {
    var ws := Words(Pow2(H), (H + 1) / 2);
    WordsDistinct(Pow2(H), (H + 1) / 2);
    forall i | 0 <= i < n ensures ws[i] < Pow2(H) && Ones(ws[i]) == (H + 1) / 2 {
      WordsMember(Pow2(H), (H + 1) / 2, ws[i]);
      var j: nat :| j < Pow2(H) && ws[i] == Gray(j);
      GrayBelow(j, H);
    }
  }

  // ---------- the operations

  method CountOnes(w: nat) returns (count: nat)
    ensures count == Ones(w)
  {
    var g := w;
    count := 0;
    while true
      invariant count + Ones(g) == Ones(w)
      decreases g
    {
      if g % 2 == 1 {
        count := count + 1;
      }
      g := g / 2;
      if g == 0 {
        break;
      }
    }
  }

  /** Whether bit `pos` is set, found by shifting the mask out. */
  method MaskHasBit(mask: nat, pos: nat) returns (found: bool)
    ensures found == Bit(mask, pos)
  {
    var count, j := mask, 0;
    found := false;
    while true
      invariant count == ShiftRight(mask, j)
      invariant found == (j > pos && Bit(mask, pos))
      invariant j > 0 ==> count > 0
      decreases count
    {
      BitShift(mask, j, 0);
      if count % 2 == 1 && j == pos {
        found := true;
      }
      count := count / 2;
      j := j + 1;
      if count == 0 {
        ShiftedOut(mask, j);
        break;
      }
    }
  }

  lemma {:induction false} ZeroHasNoBit(pos: nat)
    ensures !Bit(0, pos)
  {
    if pos == 0 {
    } else {
      ZeroHasNoBit(pos - 1);
    }
  }

  function ShiftRight(m: nat, j: nat): nat {
    if j == 0 then m else ShiftRight(m, j - 1) / 2
  }

  lemma {:induction false} BitShift(m: nat, j: nat, p: nat)
    ensures Bit(ShiftRight(m, j), p) == Bit(m, j + p)
    decreases j
  {
    if j == 0 {
    } else {
      BitShift(m, j - 1, p + 1);
    }
  }

  /** Once a mask is shifted out it has no bits left. */
  lemma ShiftedOut(m: nat, j: nat)
    requires ShiftRight(m, j) == 0
    ensures forall p: nat :: j <= p ==> !Bit(m, p)
  {
    forall p: nat | j <= p ensures !Bit(m, p) {
      BitShift(m, j, p - j);
      ZeroHasNoBit(p - j);
    }
  }

  /** Bits at or above `H` of a mask below `2^H` are clear. */
  lemma {:induction false} MaskWidth(mask: nat, H: nat, pos: nat)
    requires mask < Pow2(H) && Bit(mask, pos)
    ensures pos < H
    decreases pos
  {
    if H == 0 {
      ZeroHasNoBit(pos);
    } else if pos > 0 {
      MaskWidth(mask / 2, H - 1, pos - 1);
    }
  }

  /** The search for words of a weight, which stops because there are enough among the first `top`. */
  method FindWords(n: nat, Hp: nat, ghost top: nat) returns (m: seq<nat>)
    requires n <= |Words(top, Hp)|
    ensures m <= Words(top, Hp) && |m| == n
  {
    var i := 0;
    m := [];
    while |m| < n
      invariant i <= top && |m| <= n
      invariant m == Words(i, Hp)
      decreases top - i
    {
      WordsPrefix(i, top, Hp);
      var g := NatXor(i, i / 2);
      var count := CountOnes(g);
      if count == Hp {
        m := m + [g];
      }
      i := i + 1;
    }
    WordsPrefix(i, top, Hp);
  }

  /**
   The first `n` words of weight ceil(H/2) of the Gray sequence: n distinct masks below 2^H.
   There are C(H, ceil(H/2)) >= n of them among the first 2^H words.
   */
  method MakeGraySequence(n: nat, H: nat) returns (m: seq<nat>)
    requires n <= Binomial(H, (H + 1) / 2)
    ensures Masks(m, n, H)
    ensures m <= Words(Pow2(H), (H + 1) / 2)
  {
    WordsCount(H, (H + 1) / 2);
    m := FindWords(n, (H + 1) / 2, Pow2(H));
    WordsAreMasks(n, H);
    assert m == Words(Pow2(H), (H + 1) / 2)[..n];
  }

  // ---------- words and their digits

  /** The number with these binary digits, the lowest one first. */
  function Binary(digits: seq<bool>): nat {
    if digits == [] then 0 else (if digits[0] then 1 else 0) + 2 * Binary(digits[1..])
  }

  lemma {:induction false} BinaryOfBits(w: nat, digits: seq<bool>)
    requires w < Pow2(|digits|) && forall j: nat :: j < |digits| ==> digits[j] == Bit(w, j)
    ensures Binary(digits) == w
    decreases |digits|
  {
    if digits == [] {
    } else {
      forall j: nat | j < |digits[1..]|
        ensures digits[1..][j] == Bit(w / 2, j)
      {
        assert digits[j + 1] == Bit(w, j + 1);
      }
      assert digits[0] == Bit(w, 0);
      BinaryOfBits(w / 2, digits[1..]);
    }
  }

  ghost function BitsSet(w: nat, n: nat): set<nat> {
    set j: nat | j < n && Bit(w, j)
  }

  lemma {:induction false} OnesAreBits(w: nat, n: nat)
    requires w < Pow2(n)
    ensures |BitsSet(w, n)| == Ones(w)
    decreases n
  {
    if n == 0 {
      assert BitsSet(w, 0) == {};
    } else {
      OnesAreBits(w / 2, n - 1);
      RaisedSize(BitsSet(w / 2, n - 1));
      RaisedBits(w, n);
    }
  }

  lemma RaisedBits(w: nat, n: nat)
    requires n > 0
    ensures 0 !in Raised(BitsSet(w / 2, n - 1))
    ensures BitsSet(w, n) == Raised(BitsSet(w / 2, n - 1)) + (if w % 2 == 1 then {0} else {})
  {
    var low := BitsSet(w / 2, n - 1);
    forall j: nat
      ensures j in BitsSet(w, n) <==> j in Raised(low) || (j == 0 && w % 2 == 1)
    {
      if j == 0 {
      } else {
        assert Bit(w, j) == Bit(w / 2, j - 1) && j == Next(j - 1);
        assert j in Raised(low) <==> j - 1 in low;
      }
    }
  }

  function Next(j: nat): nat { j + 1 }

  ghost function Raised(a: set<nat>): set<nat> {
    set j | j in a :: Next(j)
  }

  lemma {:induction false} RaisedSize(a: set<nat>)
    ensures |Raised(a)| == |a|
  {
    if a == {} {
      assert Raised(a) == {};
    } else {
      var j :| j in a;
      RaisedSize(a - {j});
      assert Next(j) !in Raised(a - {j});
      assert Raised(a) == Raised(a - {j}) + {Next(j)};
    }
  }
}
