/** Non-negative integers as bit strings: powers of two, exclusive or, and the
    reflected Gray code that the FIFO pointers travel in. */
module Bits {

  function Pow2(n: nat): (p: nat)
    ensures p >= 1
  {
    if n == 0 then 1 else 2 * Pow2(n - 1)
  }

  /** Bitwise exclusive or of two non-negative integers. */
  function Xor(a: nat, b: nat): nat
    decreases a + b
  {
    if a == 0 && b == 0 then 0 else 2 * Xor(a / 2, b / 2) + (a + b) % 2
  }

  /** The expression `(n >> 1) ^ n`. */
  function Gray(n: nat): nat {
    Xor(n / 2, n)
  }

  /** Bit `i` of `n`. */
  function Bit(n: nat, i: nat): nat
    decreases i
  {
    if i == 0 then n % 2 else Bit(n / 2, i - 1)
  }

  /** The number of bit positions in which two numbers differ. */
  function Distance(a: nat, b: nat): nat
    decreases a + b
  {
    if a == 0 && b == 0 then 0 else Distance(a / 2, b / 2) + (a + b) % 2
  }

  /** A sampled value `x` of `w` bits each of which was caught either before or
      after a change from `a` to `b`. */
  ghost predicate Torn(x: nat, a: nat, b: nat, w: nat) {
    x < Pow2(w) && forall i: nat | i < w :: Bit(x, i) == Bit(a, i) || Bit(x, i) == Bit(b, i)
  }

  // ---------------------------------------------------------------- powers

  lemma Pow2Even(n: nat)
    requires n >= 1
    ensures Pow2(n) % 2 == 0 && Pow2(n) == 2 * Pow2(n - 1)
  {
    Doubled(Pow2(n - 1));
  }

  lemma Doubled(x: nat)
    ensures 2 * x / 2 == x && 2 * x % 2 == 0
  {
  }

  lemma {:induction false} Pow2Monotone(a: nat, b: nat)
    requires a <= b
    ensures Pow2(a) <= Pow2(b)
    decreases b
  {
    if a < b {
      Pow2Monotone(a, b - 1);
    }
  }

  // ------------------------------------------------------------------- xor

  lemma XorStep(a: nat, b: nat)
    ensures Xor(a, b) == 2 * Xor(a / 2, b / 2) + (a + b) % 2
    ensures Xor(a, b) / 2 == Xor(a / 2, b / 2) && Xor(a, b) % 2 == (a + b) % 2
  {
  }

  lemma {:induction false} XorBound(a: nat, b: nat, w: nat)
    requires a < Pow2(w) && b < Pow2(w)
    ensures Xor(a, b) < Pow2(w)
    decreases w
  {
    if w > 0 {
      XorBound(a / 2, b / 2, w - 1);
    }
  }

  // ------------------------------------------------------------ Gray codes

  lemma GrayStep(n: nat)
    ensures Gray(n) == 2 * Gray(n / 2) + (n + n / 2) % 2
    ensures Gray(n) / 2 == Gray(n / 2) && Gray(n) % 2 == (n + n / 2) % 2
  {
    XorStep(n / 2, n);
  }

  lemma GrayBound(n: nat, w: nat)
    requires n < Pow2(w)
    ensures Gray(n) < Pow2(w)
  {
    XorBound(n / 2, n, w);
  }

  /** No two numbers share a Gray code. */
  lemma {:induction false} GrayInjective(a: nat, b: nat)
    ensures Gray(a) == Gray(b) <==> a == b
    decreases a + b
  {
    if a != b {
      GrayStep(a);
      GrayStep(b);
      GrayInjective(a / 2, b / 2);
      CommonParity(a, b, a / 2);
      SameHalves(a, b);
    }
  }

  /** Inverting the two top bits of a Gray code of `w` bits moves the number it
      encodes by half the range. */
  lemma {:induction false} GrayHalfTurn(a: nat, b: nat, w: nat)
    requires w >= 2 && a < Pow2(w) && b < Pow2(w)
    ensures Gray(a) == Xor(Gray(b), 3 * Pow2(w - 2)) <==>
            a == b + Pow2(w - 1) || b == a + Pow2(w - 1)
    decreases w
  {
    if w == 2 {
      GrayHalfTurnOfTwoBits(a, b);
    } else {
      GrayHalfTurn(a / 2, b / 2, w - 1);
      HalfTurnStep(a, b, w);
      Pow2Even(w - 2);
      Pow2Even(w - 1);
      HalfTurnByParts(a, b, Pow2(w - 2));
    }
  }

  lemma GrayHalfTurnOfTwoBits(a: nat, b: nat)
    requires a < 4 && b < 4
    ensures Gray(a) == Xor(Gray(b), 3) <==> a == b + 2 || b == a + 2
  {
    assert Gray(0) == 0 && Gray(1) == 1 && Gray(2) == 3 && Gray(3) == 2;
    assert Xor(0, 3) == 3 && Xor(1, 3) == 2 && Xor(3, 3) == 0 && Xor(2, 3) == 1;
  }

  lemma HalfTurnStep(a: nat, b: nat, w: nat)
    requires w >= 3
    ensures Gray(a) == Xor(Gray(b), 3 * Pow2(w - 2)) <==>
            Gray(a / 2) == Xor(Gray(b / 2), 3 * Pow2(w - 3)) && (a + a / 2) % 2 == (b + b / 2) % 2
  {
    GrayStep(a);
    GrayStep(b);
    Pow2Even(w - 2);
    assert 3 * Pow2(w - 2) == 2 * (3 * Pow2(w - 3));
    XorWithEven(Gray(b), 3 * Pow2(w - 3));
    SameHalves(Gray(a), Xor(Gray(b), 3 * Pow2(w - 2)));
  }

  lemma XorWithEven(x: nat, m: nat)
    ensures Xor(x, 2 * m) / 2 == Xor(x / 2, m) && Xor(x, 2 * m) % 2 == x % 2
  {
    XorStep(x, 2 * m);
    assert (2 * m) / 2 == m;
    ParityOfSum(x, 2 * m, x, 0);
  }

  lemma SameHalves(x: nat, y: nat)
    ensures x == y <==> x / 2 == y / 2 && x % 2 == y % 2
  {
  }

  lemma HalfTurnByParts(a: nat, b: nat, h: nat)
    requires h >= 1 && h % 2 == 0
    ensures a == b + 2 * h || b == a + 2 * h <==>
            (a / 2 == b / 2 + h || b / 2 == a / 2 + h) && (a + a / 2) % 2 == (b + b / 2) % 2
  {
    HalfTurnUp(a, b, h);
    HalfTurnUp(b, a, h);
  }

  lemma HalfTurnUp(a: nat, b: nat, h: nat)
    requires h % 2 == 0
    ensures a == b + 2 * h <==> a / 2 == b / 2 + h && (a + a / 2) % 2 == (b + b / 2) % 2
  {
    if a / 2 == b / 2 + h {
      ParityOfSum(h, b / 2, 0, b / 2);
      ParityOfSum(a, a / 2, a, b / 2);
      CommonParity(a, b, b / 2);
    } else {
      assert a != b + 2 * h;
    }
  }

  lemma CommonParity(a: nat, b: nat, c: nat)
    ensures (a + c) % 2 == (b + c) % 2 <==> a % 2 == b % 2
  {
  }

  // ------------------------------------------------- one bit at a time

  lemma DistanceStep(a: nat, b: nat)
    ensures Distance(a, b) == Distance(a / 2, b / 2) + (a + b) % 2
  {
  }

  lemma {:induction false} DistanceToSelf(a: nat)
    ensures Distance(a, a) == 0
  {
    if a > 0 {
      DistanceToSelf(a / 2);
    }
  }

  lemma GrayDistanceStep(a: nat, b: nat)
    ensures Distance(Gray(a), Gray(b)) ==
            Distance(Gray(a / 2), Gray(b / 2)) + (a + a / 2 + b + b / 2) % 2
  {
    GrayStep(a);
    GrayStep(b);
    DistanceStep(Gray(a), Gray(b));
    ParityOfSum(Gray(a), Gray(b), a + a / 2, b + b / 2);
  }

  lemma ParityOfSum(x: nat, y: nat, u: nat, v: nat)
    requires x % 2 == u % 2 && y % 2 == v % 2
    ensures (x + y) % 2 == (u + v) % 2
  {
  }

  lemma SuccessorHalves(n: nat)
    ensures (n + 1) / 2 == n / 2 + n % 2
    ensures (n + n / 2 + (n + 1) + (n + 1) / 2) % 2 == 1 - n % 2
  {
  }

  /** Consecutive numbers have Gray codes that differ in exactly one bit. */
  lemma {:induction false} GraySuccessor(n: nat)
    ensures Distance(Gray(n), Gray(n + 1)) == 1
  {
    GrayDistanceStep(n, n + 1);
    SuccessorHalves(n);
    if n % 2 == 0 {
      DistanceToSelf(Gray(n / 2));
    } else {
      GraySuccessor(n / 2);
    }
  }

  lemma LastHalves(p: nat)
    requires p >= 1
    ensures (2 * p - 1) / 2 == p - 1
    ensures p % 2 == 0 ==> (2 * p - 1 + (p - 1)) % 2 == 0
  {
  }

  lemma {:induction false} GrayOfLast(w: nat)
    requires w >= 1
    ensures Distance(Gray(Pow2(w) - 1), 0) == 1
  {
    var n := Pow2(w) - 1;
    assert Gray(0) == 0;
    GrayDistanceStep(n, 0);
    if w == 1 {
      assert Gray(1) == 1 && Distance(0, 0) == 0;
    } else {
      LastHalves(Pow2(w - 1));
      Pow2Even(w - 1);
      GrayOfLast(w - 1);
    }
  }

  /** The same for a pointer of `w` bits that wraps around. */
  lemma GrayNeighbours(n: nat, w: nat)
    requires w >= 1 && n < Pow2(w)
    ensures Distance(Gray(n), Gray(if n + 1 == Pow2(w) then 0 else n + 1)) == 1
  {
    if n + 1 == Pow2(w) {
      GrayOfLast(w);
    } else {
      GraySuccessor(n);
    }
  }

  lemma {:induction false} DistanceZero(a: nat, b: nat)
    requires Distance(a, b) == 0
    ensures a == b
    decreases a + b
  {
    if a != 0 || b != 0 {
      DistanceZero(a / 2, b / 2);
    }
  }

  /** A torn sample of a value that changes in at most one bit is one of the two
      values it was sampled between. */
  lemma {:induction false} TornSample(x: nat, a: nat, b: nat, w: nat)
    requires a < Pow2(w) && b < Pow2(w)
    requires Distance(a, b) <= 1 && Torn(x, a, b, w)
    ensures x == a || x == b
    decreases w
  {
    if w > 0 {
      assert Bit(x, 0) == x % 2 && Bit(a, 0) == a % 2 && Bit(b, 0) == b % 2;
      forall i: nat | i < w - 1
        ensures Bit(x / 2, i) == Bit(a / 2, i) || Bit(x / 2, i) == Bit(b / 2, i)
      {
        assert Bit(x, i + 1) == Bit(a, i + 1) || Bit(x, i + 1) == Bit(b, i + 1);
      }
      DistanceStep(a, b);
      TornSample(x / 2, a / 2, b / 2, w - 1);
      if a % 2 != b % 2 {
        DistanceZero(a / 2, b / 2);
      }
    }
  }
}
