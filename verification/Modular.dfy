/** Counters that wrap around. */
module Modular {

  lemma SmallMod(x: nat, m: nat)
    requires x < m
    ensures x % m == x
  {
  }

  /** A value is determined by its quotient and remainder. */
  lemma ModUnique(x: int, m: nat, q: int, r: int)
    requires m > 0 && x == q * m + r && 0 <= r < m
    ensures x % m == r && x / m == q
  {
    var d := x / m - q;
    assert x == (x / m) * m + x % m;
    assert d * m == (x / m) * m - q * m;
    assert d * m == r - x % m;
  }

  /** Adding whole turns changes nothing. */
  lemma ModTurns(x: nat, m: nat, k: int)
    requires m > 0 && x + k * m >= 0
    ensures (x + k * m) % m == x % m
  {
    assert x + k * m == (x / m + k) * m + x % m by {
      assert (x / m + k) * m == (x / m) * m + k * m;
    }
    ModUnique(x + k * m, m, x / m + k, x % m);
  }

  /** One step of a wrapped counter is one step of the counter. */
  lemma ModStep(x: nat, m: nat, s: nat)
    requires m > 0
    ensures (x % m + s) % m == (x + s) % m
  {
    assert x + s == (x % m + s) + (x / m) * m;
    ModTurns(x % m + s, m, x / m);
  }

  /** A counter as it reads when it turns over at `m`, told in whole turns taken back.
      It is `x % m`, in linear arithmetic. */
  function Wrap(x: nat, m: nat): (r: nat)
    requires m > 0
    ensures r < m
  {
    if x < m then x else Wrap(x - m, m)
  }

  lemma {:induction false} WrapIsMod(x: nat, m: nat)
    requires m > 0
    ensures Wrap(x, m) == x % m
  {
    if x < m {
      SmallMod(x, m);
    } else {
      WrapIsMod(x - m, m);
      ModTurns(x - m, m, 1);
    }
  }

  /** One step of a wrapped counter is one step of the counter. */
  lemma {:induction false} WrapStep(x: nat, m: nat, s: nat)
    requires m > 0
    ensures Wrap(Wrap(x, m) + s, m) == Wrap(x + s, m)
  {
    if x >= m {
      WrapStep(x - m, m, s);
    }
  }

  /** How far apart two wrapped counters are, given how far apart the counters are. */
  lemma WrapDistance(x: nat, y: nat, m: nat)
    requires x <= y < x + m
    ensures Wrap(y, m) == (if Wrap(x, m) + (y - x) < m then Wrap(x, m) + (y - x) else Wrap(x, m) + (y - x) - m)
  {
    WrapStep(x, m, y - x);
  }

  /** Counters less than a turn apart are equal when their wrapped values are. */
  lemma WrapInjective(x: nat, y: nat, m: nat)
    requires x <= y < x + m
    ensures Wrap(x, m) == Wrap(y, m) <==> x == y
  {
    WrapDistance(x, y, m);
  }

  /** Dropping the top bit of a pointer leaves the cell address. */
  lemma {:induction false} WrapHalf(x: nat, d: nat)
    requires d > 0
    ensures Wrap(Wrap(x, 2 * d), d) == Wrap(x, d)
  {
    if x >= 2 * d {
      WrapHalf(x - 2 * d, d);
      assert Wrap(x, d) == Wrap(x - d, d) == Wrap(x - 2 * d, d);
    }
  }
}
