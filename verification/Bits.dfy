/** Bitwise operations of the C sources on unsigned values, defined bit by bit on
    natural numbers, and what masking with `n - 1` means for a power of two `n`. */
module Bits {

  function Pow2(k: nat): (p: nat)
    ensures p > 0
  {
    if k == 0 then 1 else 2 * Pow2(k - 1)
  }

  ghost predicate IsPow2(n: nat) {
    exists k: nat :: n == Pow2(k)
  }

  // x & y
  function And(x: nat, y: nat): nat
  {
    if x == 0 || y == 0 then 0
    else 2 * And(x / 2, y / 2) + (if x % 2 == 1 && y % 2 == 1 then 1 else 0)
  }

  // x & ~y
  function AndNot(x: nat, y: nat): nat
  {
    if x == 0 then 0
    else 2 * AndNot(x / 2, y / 2) + (if x % 2 == 1 && y % 2 == 0 then 1 else 0)
  }

  lemma {:induction false} Pow2Monotone(j: nat, k: nat)
    requires j <= k
    ensures Pow2(j) <= Pow2(k)
    decreases k
  {
    if j < k {
      Pow2Monotone(j, k - 1);
    }
  }

  lemma HalfMod(x: nat, m: nat)
    requires m > 0
    ensures x % (2 * m) == 2 * ((x / 2) % m) + x % 2
  {
    var q, r := (x / 2) / m, (x / 2) % m;
    assert x / 2 == m * q + r;
    var t := 2 * r + x % 2;
    assert x == (2 * m) * q + t by {
      assert x == 2 * (x / 2) + x % 2;
      assert 2 * (m * q) == (2 * m) * q;
    }
    ModUnique(x, 2 * m, q, t);
  }

  lemma ModUnique(x: int, m: int, q: int, r: int)
    requires m > 0 && 0 <= r < m && x == m * q + r
    ensures x % m == r && x / m == q
  {
    var d := q - x / m;
    assert x == m * (x / m) + x % m;
    assert m * d == x % m - r by {
      assert m * d == m * q - m * (x / m);
    }
    assert d > 0 ==> m * d >= m;
    assert d < 0 ==> m * d <= -m;
  }

  lemma ModDouble(x: nat, m: nat)
    requires m > 0
    ensures x % m == if x % (2 * m) < m then x % (2 * m) else x % (2 * m) - m
  {
    var q, r := x / (2 * m), x % (2 * m);
    assert x == 2 * m * q + r;
    var q' := if r < m then 2 * q else 2 * q + 1;
    MulSplit(m, q);
    ModUnique(x, m, q', if r < m then r else r - m);
  }

  lemma MulSplit(m: int, q: int)
    ensures m * (2 * q) == 2 * m * q && m * (2 * q + 1) == 2 * m * q + m
  {
  }

  // x & (2^k - 1) is the remainder modulo 2^k.
  lemma {:induction false} AndMask(x: nat, k: nat)
    ensures And(x, Pow2(k) - 1) == x % Pow2(k)
    decreases k
  {
    if k > 0 {
      AndMask(x / 2, k - 1);
      HalfMod(x, Pow2(k - 1));
      MaskHalves(Pow2(k - 1));
    }
  }

  // x & ~(2^k - 1) rounds down to a multiple of 2^k.
  lemma {:induction false} AndNotMask(x: nat, k: nat)
    ensures AndNot(x, Pow2(k) - 1) == x - x % Pow2(k)
    decreases k
  {
    if k == 0 {
      AndNotZero(x);
    } else {
      AndNotMask(x / 2, k - 1);
      HalfMod(x, Pow2(k - 1));
      MaskHalves(Pow2(k - 1));
    }
  }

  lemma MaskHalves(p: nat)
    requires p > 0
    ensures (2 * p - 1) / 2 == p - 1 && (2 * p - 1) % 2 == 1
  {
  }

  lemma {:induction false} AndNotZero(x: nat)
    ensures AndNot(x, 0) == x
  {
    if x != 0 {
      AndNotZero(x / 2);
    }
  }

  // s & ~(s - 1) isolates the lowest set bit of s: it is s itself for a power of two,
  // and lies strictly between 0 and s for every other positive s.
  lemma {:induction false} LowestBit(s: nat)
    requires s > 0
    ensures AndNot(s, s - 1) == s <==> IsPow2(s)
    ensures 0 < AndNot(s, s - 1) <= s
  {
    if s == 1 {
      assert 1 == Pow2(0);
      assert AndNot(1, 0) == 1 by { AndNotZero(1); }
    } else if s % 2 == 0 {
      LowestBit(s / 2);
      assert (s - 1) / 2 == s / 2 - 1;
      if IsPow2(s) {
        var k: nat :| s == Pow2(k);
        assert s / 2 == Pow2(k - 1);
      }
      if IsPow2(s / 2) {
        var k: nat :| s / 2 == Pow2(k);
        assert s == Pow2(k + 1);
      }
    } else {
      assert (s - 1) / 2 == s / 2;
      AndNotSelf(s / 2);
      forall k: nat
        ensures s != Pow2(k)
      {
        assert k == 0 || Pow2(k) == 2 * Pow2(k - 1);
      }
    }
  }

  lemma {:induction false} AndNotSelf(x: nat)
    ensures AndNot(x, x) == 0
  {
    if x != 0 {
      AndNotSelf(x / 2);
    }
  }
}
