/** CRC registers as polynomials over GF(2): a bit string, highest coefficient first.  One step
    shifts a message bit in and subtracts the generator g when a one is shifted out.  The width
    of the register is the length of g, so one theory serves the 16- and the 32-bit CRC. */
module CrcTheory {

  type Poly = seq<bool>

  function Zeros(n: nat): (z: Poly)
    ensures |z| == n && forall i | 0 <= i < n :: !z[i]
  {
    seq(n, _ => false)
  }

  function Xor(x: Poly, y: Poly): (z: Poly)
    requires |x| == |y|
    ensures |z| == |x| && forall i | 0 <= i < |z| :: z[i] == (x[i] != y[i])
  {
    seq(|x|, i requires 0 <= i < |x| => x[i] != y[i])
  }

  function Shift(r: Poly, b: bool, g: Poly): (s: Poly)
    requires |r| == |g| > 0
    ensures |s| == |g|
  {
    if r[0] then Xor(r[1..] + [b], g) else r[1..] + [b]
  }

  function Run(r: Poly, bits: Poly, g: Poly): (s: Poly)
    requires |r| == |g| > 0
    ensures |s| == |g|
    decreases |bits|
  {
    if bits == [] then r else Run(Shift(r, bits[0], g), bits[1..], g)
  }

  // The CRC of a message: the remainder of the message followed by |g| zero bits
  function Crc(m: Poly, g: Poly): (c: Poly)
    requires |g| > 0
    ensures |c| == |g|
  {
    Run(Zeros(|g|), m + Zeros(|g|), g)
  }

  // ----- Xor

  lemma XorSelf(x: Poly)
    ensures Xor(x, x) == Zeros(|x|)
  {
  }

  lemma XorZeros(x: Poly)
    ensures Xor(x, Zeros(|x|)) == x && Xor(Zeros(|x|), x) == x
  {
  }

  lemma XorZeroIff(x: Poly, y: Poly)
    requires |x| == |y|
    ensures Xor(x, y) == Zeros(|x|) <==> x == y
  {
    if Xor(x, y) == Zeros(|x|) {
      forall i | 0 <= i < |x|
        ensures x[i] == y[i]
      {
        assert !Xor(x, y)[i];
      }
    }
  }

  lemma XorAssociative(x: Poly, y: Poly, z: Poly)
    requires |x| == |y| == |z|
    ensures Xor(Xor(x, y), z) == Xor(x, Xor(y, z))
  {
  }

  lemma XorConcat(a: Poly, b: Poly, c: Poly, d: Poly)
    requires |a| == |c| && |b| == |d|
    ensures Xor(a + b, c + d) == Xor(a, c) + Xor(b, d)
  {
  }

  // ----- Runs

  lemma {:induction false} RunConcat(r: Poly, x: Poly, y: Poly, g: Poly)
    requires |r| == |g| > 0
    ensures Run(r, x + y, g) == Run(Run(r, x, g), y, g)
    decreases |x|
  {
    if x == [] {
      assert x + y == y;
    } else {
      assert (x + y)[1..] == x[1..] + y;
      RunConcat(Shift(r, x[0], g), x[1..], y, g);
    }
  }

  lemma ShiftLinear(r: Poly, s: Poly, b: bool, c: bool, g: Poly)
    requires |r| == |s| == |g| > 0
    ensures Shift(Xor(r, s), b != c, g) == Xor(Shift(r, b, g), Shift(s, c, g))
  {
    assert Xor(r, s)[1..] + [b != c] == Xor(r[1..] + [b], s[1..] + [c]);
    assert Xor(r, s)[0] == (r[0] != s[0]);
  }

  // The register is a linear function of the initial value and the message.
  lemma {:induction false} RunLinear(r: Poly, s: Poly, x: Poly, y: Poly, g: Poly)
    requires |r| == |s| == |g| > 0 && |x| == |y|
    ensures Run(Xor(r, s), Xor(x, y), g) == Xor(Run(r, x, g), Run(s, y, g))
    decreases |x|
  {
    if x != [] {
      ShiftLinear(r, s, x[0], y[0], g);
      assert Xor(x, y)[1..] == Xor(x[1..], y[1..]);
      RunLinear(Shift(r, x[0], g), Shift(s, y[0], g), x[1..], y[1..], g);
    }
  }

  lemma {:induction false} RunZeros(n: nat, g: Poly)
    requires |g| > 0
    ensures Run(Zeros(|g|), Zeros(n), g) == Zeros(|g|)
    decreases n
  {
    if n > 0 {
      assert Shift(Zeros(|g|), false, g) == Zeros(|g|);
      assert Zeros(n)[1..] == Zeros(n - 1);
      RunZeros(n - 1, g);
    }
  }

  // As long as only zeros are shifted out, the bits just move through.
  lemma {:induction false} RunLoads(k: nat, r: Poly, x: Poly, g: Poly)
    requires k == |x| && |r| + k == |g| > 0
    ensures Run(Zeros(k) + r, x, g) == r + x
    decreases k
  {
    if k > 0 {
      assert (Zeros(k) + r)[1..] + [x[0]] == Zeros(k - 1) + (r + [x[0]]);
      RunLoads(k - 1, r + [x[0]], x[1..], g);
      assert (r + [x[0]]) + x[1..] == r + x;
    } else {
      assert Zeros(k) + r == r && r + x == r;
    }
  }

  lemma ShiftInjective(r: Poly, s: Poly, b: bool, g: Poly)
    requires |r| == |s| == |g| > 0 && g[|g| - 1]
    requires Shift(r, b, g) == Shift(s, b, g)
    ensures r == s
  {
    var n := |g|;
    var u, v := r[1..] + [b], s[1..] + [b];
    assert Shift(r, b, g)[n - 1] == (if r[0] then !b else b);
    assert Shift(s, b, g)[n - 1] == (if s[0] then !b else b);
    forall i | 1 <= i < n
      ensures r[i] == s[i]
    {
      assert Shift(r, b, g)[i - 1] == Shift(s, b, g)[i - 1];
      assert u[i - 1] == r[i] && v[i - 1] == s[i];
    }
  }

  // With a generator whose lowest bit is set, a message acts injectively on the register.
  lemma {:induction false} RunInjective(r: Poly, s: Poly, x: Poly, g: Poly)
    requires |r| == |s| == |g| > 0 && g[|g| - 1] && r != s
    ensures Run(r, x, g) != Run(s, x, g)
    decreases |x|
  {
    if x != [] {
      if Shift(r, x[0], g) == Shift(s, x[0], g) {
        ShiftInjective(r, s, x[0], g);
        assert false;
      }
      RunInjective(Shift(r, x[0], g), Shift(s, x[0], g), x[1..], g);
    }
  }

  // ----- The CRC of a sum of messages

  lemma CrcLinear(x: Poly, y: Poly, g: Poly)
    requires |x| == |y| && |g| > 0
    ensures Crc(Xor(x, y), g) == Xor(Crc(x, g), Crc(y, g))
  {
    var z := Zeros(|g|);
    XorSelf(z);
    XorConcat(x, z, y, z);
    RunLinear(z, z, x + z, y + z, g);
  }

  // ----- Burst errors

  // a and b differ first at position f, and nowhere from f + |g| on.
  ghost predicate Burst(a: Poly, b: Poly, f: nat, g: Poly) {
    && |a| == |b| && f < |a| && a[f] != b[f]
    && (forall i | 0 <= i < f :: a[i] == b[i])
    && (forall i | f + |g| <= i < |a| :: a[i] == b[i])
  }

  lemma BurstShape(d: Poly, f: nat, n: nat)
    requires f < |d| && n > 0
    requires (forall i | 0 <= i < f :: !d[i]) && (forall i | f + n <= i < |d| :: !d[i])
    ensures var e := d + Zeros(n);
      |e| >= f + n && e == Zeros(f) + (e[f..f + n] + Zeros(|d| - f))
  {
    var e := d + Zeros(n);
    assert forall i | f + n <= i < |e| :: !e[i];
  }

  // Any burst no wider than the register changes the CRC, if the generator's lowest bit is set.
  lemma BurstDetected(a: Poly, b: Poly, f: nat, g: Poly)
    requires |g| > 0 && g[|g| - 1] && Burst(a, b, f, g)
    ensures Crc(a, g) != Crc(b, g)
  {
    var n, d := |g|, Xor(a, b);
    var z := Zeros(n);
    var e := d + z;
    BurstShape(d, f, n);
    var w := e[f..f + n];
    // the difference of the CRCs is the CRC of the difference
    CrcLinear(a, b, g);
    RunConcat(z, Zeros(f), w + Zeros(|d| - f), g);
    RunZeros(f, g);
    RunConcat(z, w, Zeros(|d| - f), g);
    RunLoads(n, [], w, g);
    assert z + [] == z && [] + w == w;
    assert w[0] && w != z;
    RunInjective(w, z, Zeros(|d| - f), g);
    RunZeros(|d| - f, g);
    XorZeroIff(Crc(a, g), Crc(b, g));
  }

  // The burst the generator g would miss if its lowest bit were clear
  function Missed(g: Poly): (e: Poly)
    requires |g| > 0
    ensures |e| == |g|
  {
    [true] + g[..|g| - 1]
  }

  lemma BurstMissed(g: Poly)
    requires |g| > 0 && !g[|g| - 1]
    ensures Burst(Missed(g), Zeros(|g|), 0, g) && Crc(Missed(g), g) == Crc(Zeros(|g|), g)
  {
    var n, e := |g|, Missed(g);
    var z := Zeros(n);
    RunConcat(z, e, z, g);
    RunLoads(n, [], e, g);
    assert z + [] == z && [] + e == e;
    assert e[1..] + [false] == g;
    assert Shift(e, false, g) == z by {
      XorSelf(g);
    }
    assert z[0] == false && z[1..] == Zeros(n - 1);
    assert Run(e, z, g) == Run(Shift(e, false, g), Zeros(n - 1), g);
    RunZeros(n - 1, g);
    RunConcat(z, z, z, g);
    RunZeros(n, g);
  }

  // A generator detects every burst no wider than the register exactly when its lowest bit is set.
  lemma DetectsAllBurstsIff(g: Poly)
    requires |g| > 0
    ensures (forall a, b, f: nat | Burst(a, b, f, g) :: Crc(a, g) != Crc(b, g)) <==> g[|g| - 1]
  {
    if g[|g| - 1] {
      forall a, b, f: nat | Burst(a, b, f, g)
        ensures Crc(a, g) != Crc(b, g)
      {
        BurstDetected(a, b, f, g);
      }
    } else {
      BurstMissed(g);
    }
  }

  // ----- A message followed by its own CRC

  lemma CrcAppend(m: Poly, c: Poly, g: Poly)
    requires |c| == |g| > 0
    ensures Crc(m + c, g) == Run(Xor(Crc(m, g), c), Zeros(|g|), g)
  {
    var n, z := |g|, Zeros(|g|);
    var r := Run(z, m, g);
    assert (m + c) + z == m + (c + z);
    RunConcat(z, m, c + z, g);
    RunConcat(r, c, z, g);
    RunConcat(z, m, z, g);
    XorZeros(r);
    XorZeros(c);
    RunLinear(r, z, z, c, g);
    RunLoads(n, [], c, g);
    assert z + [] == z && [] + c == c;
  }

  // The message followed by c has CRC 0 if c is its CRC, and only then if the generator is odd.
  lemma CrcSelfCheck(m: Poly, c: Poly, g: Poly)
    requires |c| == |g| > 0
    ensures c == Crc(m, g) ==> Crc(m + c, g) == Zeros(|g|)
    ensures g[|g| - 1] && Crc(m + c, g) == Zeros(|g|) ==> c == Crc(m, g)
  {
    var z := Zeros(|g|);
    CrcAppend(m, c, g);
    RunZeros(|g|, g);
    XorZeroIff(Crc(m, g), c);
    if g[|g| - 1] && Xor(Crc(m, g), c) != z {
      RunInjective(Xor(Crc(m, g), c), z, z, g);
    }
  }
}
