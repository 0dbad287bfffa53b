/** The CRC is a remainder: the message, followed by as many zeros as the register has bits, is a
    multiple of the generator plus the CRC, and only the CRC completes it so. */
module CrcDivision {
  import opened CrcTheory

  // The generator with the leading one that the register leaves out
  function Full(g: Poly): (f: Poly)
    ensures |f| == |g| + 1
  {
    [true] + g
  }

  // q times the full generator, without carries
  function Times(q: Poly, g: Poly): (p: Poly)
    ensures |p| == |q| + |g|
    decreases |q|
  {
    if q == [] then Zeros(|g|)
    else Xor(if q[0] then Full(g) + Zeros(|q| - 1) else Zeros(|q| + |g|), [false] + Times(q[1..], g))
  }

  // q times the generator, plus r
  function Combine(q: Poly, r: Poly, g: Poly): (p: Poly)
    requires |r| == |g|
    ensures |p| == |q| + |g|
  {
    Xor(Times(q, g), Zeros(|q|) + r)
  }

  // ----- One step of the division

  // The first bit of the quotient is split off.
  lemma CombineStep(q: Poly, r: Poly, g: Poly)
    requires q != [] && |r| == |g|
    ensures Combine(q, r, g)
         == Xor(if q[0] then Full(g) + Zeros(|q| - 1) else Zeros(|q| + |g|), [false] + Combine(q[1..], r, g))
  {
    hide Times, Full;
    var lead := if q[0] then Full(g) + Zeros(|q| - 1) else Zeros(|q| + |g|);
    var t, y := Times(q[1..], g), Zeros(|q| - 1) + r;
    TimesStep(q, g);
    ZerosFirst(|q|, r);
    Lead(false, false, t, y);
    XorAssociative(lead, [false] + t, [false] + y);
  }

  lemma TimesStep(q: Poly, g: Poly)
    requires q != []
    ensures Times(q, g)
         == Xor(if q[0] then Full(g) + Zeros(|q| - 1) else Zeros(|q| + |g|), [false] + Times(q[1..], g))
  {
  }

  lemma ZerosFirst(n: nat, r: Poly)
    requires n > 0
    ensures Zeros(n) + r == [false] + (Zeros(n - 1) + r)
  {
  }

  // The register and the bits to come, before and after a shift
  lemma ShiftDivides(r: Poly, x: Poly, g: Poly)
    requires |r| == |g| > 0 && x != []
    ensures r + x == Xor(if r[0] then Full(g) + Zeros(|x| - 1) else Zeros(|x| + |g|),
                         [false] + (Shift(r, x[0], g) + x[1..]))
  {
    var u := r[1..] + [x[0]];
    assert r + x == [r[0]] + (u + x[1..]);
    if r[0] {
      assert Full(g) + Zeros(|x| - 1) == [true] + (g + Zeros(|x| - 1));
      assert Xor(u, g) + x[1..] == Xor(u + x[1..], g + Zeros(|x| - 1));
      Cancel(u + x[1..], g + Zeros(|x| - 1));
      Lead(true, false, g + Zeros(|x| - 1), Xor(u + x[1..], g + Zeros(|x| - 1)));
    } else {
      assert Zeros(|x| + |g|) == [false] + Zeros(|x| + |g| - 1);
      XorZeros(u + x[1..]);
      Lead(false, false, Zeros(|x| + |g| - 1), u + x[1..]);
    }
  }

  lemma Cancel(a: Poly, b: Poly)
    requires |a| == |b|
    ensures Xor(b, Xor(a, b)) == a
  {
  }

  lemma Lead(p: bool, q: bool, a: Poly, b: Poly)
    requires |a| == |b|
    ensures Xor([p] + a, [q] + b) == [p != q] + Xor(a, b)
  {
  }

  // ----- Existence

  // The bits shifted out of the register
  function Quotient(r: Poly, x: Poly, g: Poly): (q: Poly)
    requires |r| == |g| > 0
    ensures |q| == |x|
    decreases |x|
  {
    if x == [] then [] else [r[0]] + Quotient(Shift(r, x[0], g), x[1..], g)
  }

  lemma {:induction false} RunDivides(r: Poly, x: Poly, g: Poly)
    requires |r| == |g| > 0
    ensures r + x == Combine(Quotient(r, x, g), Run(r, x, g), g)
    decreases |x|
  {
    hide Shift, Times;
    if x == [] {
      NothingLeft(r, g);
      assert r + x == r;
    } else {
      var r' := Shift(r, x[0], g);
      RunDivides(r', x[1..], g);
      ShiftDivides(r, x, g);
      CombineStep(Quotient(r, x, g), Run(r, x, g), g);
    }
  }

  lemma NothingLeft(r: Poly, g: Poly)
    requires |r| == |g|
    ensures Combine([], r, g) == r
  {
    XorZeros(r);
    assert Zeros(0) + r == r;
  }

  // The quotient of a message: what is shifted out once the register is full
  function MessageQuotient(m: Poly, g: Poly): (q: Poly)
    requires |g| > 0
    ensures |q| == |m|
  {
    var x := m + Zeros(|g|);
    Quotient(x[..|g|], x[|g|..], g)
  }

  lemma CrcDivides(m: Poly, g: Poly)
    requires |g| > 0
    ensures m + Zeros(|g|) == Combine(MessageQuotient(m, g), Crc(m, g), g)
  {
    hide Combine, Quotient, Run;
    var n, x := |g|, m + Zeros(|g|);
    assert x == x[..n] + x[n..];
    RunConcat(Zeros(n), x[..n], x[n..], g);
    RunLoads(n, [], x[..n], g);
    assert Zeros(n) + [] == Zeros(n) && [] + x[..n] == x[..n];
    RunDivides(x[..n], x[n..], g);
  }

  // ----- Uniqueness

  lemma FirstBit(q: Poly, r: Poly, g: Poly)
    requires q != [] && |r| == |g|
    ensures Combine(q, r, g)[0] == q[0]
  {
    hide Combine, Times;
    CombineStep(q, r, g);
  }

  lemma TailEqual(x: Poly, y: Poly, z: Poly)
    requires |x| == |y| + 1 == |z| + 1 && Xor(x, [false] + y) == Xor(x, [false] + z)
    ensures y == z
  {
    forall i | 0 <= i < |y|
      ensures y[i] == z[i]
    {
      assert Xor(x, [false] + y)[i + 1] == (x[i + 1] != y[i]);
      assert Xor(x, [false] + z)[i + 1] == (x[i + 1] != z[i]);
    }
  }

  lemma {:induction false} DivisionUnique(q: Poly, q': Poly, r: Poly, r': Poly, g: Poly)
    requires |q| == |q'| && |r| == |r'| == |g| && Combine(q, r, g) == Combine(q', r', g)
    ensures q == q' && r == r'
    decreases |q|
  {
    hide Combine, Times;
    if q == [] {
      NothingLeft(r, g);
      NothingLeft(r', g);
    } else {
      FirstBit(q, r, g);
      FirstBit(q', r', g);
      CombineStep(q, r, g);
      CombineStep(q', r', g);
      var lead := if q[0] then Full(g) + Zeros(|q| - 1) else Zeros(|q| + |g|);
      TailEqual(lead, Combine(q[1..], r, g), Combine(q'[1..], r', g));
      DivisionUnique(q[1..], q'[1..], r, r', g);
      assert q == [q[0]] + q[1..] && q' == [q'[0]] + q'[1..];
    }
  }

  // c is the CRC of m exactly if the padded message is a multiple of the generator plus c.
  lemma CrcIsRemainderIff(m: Poly, c: Poly, g: Poly)
    requires |c| == |g| > 0
    ensures c == Crc(m, g) <==> exists q: Poly :: |q| == |m| && Combine(q, c, g) == m + Zeros(|g|)
  {
    hide Combine, Crc, MessageQuotient;
    CrcDivides(m, g);
    if q: Poly :| |q| == |m| && Combine(q, c, g) == m + Zeros(|g|) {
      DivisionUnique(q, MessageQuotient(m, g), c, Crc(m, g), g);
    }
  }
}
