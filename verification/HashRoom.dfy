/** The bound on chain lengths that the expansion of `hash.h` is there to keep: unless a table has
    stopped expanding, no chain exceeds (expand_mult + 1) * 10 items, and the ideal length is at
    most 10. */
module HashRoom {
  import opened Nodes
  import opened HashChains

  const BKT_CAPACITY_THRESH := 10

  function Total(b: seq<Bucket>): nat {
    if b == [] then 0 else b[0].count + Total(b[1..])
  }

  function MultSum(b: seq<Bucket>): nat {
    if b == [] then 0 else b[0].expandMult + MultSum(b[1..])
  }

  // At the threshold itself only a bucket without multiplier can be, right after an expansion.
  predicate Moderate(b: Bucket) {
    && b.count <= (b.expandMult + 1) * BKT_CAPACITY_THRESH
    && (b.count == (b.expandMult + 1) * BKT_CAPACITY_THRESH ==> b.expandMult == 0)
  }

  ghost predicate Roomy(b: seq<Bucket>, ideal: nat, noexpand: bool) {
    noexpand || (ideal <= BKT_CAPACITY_THRESH && MultSum(b) <= |b| && forall i | 0 <= i < |b| :: Moderate(b[i]))
  }

  // ----- Sums over the buckets

  lemma {:induction false} TotalBound(b: seq<Bucket>)
    requires forall i | 0 <= i < |b| :: Moderate(b[i])
    ensures Total(b) <= 10 * (MultSum(b) + |b|)
    ensures Total(b) == 10 * (MultSum(b) + |b|) ==> MultSum(b) == 0
    decreases |b|
  {
    if b != [] {
      assert Moderate(b[0]);
      TotalBound(b[1..]);
    }
  }

  lemma {:induction false} SameMults(b: seq<Bucket>, c: seq<Bucket>)
    requires |b| == |c| && forall i | 0 <= i < |b| :: b[i].expandMult == c[i].expandMult
    ensures MultSum(b) == MultSum(c)
    decreases |b|
  {
    if b != [] {
      SameMults(b[1..], c[1..]);
    }
  }

  lemma {:induction false} TotalIsOverflow(b: seq<Bucket>, chains: seq<seq<Node>>)
    requires |b| == |chains| && forall i | 0 <= i < |b| :: b[i].count == |chains[i]|
    ensures Total(b) == Overflow(chains, 0)
    decreases |b|
  {
    if b != [] {
      TotalIsOverflow(b[1..], chains[1..]);
    }
  }

  // expand_mult is the integer part of count / ideal, so the sum of all is at most Total / ideal.
  lemma {:induction false} MultSumBound(b: seq<Bucket>, ideal: nat)
    requires ideal > 0
    requires forall i | 0 <= i < |b| :: b[i].expandMult * ideal <= b[i].count
    ensures MultSum(b) * ideal <= Total(b)
    decreases |b|
  {
    if b != [] {
      MultSumBound(b[1..], ideal);
      assert MultSum(b) * ideal == b[0].expandMult * ideal + MultSum(b[1..]) * ideal;
    }
  }

  lemma {:induction false} EmptyRoomy(b: seq<Bucket>)
    requires forall i | 0 <= i < |b| :: b[i].count == b[i].expandMult == 0
    ensures MultSum(b) == 0 && Roomy(b, 0, false)
    decreases |b|
  {
    if b != [] {
      EmptyRoomy(b[1..]);
    }
  }

  // ----- What each operation does to the bound

  // A table with room takes one more item below twenty per bucket.
  lemma RoomForOne(b: seq<Bucket>, ideal: nat)
    requires b != [] && Roomy(b, ideal, false)
    ensures Total(b) + 1 <= 20 * |b|
  {
    TotalBound(b);
  }

  // Fewer items in some buckets, the same multipliers
  lemma RoomyShrinks(b: seq<Bucket>, c: seq<Bucket>, ideal: nat, noexpand: bool)
    requires Roomy(b, ideal, noexpand) && |b| == |c|
    requires forall i | 0 <= i < |b| :: c[i].expandMult == b[i].expandMult && c[i].count <= b[i].count
    ensures Roomy(c, ideal, noexpand)
  {
    SameMults(b, c);
    forall i | 0 <= i < |c| && !noexpand
      ensures Moderate(c[i])
    {
      assert Moderate(b[i]);
    }
  }

  // One item more in a bucket that does not reach the threshold
  lemma RoomyGrows(b: seq<Bucket>, c: seq<Bucket>, k: nat, ideal: nat, noexpand: bool)
    requires Roomy(b, ideal, noexpand) && |b| == |c| && k < |b|
    requires forall i | 0 <= i < |b| && i != k :: c[i] == b[i]
    requires c[k].expandMult == b[k].expandMult
    requires noexpand || c[k].count < (c[k].expandMult + 1) * BKT_CAPACITY_THRESH
    ensures Roomy(c, ideal, noexpand)
  {
    SameMults(b, c);
  }

  lemma QuotientFacts(c: nat, ideal: nat)
    requires 0 < ideal
    ensures (c / ideal) * ideal <= c < (c / ideal + 1) * ideal
  {
  }

  // The multiplier an expansion gives leaves every bucket moderate, if the ideal is at most 10.
  lemma MultIsModerate(b: Bucket, ideal: nat)
    requires 0 < ideal <= BKT_CAPACITY_THRESH
    requires b.expandMult == if b.count > ideal then b.count / ideal else 0
    ensures Moderate(b) && b.expandMult * ideal <= b.count
  {
    if b.count > ideal {
      QuotientFacts(b.count, ideal);
      Scaled(b.expandMult + 1, ideal, BKT_CAPACITY_THRESH);
    }
  }

  lemma Scaled(x: nat, y: nat, z: nat)
    requires y <= z
    ensures x * y <= x * z
  {
  }

  lemma CeilAtMost(q: nat, n: nat, b: nat)
    requires b > 0 && IsCeilDiv(q, n, b) && n <= 10 * b
    ensures q <= 10
  {
    if q > 10 {
      Scaled(b, 10, q - 1);
      assert false;
    }
  }

  lemma AtMostFactor(x: nat, y: nat, q: nat)
    requires q > 0 && x * q <= q * y
    ensures x <= y
  {
    if x > y {
      Scaled(q, y + 1, x);
      assert false;
    }
  }

  // A table that had at most twenty items per old bucket is roomy after the expansion.
  lemma ExpandedRoomy(t: Table, chains: seq<seq<Node>>, nc: seq<seq<Node>>, u: set<Node>)
    requires Expanded(t, chains, nc, u) && chains != []
    requires t.numItems == Overflow(nc, 0) && t.numItems <= 20 * |chains|
    ensures Roomy(t.buckets[..], t.idealChainMaxlen, t.noexpand)
  {
    hide Overflow, IsCeilDiv, Redistributed, Hashed, Chain;
    var b, q := t.buckets[..], t.idealChainMaxlen;
    CeilAtMost(q, t.numItems, |nc|);
    forall i | 0 <= i < |b|
      ensures b[i].count == |nc[i]| && Moderate(b[i]) && b[i].expandMult * q <= b[i].count
    {
      assert BucketOk(t.buckets[i], nc[i]);
      MultIsModerate(b[i], q);
    }
    TotalIsOverflow(b, nc);
    MultSumBound(b, q);
    CeilCovers(q, t.numItems, |nc|);
    AtMostFactor(MultSum(b), |nc|, q);
  }

  lemma CeilCovers(q: nat, n: nat, b: nat)
    requires IsCeilDiv(q, n, b)
    ensures n <= q * b
  {
  }
}
