/** The bucket chains of `hash.h`: adding to and deleting from a bucket, and the doubling
    expansion that redistributes all chains. */
module HashChains {
  import opened Bits
  import opened Nodes
  import opened Seqs
  import opened UtListSort

  // ----- Which bucket a hash value belongs to

  // HASH_TO_BKT: hashv & (num_bkts - 1)
  function BucketOf(hashv: nat, n: nat): nat
    requires n > 0
  {
    And(hashv, n - 1)
  }

  // In a table of a power of two of buckets, the bucket is the remainder of the hash value.
  lemma BucketInRange(hashv: nat, n: nat)
    requires n > 0 && IsPow2(n)
    ensures BucketOf(hashv, n) == hashv % n < n
  {
    var k: nat :| n == Pow2(k);
    AndMask(hashv, k);
  }

  // The bucket of the undoubled table that feeds bucket b of the doubled one.
  function Origin(b: nat, n: nat): nat {
    if b < n then b else b - n
  }

  // Doubling the table sends an item of bucket i to bucket i + n exactly when its remainder modulo 2n
  // is n or more, and leaves it in i otherwise.
  lemma BucketSplits(hashv: nat, n: nat)
    requires n > 0 && IsPow2(n)
    ensures BucketOf(hashv, 2 * n) == BucketOf(hashv, n) + (if hashv % (2 * n) >= n then n else 0) < 2 * n
    ensures Origin(BucketOf(hashv, 2 * n), n) == BucketOf(hashv, n)
  {
    var k: nat :| n == Pow2(k);
    assert 2 * n == Pow2(k + 1);
    AndMask(hashv, k);
    AndMask(hashv, k + 1);
    ModDouble(hashv, n);
  }

  // ----- Chains

  // The chain s of nodes of u is correctly linked both ways.
  ghost predicate Chain(s: seq<Node>, u: set<Node>)
    reads u`hhNext, u`hhPrev
  {
    && Distinct(s) && Elements(s) <= u
    && ChainFrom(s, 0, u)
    && (forall i {:trigger s[i].hhPrev} | 0 <= i < |s| ::
         s[i] in Elements(s) && s[i].hhPrev == if i == 0 then null else s[i - 1])
  }

  // hh_next is right from index j on.
  ghost predicate ChainFrom(s: seq<Node>, j: nat, u: set<Node>)
    requires Elements(s) <= u
    reads u`hhNext
  {
    forall i {:trigger s[i].hhNext} | j <= i < |s| ::
      s[i] in Elements(s) && s[i].hhNext == if i + 1 < |s| then s[i + 1] else null
  }

  ghost predicate BucketOk(b: Bucket, s: seq<Node>) {
    b.head == At(s, 0) && b.count == |s|
  }

  ghost predicate Buckets(bs: array<Bucket>, chains: seq<seq<Node>>, u: set<Node>)
    reads bs, u`hhNext, u`hhPrev
  {
    && bs.Length == |chains|
    && (forall b {:trigger chains[b]} | 0 <= b < |chains| :: BucketOk(bs[b], chains[b]) && Chain(chains[b], u))
  }

  // Every node of chain b hashes to bucket b.
  ghost predicate Hashed(chains: seq<seq<Node>>, u: set<Node>)
    reads u`hashv
  {
    |chains| > 0 &&
    forall b {:trigger chains[b]} | 0 <= b < |chains| ::
      forall x | x in chains[b] :: x in u && BucketOf(x.hashv, |chains|) == b
  }

  ghost predicate InChains(x: Node, chains: seq<seq<Node>>) {
    exists b :: 0 <= b < |chains| && x in chains[b]
  }

  // Items beyond position k of their chain, over all chains; with k == 0, all items.
  ghost function Overflow(chains: seq<seq<Node>>, k: nat): nat {
    if chains == [] then 0
    else (if |chains[0]| > k then |chains[0]| - k else 0) + Overflow(chains[1..], k)
  }

  lemma {:induction false} OverflowUpdate(chains: seq<seq<Node>>, b: nat, s: seq<Node>, k: nat)
    requires b < |chains|
    ensures Overflow(chains[b := s], k) - (if |s| > k then |s| - k else 0)
         == Overflow(chains, k) - (if |chains[b]| > k then |chains[b]| - k else 0)
    decreases |chains|
  {
    if b > 0 {
      assert chains[b := s][1..] == chains[1..][b - 1 := s];
      OverflowUpdate(chains[1..], b - 1, s, k);
    }
  }

  lemma {:induction false} OverflowEmpty(chains: seq<seq<Node>>, k: nat)
    requires forall b | 0 <= b < |chains| :: chains[b] == []
    ensures Overflow(chains, k) == 0
  {
    if chains != [] {
      OverflowEmpty(chains[1..], k);
    }
  }

  // The places beyond position k, over all chains
  function Beyond(chains: seq<seq<Node>>, k: nat): set<(nat, nat)> {
    set b: nat, i: nat | b < |chains| && k <= i < |chains[b]| :: (b, i)
  }

  // Overflow counts these places.
  lemma {:induction false} OverflowCounts(chains: seq<seq<Node>>, k: nat)
    ensures Overflow(chains, k) == |Beyond(chains, k)|
    decreases |chains|
  {
    if chains == [] {
      assert Beyond(chains, k) == {};
    } else {
      var n := |chains| - 1;
      OverflowCounts(chains[..n], k);
      OverflowLast(chains, k);
      LastPlaces(chains, k);
    }
  }

  lemma {:induction false} OverflowLast(chains: seq<seq<Node>>, k: nat)
    requires chains != []
    ensures var s := chains[|chains| - 1];
      Overflow(chains, k) == Overflow(chains[..|chains| - 1], k) + if |s| > k then |s| - k else 0
    decreases |chains|
  {
    if |chains| > 1 {
      assert chains[..|chains| - 1][1..] == chains[1..][..|chains| - 2];
      OverflowLast(chains[1..], k);
    }
  }

  lemma LastPlaces(chains: seq<seq<Node>>, k: nat)
    requires chains != []
    ensures var n, s := |chains| - 1, chains[|chains| - 1];
      |Beyond(chains, k)| == |Beyond(chains[..n], k)| + if |s| > k then |s| - k else 0
  {
    var n, s := |chains| - 1, chains[|chains| - 1];
    var row := Row(n, k, |s|);
    RowSize(n, k, |s|);
    assert Beyond(chains, k) == Beyond(chains[..n], k) + row;
    assert Beyond(chains[..n], k) !! row;
  }

  function Row(b: nat, k: nat, len: nat): set<(nat, nat)> {
    set i: nat | k <= i < len :: (b, i)
  }

  lemma {:induction false} RowSize(b: nat, k: nat, len: nat)
    ensures |Row(b, k, len)| == if len > k then len - k else 0
    decreases len
  {
    if len <= k {
      assert Row(b, k, len) == {};
    } else {
      RowSize(b, k, len - 1);
      assert Row(b, k, len) == Row(b, k, len - 1) + {(b, len - 1)};
    }
  }

  // ----- HASH_ADD_TO_BKT, without the expansion it may trigger

  method LinkFront(t: Table, b: nat, e: Node, ghost chains: seq<seq<Node>>, ghost u: set<Node>)
    requires Buckets(t.buckets, chains, u) && Hashed(chains, u)
    requires b < |chains| && e in u && !InChains(e, chains)
    modifies t.buckets, u`hhNext, u`hhPrev
    ensures Buckets(t.buckets, chains[b := [e] + chains[b]], u) && t.buckets.Length == |chains|
    ensures t.buckets[b].count == old(t.buckets[b].count) + 1
    ensures t.buckets[b].expandMult == old(t.buckets[b].expandMult)
    ensures forall i | 0 <= i < |chains| && i != b :: t.buckets[i] == old(t.buckets[i])
  {
    var hd := t.buckets[b].head;
    assert chains[b] != [] ==> hd in Elements(chains[b]);
    t.buckets[b] := t.buckets[b].(count := t.buckets[b].count + 1);
    e.hhNext := hd;
    e.hhPrev := null;
    if hd != null {
      hd.hhPrev := e;
    }
    t.buckets[b] := t.buckets[b].(head := e);
    FrontLinked(e, chains[b], u);
  }

  lemma FrontLinked(e: Node, s: seq<Node>, u: set<Node>)
    requires e in u && e !in s && Distinct(s) && Elements(s) <= u && ChainFrom(s, 0, u)
    requires forall i {:trigger s[i].hhPrev} | 0 < i < |s| :: s[i].hhPrev == s[i - 1]
    requires s != [] ==> s[0].hhPrev == e
    requires e.hhPrev == null && e.hhNext == At(s, 0)
    ensures Chain([e] + s, u)
  {
    var s' := [e] + s;
    assert Elements(s') <= u;
    forall i | 0 <= i < |s'|
      ensures s'[i].hhNext == (if i + 1 < |s'| then s'[i + 1] else null) &&
        s'[i].hhPrev == if i == 0 then null else s'[i - 1]
    {
      if i > 0 {
        assert s'[i] == s[i - 1];
      }
    }
  }

  // ----- HASH_DEL_IN_BKT

  method Unlink(t: Table, b: nat, del: Node, ghost k: nat, ghost chains: seq<seq<Node>>, ghost u: set<Node>)
    requires Buckets(t.buckets, chains, u) && Hashed(chains, u)
    requires b < |chains| && k < |chains[b]| && del == chains[b][k]
    modifies t.buckets, u`hhNext, u`hhPrev
    ensures Buckets(t.buckets, chains[b := Without(chains[b], k)], u) && t.buckets.Length == |chains|
    ensures forall i | 0 <= i < |chains| ::
      t.buckets[i].expandMult == old(t.buckets[i].expandMult) && t.buckets[i].count <= old(t.buckets[i].count)
  {
    ghost var s := chains[b];
    assert k > 0 ==> s[k - 1].hhNext == s[k];
    assert k + 1 < |s| ==> s[k + 1].hhPrev == s[k];
    assert del.hhNext == At(s, k + 1) && del.hhPrev == if k == 0 then null else s[k - 1];
    t.buckets[b] := t.buckets[b].(count := t.buckets[b].count - 1);
    if t.buckets[b].head == del {
      t.buckets[b] := t.buckets[b].(head := del.hhNext);
    }
    if del.hhPrev != null {
      del.hhPrev.hhNext := del.hhNext;
    }
    if del.hhNext != null {
      del.hhNext.hhPrev := del.hhPrev;
    }
    UnlinkedChain(s, k, u);
  }

  lemma UnlinkedChain(s: seq<Node>, k: nat, u: set<Node>)
    requires k < |s| && Distinct(s) && Elements(s) <= u
    requires forall i {:trigger s[i].hhNext} | 0 <= i < |s| && i != k ::
      s[i].hhNext == if i + 1 == k then At(s, k + 1) else At(s, i + 1)
    requires forall i {:trigger s[i].hhPrev} | 0 <= i < |s| && i != k ::
      s[i].hhPrev == if i == k + 1 then (if k == 0 then null else s[k - 1]) else if i == 0 then null else s[i - 1]
    ensures Chain(Without(s, k), u)
  {
    var r := Without(s, k);
    assert forall x | x in r :: x in s;
    forall i | 0 <= i < |r|
      ensures r[i] == s[if i < k then i else i + 1]
      ensures r[i].hhNext == (if i + 1 < |r| then r[i + 1] else null) &&
        r[i].hhPrev == if i == 0 then null else r[i - 1]
    {
      var j := if i < k then i else i + 1;
      assert r[i] == s[j];
    }
  }

  // ----- HASH_EXPAND_BUCKETS

  // What doubling n/2 buckets to n makes of an old chain s in new bucket b: the items that
  // hash there, in reverse order (each one is pushed onto the front).
  ghost function Dest(s: seq<Node>, b: nat, n: nat, u: set<Node>): seq<Node>
    requires n > 0 && Elements(s) <= u
    reads u`hashv
  {
    if s == [] then []
    else
      var l := |s| - 1;
      assert s[l] in Elements(s) && forall x | x in s[..l] :: x in Elements(s);
      (if BucketOf(s[l].hashv, n) == b then [s[l]] else []) + Dest(s[..l], b, n, u)
  }

  lemma {:induction false} DestMembers(s: seq<Node>, b: nat, n: nat, u: set<Node>)
    requires n > 0 && Elements(s) <= u
    ensures forall x :: x in Dest(s, b, n, u) <==> x in s && BucketOf(x.hashv, n) == b
  {
    if s != [] {
      var l := |s| - 1;
      assert s[l] in Elements(s) && forall x | x in s[..l] :: x in Elements(s);
      DestMembers(s[..l], b, n, u);
      assert s == s[..l] + [s[l]];
    }
  }

  // The new chains nc hold exactly the items src taken from the old buckets so far.
  ghost predicate Redistributed(nc: seq<seq<Node>>, src: seq<seq<Node>>, u: set<Node>)
    reads u`hashv
  {
    && |nc| == 2 * |src|
    && (forall c | 0 <= c < |src| :: Elements(src[c]) <= u)
    && (forall b {:trigger nc[b]} | 0 <= b < |nc| :: nc[b] == Dest(src[Origin(b, |src|)], b, |nc|, u))
  }

  ghost predicate Within2(nc: seq<seq<Node>>, moved: set<Node>) {
    forall b {:trigger nc[b]} | 0 <= b < |nc| :: forall x | x in nc[b] :: x in moved
  }

  // expand_mult is set exactly where a chain exceeds the ideal length.
  ghost predicate Multipliers(bs: array<Bucket>, nc: seq<seq<Node>>, ideal: nat)
    requires ideal > 0
    reads bs
  {
    && bs.Length == |nc|
    && (forall b {:trigger nc[b]} | 0 <= b < |nc| ::
         bs[b].expandMult == if |nc[b]| > ideal then |nc[b]| / ideal else 0)
  }

  // Body of the inner while loop: push one item onto its new chain.
  method MoveNode(t: Table, bs: array<Bucket>, e: Node, i: nat, ghost nc: seq<seq<Node>>, ghost u: set<Node>,
                  ghost moved: set<Node>)
    returns (ghost b: nat)
    requires t.numBuckets > 0 && IsPow2(t.numBuckets) && |nc| == 2 * t.numBuckets && bs != t.buckets
    requires Buckets(bs, nc, u) && Hashed(nc, u)
    requires t.idealChainMaxlen > 0 && Multipliers(bs, nc, t.idealChainMaxlen)
    requires e in u && Within2(nc, moved) && e !in moved
    requires BucketOf(e.hashv, t.numBuckets) == i
    modifies bs, t`nonidealItems, u`hhNext, u`hhPrev
    ensures b == BucketOf(e.hashv, 2 * t.numBuckets) < |nc| && Origin(b, t.numBuckets) == i
    ensures Buckets(bs, nc[b := [e] + nc[b]], u)
    ensures Multipliers(bs, nc[b := [e] + nc[b]], t.idealChainMaxlen)
    ensures t.nonidealItems == old(t.nonidealItems) + if |nc[b]| + 1 > t.idealChainMaxlen then 1 else 0
    ensures forall x | x in u && x != e && x !in moved :: x.hhNext == old(x.hhNext)
  {
    hide BucketOf, Origin, IsPow2;
    BucketSplits(e.hashv, t.numBuckets);
    var bkt := BucketOf(e.hashv, t.numBuckets * 2);
    b := bkt;
    var count := bs[bkt].count + 1;
    bs[bkt] := bs[bkt].(count := count);
    if count > t.idealChainMaxlen {
      t.nonidealItems := t.nonidealItems + 1;
      bs[bkt] := bs[bkt].(expandMult := count / t.idealChainMaxlen);
    }
    var hd := bs[bkt].head;
    assert nc[b] != [] ==> hd in Elements(nc[b]) && hd in nc[b];
    e.hhPrev := null;
    e.hhNext := hd;
    if hd != null {
      hd.hhPrev := e;
    }
    bs[bkt] := bs[bkt].(head := e);
    FrontLinked(e, nc[b], u);
  }

  // Moving e from old bucket i to new bucket b, on the level of the chains
  lemma MoveRedistributes(nc: seq<seq<Node>>, src: seq<seq<Node>>, e: Node, i: nat, b: nat, u: set<Node>)
    requires Redistributed(nc, src, u) && e in u && i < |src|
    requires b == BucketOf(e.hashv, |nc|) < |nc| && Origin(b, |src|) == i
    ensures Redistributed(nc[b := [e] + nc[b]], src[i := src[i] + [e]], u)
  {
    var nc', src' := nc[b := [e] + nc[b]], src[i := src[i] + [e]];
    assert forall x | x in Elements(src[i]) :: x in u;
    assert Elements(src'[i]) <= u;
    assert src'[i][..|src[i]|] == src[i];
    forall b' | 0 <= b' < |nc|
      ensures nc'[b'] == Dest(src'[Origin(b', |src|)], b', |nc|, u)
    {
      assert nc[b'] == Dest(src[Origin(b', |src|)], b', |nc|, u);
    }
  }

  lemma MoveHashed(nc: seq<seq<Node>>, e: Node, b: nat, u: set<Node>)
    requires Hashed(nc, u) && e in u && b == BucketOf(e.hashv, |nc|) < |nc|
    ensures Hashed(nc[b := [e] + nc[b]], u)
  {
  }

  // The state of the redistribution: src has been taken from the old buckets, nc is the result.
  ghost predicate Filling(t: Table, bs: array<Bucket>, nc: seq<seq<Node>>, src: seq<seq<Node>>, u: set<Node>,
                          moved: set<Node>)
    reads t, bs, u`hhNext, u`hhPrev, u`hashv
  {
    && t.numBuckets == |src| && |src| > 0 && IsPow2(|src|) && |nc| == 2 * |src|
    && t.idealChainMaxlen > 0
    && Buckets(bs, nc, u) && Hashed(nc, u) && Multipliers(bs, nc, t.idealChainMaxlen)
    && Redistributed(nc, src, u) && Within2(nc, moved)
    && t.nonidealItems == Overflow(nc, t.idealChainMaxlen)
    && Overflow(nc, 0) == Overflow(src, 0)
  }

  method FillNode(t: Table, bs: array<Bucket>, e: Node, i: nat, ghost nc: seq<seq<Node>>, ghost src: seq<seq<Node>>,
                  ghost u: set<Node>, ghost moved: set<Node>)
    returns (ghost nc': seq<seq<Node>>)
    requires bs != t.buckets && Filling(t, bs, nc, src, u, moved)
    requires e in u && e !in moved && BucketOf(e.hashv, t.numBuckets) == i < |src|
    modifies bs, t`nonidealItems, u`hhNext, u`hhPrev
    ensures Filling(t, bs, nc', src[i := src[i] + [e]], u, moved + {e})
    ensures forall x | x in u && x != e && x !in moved :: x.hhNext == old(x.hhNext)
  {
    hide Dest, Overflow, BucketOf, Buckets, Multipliers, Chain, Redistributed;
    ghost var b := MoveNode(t, bs, e, i, nc, u, moved);
    nc' := nc[b := [e] + nc[b]];
    MoveRedistributes(nc, src, e, i, b, u);
    MoveHashed(nc, e, b, u);
    OverflowUpdate(nc, b, [e] + nc[b], t.idealChainMaxlen);
    OverflowUpdate(nc, b, [e] + nc[b], 0);
    OverflowUpdate(src, i, src[i] + [e], 0);
  }

  // Inner while loop: empty old chain i.
  method MoveChain(t: Table, bs: array<Bucket>, i: nat, ghost s: seq<Node>, ghost nc0: seq<seq<Node>>,
                   ghost src0: seq<seq<Node>>, ghost u: set<Node>, ghost moved0: set<Node>)
    returns (ghost nc: seq<seq<Node>>)
    requires bs != t.buckets && Filling(t, bs, nc0, src0, u, moved0)
    requires i < |src0| && src0[i] == [] && i < t.buckets.Length && t.buckets[i].head == At(s, 0)
    requires Distinct(s) && Elements(s) <= u && ChainFrom(s, 0, u) && Elements(s) !! moved0
    requires forall x | x in s :: BucketOf(x.hashv, |src0|) == i
    modifies bs, t`nonidealItems, u`hhNext, u`hhPrev
    ensures Filling(t, bs, nc, src0[i := s], u, moved0 + Elements(s))
    ensures forall x | x in u && x !in moved0 + Elements(s) :: x.hhNext == old(x.hhNext)
  {
    hide Filling, BucketOf, Distinct;
    var thh := t.buckets[i].head;
    ghost var j, moved, src := 0, moved0, src0;
    nc := nc0;
    while thh != null
      invariant j <= |s| && thh == At(s, j)
      invariant ChainFrom(s, j, u)
      invariant src == src0[i := s[..j]] && moved == moved0 + Elements(s[..j])
      invariant Filling(t, bs, nc, src, u, moved)
      invariant forall x | x in u && x !in moved :: x.hhNext == old(x.hhNext)
      decreases |s| - j
    {
      var nxt := thh.hhNext;
      NextOfPrefix(s, j);
      FillingSize(t, bs, nc, src, u, moved);
      nc := FillNode(t, bs, thh, i, nc, src, u, moved);
      src, moved, j := src[i := src[i] + [s[j]]], moved + {s[j]}, j + 1;
      thh := nxt;
    }
    assert s[..j] == s;
  }

  lemma NextOfPrefix(s: seq<Node>, j: nat)
    requires Distinct(s) && j < |s|
    ensures s[..j + 1] == s[..j] + [s[j]] && Elements(s[..j + 1]) == Elements(s[..j]) + {s[j]}
    ensures s[j] in s && s[j] in Elements(s) && s[j] !in Elements(s[..j])
    ensures forall i | j < i < |s| :: s[i] in Elements(s) && s[i] != s[j] && s[i] !in Elements(s[..j])
  {
    ElementsAdd(s[..j], s[j]);
    assert s[..j + 1] == s[..j] + [s[j]];
  }

  lemma FillingSize(t: Table, bs: array<Bucket>, nc: seq<seq<Node>>, src: seq<seq<Node>>, u: set<Node>,
                    moved: set<Node>)
    requires Filling(t, bs, nc, src, u, moved)
    ensures t.numBuckets == |src| > 0
  {
  }

  // ceil(n / b), the comment of the source's claim for ideal_chain_maxlen
  ghost predicate IsCeilDiv(q: nat, n: nat, b: nat) {
    n <= q * b && (q > 0 ==> (q - 1) * b < n)
  }

  function Quotient(n: nat, d: nat): nat
    requires d > 0
  {
    n / d
  }

  // (n >> lb) + ((n & (b - 1)) ? 1 : 0)
  function IdealLength(n: nat, lb: nat, b: nat): nat
    requires b > 0
  {
    Quotient(n, Pow2(lb)) + (if And(n, b - 1) != 0 then 1 else 0)
  }

  lemma IdealLengthIsCeilDiv(n: nat, lb: nat, b: nat)
    requires b == Pow2(lb)
    ensures IsCeilDiv(IdealLength(n, lb, b), n, b)
    ensures n > 0 ==> IdealLength(n, lb, b) > 0
  {
    hide And, Pow2, IsCeilDiv;
    AndMask(n, lb);
    CeilDiv(n, b, n / b, n % b);
  }

  lemma CeilDiv(n: nat, b: nat, q: nat, r: nat)
    requires b > 0 && n == b * q + r && r < b
    ensures var c := q + if r != 0 then 1 else 0; IsCeilDiv(c, n, b) && (n > 0 ==> c > 0)
  {
    assert (q + 1) * b == b * q + b && (q - 1) * b == b * q - b;
  }

  // No item has been taken yet.
  lemma EmptyFilling(t: Table, bs: array<Bucket>, nc: seq<seq<Node>>, src: seq<seq<Node>>, u: set<Node>)
    requires t.numBuckets == |src| > 0 && IsPow2(|src|) && |nc| == 2 * |src| && bs.Length == |nc|
    requires t.idealChainMaxlen > 0 && t.nonidealItems == 0
    requires forall b | 0 <= b < |nc| :: nc[b] == [] && bs[b] == Bucket(null, 0, 0)
    requires forall c | 0 <= c < |src| :: src[c] == []
    ensures Filling(t, bs, nc, src, u, {})
  {
    OverflowEmpty(nc, t.idealChainMaxlen);
    OverflowEmpty(nc, 0);
    OverflowEmpty(src, 0);
  }

  // The for loop of the expansion: move every chain of the old table into the array bs.
  method MoveAll(t: Table, bs: array<Bucket>, ghost chains: seq<seq<Node>>, ghost nc0: seq<seq<Node>>,
                 ghost src0: seq<seq<Node>>, ghost u: set<Node>)
    returns (ghost nc: seq<seq<Node>>, ghost moved: set<Node>)
    requires bs != t.buckets && |src0| == |chains| && Filling(t, bs, nc0, src0, u, {})
    requires forall c | 0 <= c < |src0| :: src0[c] == []
    requires Buckets(t.buckets, chains, u) && Hashed(chains, u)
    modifies bs, t`nonidealItems, u`hhNext, u`hhPrev
    ensures Filling(t, bs, nc, chains, u, moved)
  {
    hide Filling, BucketOf, IsPow2, Buckets, Recorded, Hashed, Distinct, ChainFrom;
    FillingSize(t, bs, nc0, src0, u, {});
    ghost var next0: map<Node, Node?> := map x | x in u :: x.hhNext;
    RecordLinks(t.buckets, chains, u, next0);
    ghost var src := src0;
    nc, moved := nc0, {};
    for i := 0 to t.numBuckets
      invariant Filling(t, bs, nc, src, u, moved)
      invariant |src| == |chains| == t.numBuckets <= t.buckets.Length
      invariant forall c | 0 <= c < |src| :: src[c] == if c < i then chains[c] else []
      invariant forall x | x in u && x !in moved :: x.hhNext == next0[x]
      invariant forall x | x in moved :: x in u && BucketOf(x.hashv, |chains|) < i
    {
      ghost var s := chains[i];
      StillLinked(t.buckets, chains, i, u, moved, next0);
      nc := MoveChain(t, bs, i, s, nc, src, u, moved);
      src, moved := src[i := s], moved + Elements(s);
    }
    assert src == chains;
  }

  // next0 holds the hh_next links of the chains, and the buckets their heads.
  ghost predicate Recorded(bs: array<Bucket>, chains: seq<seq<Node>>, u: set<Node>, next0: map<Node, Node?>)
    reads bs
  {
    && bs.Length == |chains| && next0.Keys == u
    && forall c {:trigger chains[c]} | 0 <= c < |chains| ::
         && Distinct(chains[c]) && bs[c].head == At(chains[c], 0) && Elements(chains[c]) <= u
         && forall k {:trigger next0[chains[c][k]]} | 0 <= k < |chains[c]| ::
              chains[c][k] in Elements(chains[c]) && next0[chains[c][k]] == At(chains[c], k + 1)
  }

  lemma RecordLinks(bs: array<Bucket>, chains: seq<seq<Node>>, u: set<Node>, next0: map<Node, Node?>)
    requires Buckets(bs, chains, u) && next0 == map x | x in u :: x.hhNext
    ensures Recorded(bs, chains, u, next0)
  {
  }

  // An old chain of which nothing has moved is as it was.
  lemma StillLinked(bs: array<Bucket>, chains: seq<seq<Node>>, i: nat, u: set<Node>, moved: set<Node>,
                    next0: map<Node, Node?>)
    requires Recorded(bs, chains, u, next0) && i < |chains| && Hashed(chains, u)
    requires forall x | x in moved :: x in u && BucketOf(x.hashv, |chains|) < i
    requires forall x | x in u && x !in moved :: x.hhNext == next0[x]
    ensures Distinct(chains[i]) && Elements(chains[i]) <= u && ChainFrom(chains[i], 0, u)
    ensures Elements(chains[i]) !! moved && bs[i].head == At(chains[i], 0)
    ensures forall x | x in chains[i] :: x in u && BucketOf(x.hashv, |chains|) == i
  {
    hide BucketOf;
    var s := chains[i];
    assert Elements(s) !! moved;
    forall k {:trigger s[k].hhNext} | 0 <= k < |s|
      ensures s[k] in Elements(s) && s[k].hhNext == At(s, k + 1)
    {
      assert next0[s[k]] == At(s, k + 1);
    }
  }

  // What an expansion of chains leaves in the table: nothing lost or duplicated, and the
  // statistics exactly what their comments say.
  ghost predicate Expanded(t: Table, chains: seq<seq<Node>>, nc: seq<seq<Node>>, u: set<Node>)
    reads t, t.buckets, u`hhNext, u`hhPrev, u`hashv
  {
    && t.numBuckets == |nc| == 2 * |chains|
    && Buckets(t.buckets, nc, u) && Hashed(nc, u)
    && Redistributed(nc, chains, u) && Overflow(nc, 0) == Overflow(chains, 0)
    && t.idealChainMaxlen > 0 && IsCeilDiv(t.idealChainMaxlen, t.numItems, t.numBuckets)
    && t.nonidealItems == Overflow(nc, t.idealChainMaxlen)
    && Multipliers(t.buckets, nc, t.idealChainMaxlen)
  }

  // The closing bookkeeping of the expansion
  method AdoptBuckets(t: Table, newBuckets: array<Bucket>, ghost chains: seq<seq<Node>>, ghost nc: seq<seq<Node>>,
                      ghost u: set<Node>, ghost moved: set<Node>)
    requires Filling(t, newBuckets, nc, chains, u, moved)
    requires IsCeilDiv(t.idealChainMaxlen, t.numItems, 2 * t.numBuckets)
    modifies t`buckets, t`numBuckets, t`log2NumBuckets, t`ineffExpands, t`noexpand
    ensures t.buckets == newBuckets && t.log2NumBuckets == old(t.log2NumBuckets) + 1
    ensures Expanded(t, chains, nc, u)
    ensures t.ineffExpands == if t.nonidealItems > t.numItems / 2 then old(t.ineffExpands) + 1 else 0
    ensures t.noexpand == (old(t.noexpand) || t.ineffExpands > 1)
  {
    hide IsCeilDiv, Buckets, Hashed, Redistributed, Overflow, Multipliers;
    t.numBuckets := t.numBuckets * 2;
    t.log2NumBuckets := t.log2NumBuckets + 1;
    t.buckets := newBuckets;
    t.ineffExpands := if t.nonidealItems > t.numItems / 2 then t.ineffExpands + 1 else 0;
    if t.ineffExpands > 1 {
      t.noexpand := true;
    }
  }

  // Allocate the doubled bucket array and compute the ideal chain length.
  method StartExpansion(t: Table, ghost chains: seq<seq<Node>>, ghost u: set<Node>)
    returns (newBuckets: array<Bucket>, ghost nc: seq<seq<Node>>, ghost src: seq<seq<Node>>)
    requires t.numBuckets == |chains| == Pow2(t.log2NumBuckets) && t.numItems > 0
    modifies t`idealChainMaxlen, t`nonidealItems
    ensures fresh(newBuckets) && |src| == |chains| && forall c | 0 <= c < |src| :: src[c] == []
    ensures Filling(t, newBuckets, nc, src, u, {})
    ensures IsCeilDiv(t.idealChainMaxlen, t.numItems, 2 * t.numBuckets)
  {
    hide IdealLength, IsCeilDiv, Filling;
    newBuckets := new Bucket[2 * t.numBuckets](_ => Bucket(null, 0, 0));
    t.idealChainMaxlen := IdealLength(t.numItems, t.log2NumBuckets + 1, t.numBuckets * 2);
    t.nonidealItems := 0;
    IdealLengthIsCeilDiv(t.numItems, t.log2NumBuckets + 1, 2 * t.numBuckets);
    nc := seq(2 * |chains|, _ => []);
    src := seq(|chains|, _ => []);
    EmptyFilling(t, newBuckets, nc, src, u);
  }

  method ExpandBuckets(t: Table, ghost chains: seq<seq<Node>>, ghost u: set<Node>) returns (ghost nc: seq<seq<Node>>)
    requires Buckets(t.buckets, chains, u) && Hashed(chains, u)
    requires t.numBuckets == |chains| == Pow2(t.log2NumBuckets)
    requires t.numItems > 0
    modifies t, u`hhNext, u`hhPrev
    ensures t.numItems == old(t.numItems) && t.tail == old(t.tail) && t.bloom == old(t.bloom) && fresh(t.buckets)
    ensures t.log2NumBuckets == old(t.log2NumBuckets) + 1
    ensures Expanded(t, chains, nc, u)
    ensures t.buckets.Length == 2 * |chains| == |nc|
    ensures forall b | 0 <= b < |nc| ::
      t.buckets[b].expandMult == if |nc[b]| > t.idealChainMaxlen > 0 then |nc[b]| / t.idealChainMaxlen else 0
    ensures t.ineffExpands == if t.nonidealItems > t.numItems / 2 then old(t.ineffExpands) + 1 else 0
    ensures t.noexpand == (old(t.noexpand) || t.ineffExpands > 1)
  {
    hide IsCeilDiv, Filling, Expanded, Overflow, Dest;
    ghost var src, moved;
    var newBuckets;
    newBuckets, nc, src := StartExpansion(t, chains, u);
    nc, moved := MoveAll(t, newBuckets, chains, nc, src, u);
    AdoptBuckets(t, newBuckets, chains, nc, u, moved);
    MultipliersAre(t, chains, nc, u);
  }

  lemma MultipliersAre(t: Table, chains: seq<seq<Node>>, nc: seq<seq<Node>>, u: set<Node>)
    requires Expanded(t, chains, nc, u)
    ensures t.buckets.Length == 2 * |chains| == |nc| && t.idealChainMaxlen > 0
    ensures forall b | 0 <= b < |nc| ::
      t.buckets[b].expandMult == if |nc[b]| > t.idealChainMaxlen then |nc[b]| / t.idealChainMaxlen else 0
  {
    hide IsCeilDiv, Overflow, Redistributed, Hashed, Chain;
  }
}
