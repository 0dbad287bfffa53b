/** The integrity check HASH_FSCK of `hash.h`: what it finds, and that it passes on every table
    that the operations of UtHash leave behind. */
module HashCheck {
  import opened Nodes
  import opened Seqs
  import opened UtListSort
  import opened HashChains
  import opened UtHash

  lemma {:induction false} OverflowSnoc(chains: seq<seq<Node>>, i: nat, k: nat)
    requires i < |chains|
    ensures Overflow(chains[..i + 1], k) == Overflow(chains[..i], k) + if |chains[i]| > k then |chains[i]| - k else 0
  {
    if i > 0 {
      assert chains[..i + 1][1..] == chains[1..][..i] && chains[..i][1..] == chains[1..][..i - 1];
      OverflowSnoc(chains[1..], i - 1, k);
    }
  }

  // ----- What the walks need: forward links that end, from wherever they start

  ghost predicate Walkable(t: Table, head: Node, items: seq<Node>, chains: seq<seq<Node>>, u: set<Node>)
    reads t, t.buckets, u`hhNext, Elements(items)`next
  {
    && t.numBuckets == t.buckets.Length == |chains|
    && (forall b {:trigger chains[b]} | 0 <= b < |chains| ::
         Elements(chains[b]) <= u && ChainFrom(chains[b], 0, u) && t.buckets[b].head == At(chains[b], 0))
    && items != [] && head == items[0]
    && forall i {:trigger items[i].next} | 0 <= i < |items| ::
      items[i] in Elements(items) && items[i].next == At(items, i + 1)
  }

  // ----- What the check is about

  ghost predicate BackLinked(s: seq<Node>, u: set<Node>)
    reads u`hhPrev
  {
    Elements(s) <= u && forall i {:trigger s[i].hhPrev} | 0 <= i < |s| ::
      s[i] in Elements(s) && s[i].hhPrev == if i == 0 then null else s[i - 1]
  }

  ghost predicate BucketConsistent(b: Bucket, s: seq<Node>, u: set<Node>)
    reads u`hhPrev
  {
    BackLinked(s, u) && b.count == |s|
  }

  ghost predicate OrderLinked(items: seq<Node>)
    reads Elements(items)`prev
  {
    forall i {:trigger items[i].prev} | 0 <= i < |items| ::
      items[i] in Elements(items) && items[i].prev == if i == 0 then null else items[i - 1]
  }

  // Back-links and counts of all buckets, the item count, and the back-links of the items
  ghost predicate Consistent(t: Table, items: seq<Node>, chains: seq<seq<Node>>, u: set<Node>)
    reads t, t.buckets, u`hhPrev, Elements(items)`prev
  {
    && t.buckets.Length == |chains|
    && (forall b {:trigger chains[b]} | 0 <= b < |chains| :: BucketConsistent(t.buckets[b], chains[b], u))
    && t.numItems == Overflow(chains, 0)
    && OrderLinked(items) && t.numItems == |items|
  }

  // ----- The check

  // Walk one bucket: back-links and length
  method CheckChain(head: Node?, ghost s: seq<Node>, ghost u: set<Node>) returns (ok: bool, count: nat)
    requires Elements(s) <= u && ChainFrom(s, 0, u) && head == At(s, 0)
    ensures ok <==> BackLinked(s, u)
    ensures ok ==> count == |s|
  {
    ItemsAreElements(s);
    var thh, prev: Node? := head, null;
    count, ok := 0, true;
    while thh != null
      invariant ok && count <= |s| && thh == At(s, count) && prev == (if count == 0 then null else s[count - 1])
      invariant forall i {:trigger s[i].hhPrev} | 0 <= i < count ::
        s[i].hhPrev == if i == 0 then null else s[i - 1]
      decreases |s| - count
    {
      assert s[count].hhNext == At(s, count + 1);
      if prev != thh.hhPrev {
        return false, count;
      }
      count := count + 1;
      prev := thh;
      thh := thh.hhNext;
    }
  }

  method CheckBuckets(t: Table, ghost head: Node, ghost items: seq<Node>, ghost chains: seq<seq<Node>>,
                      ghost u: set<Node>)
    returns (ok: bool)
    requires Walkable(t, head, items, chains, u)
    ensures ok <==> (t.numItems == Overflow(chains, 0) &&
      forall b {:trigger chains[b]} | 0 <= b < |chains| :: BucketConsistent(t.buckets[b], chains[b], u))
  {
    hide ChainFrom, Overflow, BackLinked, Elements;
    var count := 0;
    EmptyOverflow();
    assert chains[..0] == [];
    for i := 0 to t.numBuckets
      invariant count == Overflow(chains[..i], 0)
      invariant forall b {:trigger chains[b]} | 0 <= b < i :: BucketConsistent(t.buckets[b], chains[b], u)
    {
      OverflowSnoc(chains, i, 0);
      assert Elements(chains[i]) <= u && ChainFrom(chains[i], 0, u);
      var good, n := CheckChain(t.buckets[i].head, chains[i], u);
      if !good {
        assert !BucketConsistent(t.buckets[i], chains[i], u);
        return false;
      }
      count := count + n;
      if t.buckets[i].count != n {
        assert !BucketConsistent(t.buckets[i], chains[i], u);
        return false;
      }
    }
    assert chains[..t.numBuckets] == chains;
    ok := count == t.numItems;
  }

  lemma EmptyOverflow()
    ensures Overflow([], 0) == 0
  {
  }

  // Walk the application order: back-links and item count
  method CheckOrder(t: Table, head: Node, ghost items: seq<Node>, ghost chains: seq<seq<Node>>, ghost u: set<Node>)
    returns (ok: bool)
    requires Walkable(t, head, items, chains, u)
    ensures ok <==> OrderLinked(items) && t.numItems == |items|
  {
    ItemsAreElements(items);
    var count, prev: Node? := 0, null;
    var thh: Node? := head;
    while thh != null
      invariant count <= |items| && thh == At(items, count) && prev == (if count == 0 then null else items[count - 1])
      invariant forall i {:trigger items[i].prev} | 0 <= i < count ::
        items[i].prev == if i == 0 then null else items[i - 1]
      decreases |items| - count
    {
      assert items[count].next == At(items, count + 1);
      count := count + 1;
      if prev != thh.prev {
        assert !OrderLinked(items);
        return false;
      }
      prev := thh;
      thh := thh.next;
    }
    ok := count == t.numItems;
  }

  // HASH_FSCK on a non-empty table finds every inconsistency, and nothing else.
  method Fsck(t: Table, head: Node, ghost items: seq<Node>, ghost chains: seq<seq<Node>>, ghost u: set<Node>)
    returns (ok: bool)
    requires Walkable(t, head, items, chains, u)
    ensures ok <==> Consistent(t, items, chains, u)
  {
    hide OrderLinked, BucketConsistent, Overflow;
    ok := CheckBuckets(t, head, items, chains, u);
    if ok {
      assert forall x | x in Elements(items) :: x.next == old(x.next);
      ok := CheckOrder(t, head, items, chains, u);
    }
  }

  // ----- It passes on valid tables

  lemma LiveIsConsistent(t: Table, cfg: Config, head: Node, items: seq<Node>, chains: seq<seq<Node>>)
    requires Live(t, cfg, head, items, chains)
    ensures Walkable(t, head, items, chains, Elements(items)) && Consistent(t, items, chains, Elements(items))
    ensures t.tail == items[|items| - 1]
  {
    hide Overflow, Hashed, Placed, Stamped, Filter;
    forall b {:trigger chains[b]} | 0 <= b < |chains|
      ensures Chain(chains[b], Elements(items)) && BucketOk(t.buckets[b], chains[b])
    {
    }
  }

  // And a table that passes is linked as it should be: every chain both ways with the right count, and
  // the items in order both ways, as many as the chains hold.
  lemma ConsistentIsLinked(t: Table, head: Node, items: seq<Node>, chains: seq<seq<Node>>, u: set<Node>)
    requires Walkable(t, head, items, chains, u) && Consistent(t, items, chains, u)
    ensures forall b {:trigger chains[b]} | 0 <= b < |chains| ::
      Chain(chains[b], u) && t.buckets[b].head == At(chains[b], 0) && t.buckets[b].count == |chains[b]|
    ensures AppOrder(items, head, items[|items| - 1]) && |items| == t.numItems == Overflow(chains, 0)
  {
    hide Overflow;
    forall b {:trigger chains[b]} | 0 <= b < |chains|
      ensures Chain(chains[b], u)
    {
      assert BucketConsistent(t.buckets[b], chains[b], u);
      ItemsAreElements(chains[b]);
      DistinctByBackLinks(chains[b]);
    }
    ItemsAreElements(items);
    DistinctByPrev(items);
  }

  lemma {:induction false} DistinctUpTo(s: seq<Node>, i: nat, j: nat)
    requires i < j < |s| && s[i] == s[j]
    requires forall k {:trigger s[k].hhPrev} | 0 <= k < |s| :: s[k].hhPrev == if k == 0 then null else s[k - 1]
    ensures false
    decreases i
  {
    assert s[i].hhPrev == if i == 0 then null else s[i - 1];
    assert s[j].hhPrev == s[j - 1];
    if i > 0 {
      DistinctUpTo(s, i - 1, j - 1);
    }
  }

  // Right back-links make the nodes of a chain distinct.
  lemma DistinctByBackLinks(s: seq<Node>)
    requires forall k {:trigger s[k].hhPrev} | 0 <= k < |s| :: s[k].hhPrev == if k == 0 then null else s[k - 1]
    ensures Distinct(s)
  {
    forall i, j | 0 <= i < j < |s|
      ensures s[i] != s[j]
    {
      if s[i] == s[j] {
        DistinctUpTo(s, i, j);
      }
    }
  }

  lemma {:induction false} PrevDiffers(s: seq<Node>, i: nat, j: nat)
    requires i < j < |s| && s[i] == s[j]
    requires forall k {:trigger s[k].prev} | 0 <= k < |s| :: s[k].prev == if k == 0 then null else s[k - 1]
    ensures false
    decreases i
  {
    assert s[i].prev == if i == 0 then null else s[i - 1];
    assert s[j].prev == s[j - 1];
    if i > 0 {
      PrevDiffers(s, i - 1, j - 1);
    }
  }

  lemma DistinctByPrev(s: seq<Node>)
    requires forall k {:trigger s[k].prev} | 0 <= k < |s| :: s[k].prev == if k == 0 then null else s[k - 1]
    ensures Distinct(s)
  {
    forall i, j | 0 <= i < j < |s|
      ensures s[i] != s[j]
    {
      if s[i] == s[j] {
        PrevDiffers(s, i, j);
      }
    }
  }

  // Every table in a valid state, hence after every operation of Hash, passes the check.
  method FsckPasses(h: Hash) returns (ok: bool)
    requires h.Valid()
    ensures ok
  {
    hide Live, Walkable, Consistent;
    ok := true;
    if h.head != null {
      LiveHead(h.tbl, h.cfg, h.head, h.items, h.chains);
      LiveIsConsistent(h.tbl, h.cfg, h.head, h.items, h.chains);
      ok := Fsck(h.head.tbl, h.head, h.items, h.chains, Elements(h.items));
    }
  }
}
