/** The hash table of `hash.h`: find, add, delete, sort and the integrity check, as
    operations on the caller's head pointer. */
module UtHash {
  import opened Bits
  import opened Nodes
  import opened MergeTheory
  import opened Seqs
  import opened UtListSort
  import opened HashChains
  import opened HashRoom
  import HashBloom

  const INITIAL_NUM_BUCKETS := 32
  const INITIAL_NUM_BUCKETS_LOG2 := 5

  // ----- The bucket index: what the table t knows about the nodes in items

  // Every item sits in the chain its hash value selects, the chains hold nothing else, and their
  // lengths are bounded.
  ghost predicate Index(t: Table, items: seq<Node>, chains: seq<seq<Node>>, u: set<Node>)
    reads t`numBuckets, t`log2NumBuckets, t`buckets, t`idealChainMaxlen, t`noexpand, t.buckets
    reads u`hhNext, u`hhPrev, u`hashv
  {
    && t.numBuckets == |chains| == Pow2(t.log2NumBuckets)
    && Buckets(t.buckets, chains, u) && Hashed(chains, u)
    && Placed(items, chains, u)
    && |items| == Overflow(chains, 0)
    && Roomy(t.buckets[..], t.idealChainMaxlen, t.noexpand)
  }

  ghost predicate Placed(items: seq<Node>, chains: seq<seq<Node>>, u: set<Node>)
    reads u`hashv
  {
    && |chains| > 0 && Elements(items) <= u
    && (forall b {:trigger chains[b]} | 0 <= b < |chains| :: forall x | x in chains[b] :: x in items)
    && (forall x | x in items ::
         x in Elements(items) && BucketOf(x.hashv, |chains|) < |chains| && x in chains[BucketOf(x.hashv, |chains|)])
  }

  // HASH_FIND_IN_BKT
  method FindInBucket(head: Node?, key: Key, ghost s: seq<Node>, ghost u: set<Node>) returns (out: Node?)
    requires Elements(s) <= u && ChainFrom(s, 0, u) && head == At(s, 0)
    ensures out == null ==> forall x | x in s :: x.key != key
    ensures out != null ==> out.key == key
    ensures out != null ==> exists j :: 0 <= j < |s| && s[j] == out && forall i | 0 <= i < j :: s[i].key != key
  {
    out := head;
    ghost var j := 0;
    while out != null
      invariant j <= |s| && out == At(s, j)
      invariant forall i | 0 <= i < j :: s[i].key != key
      decreases |s| - j
    {
      if out.key == key {
        break;
      }
      out := out.hhNext;
      j := j + 1;
    }
  }

  // ----- HASH_ADD_TO_BKT with the expansion it may trigger

  lemma PlacementFollows(items: seq<Node>, chains: seq<seq<Node>>, nc: seq<seq<Node>>, u: set<Node>)
    requires Placed(items, chains, u) && Redistributed(nc, chains, u) && IsPow2(|chains|)
    ensures Placed(items, nc, u)
  {
    var n := |chains|;
    forall b | 0 <= b < |nc|
      ensures forall x | x in nc[b] :: x in items
    {
      DestMembers(chains[Origin(b, n)], b, |nc|, u);
      assert nc[b] == Dest(chains[Origin(b, n)], b, |nc|, u);
    }
    forall x | x in items
      ensures x in Elements(items) && BucketOf(x.hashv, |nc|) < |nc| && x in nc[BucketOf(x.hashv, |nc|)]
    {
      BucketSplits(x.hashv, n);
      var b := BucketOf(x.hashv, |nc|);
      DestMembers(chains[Origin(b, n)], b, |nc|, u);
      assert nc[b] == Dest(chains[Origin(b, n)], b, |nc|, u);
    }
  }

  lemma PlacedAdd(items: seq<Node>, chains: seq<seq<Node>>, e: Node, b: nat, u: set<Node>)
    requires Placed(items, chains, u) && e in u && b == BucketOf(e.hashv, |chains|) < |chains|
    ensures Placed(items + [e], chains[b := [e] + chains[b]], u)
  {
    hide BucketOf;
    var s := items + [e];
    assert Elements(s) <= u by {
      assert forall x | x in s :: x in Elements(items) || x == e;
    }
    assert forall x | x in s :: x in items || x == e;
    assert forall x | x in items || x == e :: x in s;
  }

  lemma NotInChains(items: seq<Node>, chains: seq<seq<Node>>, e: Node, u: set<Node>)
    requires Placed(items, chains, u) && e !in items
    ensures !InChains(e, chains)
  {
  }

  // One more item with this hash value makes the table expand.
  ghost predicate Due(t: Table, hashv: nat)
    reads t`numBuckets, t`buckets, t`noexpand, t.buckets
  {
    && t.numBuckets > 0 && hashv % t.numBuckets < t.buckets.Length
    && var b := t.buckets[hashv % t.numBuckets];
       b.count + 1 >= (b.expandMult + 1) * BKT_CAPACITY_THRESH && !t.noexpand
  }

  method AddToBucket(t: Table, b: nat, e: Node, ghost items: seq<Node>, ghost chains: seq<seq<Node>>,
                     ghost u: set<Node>)
    returns (ghost nc: seq<seq<Node>>)
    requires Index(t, items, chains, u) && e in u && e !in items && b == BucketOf(e.hashv, |chains|)
    requires t.numItems == |items| + 1
    modifies t, t.buckets, u`hhNext, u`hhPrev
    ensures t.numItems == old(t.numItems) && t.tail == old(t.tail) && t.bloom == old(t.bloom)
    ensures t.buckets == old(t.buckets) || fresh(t.buckets)
    ensures Index(t, items + [e], nc, u)
    ensures b == e.hashv % |chains| < |chains|
    ensures old(b < t.buckets.Length && t.buckets[b].count + 1 >= (t.buckets[b].expandMult + 1) * 10 && !t.noexpand) ==>
      t.numBuckets == 2 * old(t.numBuckets) && Expanded(t, chains[b := [e] + chains[b]], nc, u) &&
      t.ineffExpands == (if t.nonidealItems > t.numItems / 2 then old(t.ineffExpands) + 1 else 0) &&
      t.noexpand == (t.ineffExpands > 1)
    ensures old(b < t.buckets.Length && (t.buckets[b].count + 1 < (t.buckets[b].expandMult + 1) * 10 || t.noexpand)) ==>
      t.numBuckets == old(t.numBuckets) && t.noexpand == old(t.noexpand) && t.ineffExpands == old(t.ineffExpands) &&
      t.buckets == old(t.buckets) && nc == chains[b := [e] + chains[b]]
    ensures old(b < t.buckets.Length)
  {
    hide Overflow, Placed, Hashed, BucketOf, IsCeilDiv, Redistributed, Multipliers, Buckets, Roomy;
    RoomForNext(t, items, chains, u);
    ghost var before := t.buckets[..];
    PowerOfTwo(t.log2NumBuckets);
    BucketInRange(e.hashv, |chains|);
    NotInChains(items, chains, e, u);
    PlacedAdd(items, chains, e, b, u);
    MoveHashed(chains, e, b, u);
    OverflowUpdate(chains, b, [e] + chains[b], 0);
    LinkFront(t, b, e, chains, u);
    nc := chains[b := [e] + chains[b]];
    if t.buckets[b].count >= (t.buckets[b].expandMult + 1) * BKT_CAPACITY_THRESH && !t.noexpand {
      ghost var c := nc;
      nc := ExpandBuckets(t, c, u);
      PlacementFollows(items + [e], c, nc, u);
      ExpandedRoomy(t, c, nc, u);
    } else {
      RoomyGrows(before, t.buckets[..], b, t.idealChainMaxlen, t.noexpand);
    }
  }

  // Unless it has stopped expanding, the table has at most twenty items per bucket after the next.
  lemma RoomForNext(t: Table, items: seq<Node>, chains: seq<seq<Node>>, u: set<Node>)
    requires Index(t, items, chains, u)
    ensures t.buckets.Length == |chains| > 0
    ensures !t.noexpand ==> |items| + 1 <= 20 * |chains|
  {
    hide Overflow, Placed, Hashed, Roomy, Chain;
    forall i | 0 <= i < |chains|
      ensures t.buckets[..][i].count == |chains[i]|
    {
      assert BucketOk(t.buckets[i], chains[i]);
    }
    TotalIsOverflow(t.buckets[..], chains);
    if !t.noexpand {
      RoomForOne(t.buckets[..], t.idealChainMaxlen);
    }
  }

  lemma PowerOfTwo(k: nat)
    ensures IsPow2(Pow2(k))
  {
  }

  // ----- HASH_DEL_IN_BKT on the index

  lemma PlacedRemove(items: seq<Node>, i: nat, chains: seq<seq<Node>>, b: nat, k: nat, u: set<Node>)
    requires Placed(items, chains, u) && Hashed(chains, u) && Distinct(items) && i < |items|
    requires b < |chains| && k < |chains[b]| && chains[b][k] == items[i] && Distinct(chains[b])
    ensures Placed(Without(items, i), chains[b := Without(chains[b], k)], u)
    ensures Hashed(chains[b := Without(chains[b], k)], u)
  {
    hide BucketOf;
    var r, cs := Without(items, i), chains[b := Without(chains[b], k)];
    WithoutMembers(items, i);
    WithoutMembers(chains[b], k);
    assert Elements(r) <= Elements(items);
    forall c {:trigger cs[c]} | 0 <= c < |cs|
      ensures forall x | x in cs[c] :: x in r
    {
      forall x | x in cs[c]
        ensures x in r
      {
        assert x in chains[c];
        assert items[i] in chains[b] && BucketOf(items[i].hashv, |chains|) == b;
        assert x != items[i];
      }
    }
    forall x | x in r
      ensures x in Elements(r) && BucketOf(x.hashv, |cs|) < |cs| && x in cs[BucketOf(x.hashv, |cs|)]
    {
      assert x in items && x in chains[BucketOf(x.hashv, |chains|)];
    }
  }

  lemma ChainOf(t: Table, items: seq<Node>, chains: seq<seq<Node>>, u: set<Node>, e: Node) returns (b: nat, k: nat)
    requires Index(t, items, chains, u) && e in items
    ensures b == BucketOf(e.hashv, |chains|) < |chains| && k < |chains[b]| && chains[b][k] == e && Distinct(chains[b])
  {
    hide BucketOf;
    b := BucketOf(e.hashv, |chains|);
    k :| 0 <= k < |chains[b]| && chains[b][k] == e;
    assert Chain(chains[b], u);
  }

  method DeleteFromBucket(t: Table, e: Node, ghost items: seq<Node>, ghost i: nat, ghost chains: seq<seq<Node>>,
                          ghost u: set<Node>)
    returns (ghost nc: seq<seq<Node>>)
    requires Index(t, items, chains, u) && Distinct(items) && i < |items| && e == items[i]
    modifies t.buckets, u`hhNext, u`hhPrev
    ensures Index(t, Without(items, i), nc, u)
  {
    hide Overflow, Placed, Hashed, BucketOf, Buckets, Roomy;
    ghost var before := t.buckets[..];
    ghost var b, k := ChainOf(t, items, chains, u, e);
    PlacedRemove(items, i, chains, b, k, u);
    OverflowUpdate(chains, b, Without(chains[b], k), 0);
    var bkt := BucketOf(e.hashv, t.numBuckets);
    Unlink(t, bkt, e, k, chains, u);
    RoomyShrinks(before, t.buckets[..], t.idealChainMaxlen, t.noexpand);
    nc := chains[b := Without(chains[b], k)];
  }

  lemma IndexGrows(t: Table, items: seq<Node>, chains: seq<seq<Node>>, u: set<Node>, u': set<Node>)
    requires Index(t, items, chains, u) && u <= u'
    ensures Index(t, items, chains, u')
  {
    hide BucketOf, Overflow;
    forall b {:trigger chains[b]} | 0 <= b < |chains|
      ensures Chain(chains[b], u')
    {
      assert Chain(chains[b], u);
    }
  }

  lemma IndexShrinks(t: Table, items: seq<Node>, chains: seq<seq<Node>>, u: set<Node>)
    requires Index(t, items, chains, u)
    ensures Index(t, items, chains, Elements(items))
  {
    hide BucketOf, Overflow;
    forall b {:trigger chains[b]} | 0 <= b < |chains|
      ensures Chain(chains[b], Elements(items))
    {
      assert Chain(chains[b], u);
      assert Elements(chains[b]) <= Elements(items);
    }
  }

  // ----- The application order

  // The items in insertion (or sorted) order, linked from head to tail and back
  ghost predicate AppOrder(items: seq<Node>, head: Node?, tail: Node?)
    reads Elements(items)`next, Elements(items)`prev
  {
    && items != [] && head == items[0] && tail == items[|items| - 1] && Distinct(items)
    && (forall i {:trigger items[i].next} | 0 <= i < |items| ::
         items[i] in Elements(items) && items[i].next == if i + 1 < |items| then items[i + 1] else null)
    && (forall i {:trigger items[i].prev} | 0 <= i < |items| ::
         items[i] in Elements(items) && items[i].prev == if i == 0 then null else items[i - 1])
  }

  // tail->next = add;  add->prev = tail;  tail = add
  method AppendNode(t: Table, add: Node, head: Node, ghost items: seq<Node>)
    requires AppOrder(items, head, t.tail) && add !in items && add.next == null
    modifies t`tail, add`prev, Elements(items)`next
    ensures AppOrder(items + [add], head, t.tail)
  {
    ItemsAreElements(items);
    t.tail.next := add;
    add.prev := t.tail;
    t.tail := add;
    AppendedOrder(items, add, head);
  }

  lemma AppendedOrder(items: seq<Node>, add: Node, head: Node)
    requires items != [] && head == items[0] && Distinct(items) && add !in items
    requires forall i {:trigger items[i].next} | 0 <= i < |items| ::
      items[i].next == if i + 1 < |items| then items[i + 1] else add
    requires forall i {:trigger items[i].prev} | 0 <= i < |items| ::
      items[i].prev == if i == 0 then null else items[i - 1]
    requires add.next == null && add.prev == items[|items| - 1]
    ensures AppOrder(items + [add], head, add)
  {
    ItemsAreElements(items + [add]);
  }

  // The deletee's neighbours, tail and head are patched around it.
  method RemoveNode(t: Table, head: Node, del: Node, ghost items: seq<Node>, ghost i: nat) returns (newHead: Node)
    requires AppOrder(items, head, t.tail) && |items| > 1 && i < |items| && del == items[i]
    modifies t`tail, Elements(items)`next, Elements(items)`prev
    ensures AppOrder(Without(items, i), newHead, t.tail)
  {
    assert i > 0 ==> items[i - 1].next == del;
    assert i + 1 < |items| ==> items[i + 1].prev == del;
    newHead := head;
    if del == t.tail {
      t.tail := del.prev;
    }
    if del.prev != null {
      del.prev.next := del.next;
    } else {
      newHead := del.next;
    }
    if del.next != null {
      del.next.prev := del.prev;
    }
    RemovedOrder(items, i, newHead, t.tail);
  }

  lemma RemovedOrder(items: seq<Node>, k: nat, head: Node, tail: Node?)
    requires k < |items| && |items| > 1 && Distinct(items)
    requires head == items[if k == 0 then 1 else 0] && tail == items[if k + 1 == |items| then k - 1 else |items| - 1]
    requires forall i {:trigger items[i].next} | 0 <= i < |items| && i != k ::
      items[i].next == if i + 1 == k then At(items, k + 1) else At(items, i + 1)
    requires forall i {:trigger items[i].prev} | 0 <= i < |items| && i != k ::
      items[i].prev ==
        if i == k + 1 then (if k == 0 then null else items[k - 1]) else if i == 0 then null else items[i - 1]
    ensures AppOrder(Without(items, k), head, tail)
  {
    var r := Without(items, k);
    forall i | 0 <= i < |r|
      ensures r[i] == items[if i < k then i else i + 1] && r[i] in Elements(r)
      ensures r[i].next == (if i + 1 < |r| then r[i + 1] else null) && r[i].prev == if i == 0 then null else r[i - 1]
    {
      assert r[i] == items[if i < k then i else i + 1];
    }
  }

  // ----- The abstract map: what a plain dictionary of the items holds

  ghost predicate UniqueKeys(items: seq<Node>)
    reads Elements(items)`key
  {
    forall i, j {:trigger items[i].key, items[j].key} | 0 <= i < j < |items| ::
      items[i] in Elements(items) && items[j] in Elements(items) && items[i].key != items[j].key
  }

  ghost function MapOf(items: seq<Node>): map<Key, Node>
    reads Elements(items)`key
  {
    if items == [] then map[]
    else
      var l := |items| - 1;
      assert items[l] in Elements(items) && forall x | x in items[..l] :: x in Elements(items);
      MapOf(items[..l])[items[l].key := items[l]]
  }

  lemma UniqueKeysPrefix(items: seq<Node>, p: seq<Node>)
    requires UniqueKeys(items) && p <= items
    ensures UniqueKeys(p)
  {
    forall i, j {:trigger p[i].key, p[j].key} | 0 <= i < j < |p|
      ensures p[i] in Elements(p) && p[j] in Elements(p) && p[i].key != p[j].key
    {
      assert p[i] == items[i] && p[j] == items[j];
      assert items[i].key != items[j].key;
    }
  }

  lemma {:induction false} MapOfItems(items: seq<Node>)
    requires UniqueKeys(items)
    ensures forall x | x in items :: x.key in MapOf(items) && MapOf(items)[x.key] == x
    ensures forall k | k in MapOf(items) :: MapOf(items)[k] in items && MapOf(items)[k].key == k
  {
    hide UniqueKeys;
    if items != [] {
      var p, e := items[..|items| - 1], items[|items| - 1];
      UniqueKeysPrefix(items, p);
      MapOfItems(p);
      LastKeyIsNew(items, p, e);
      assert MapOf(items) == MapOf(p)[e.key := e];
    }
  }

  // MapOf is the only such map.
  lemma MapOfIs(items: seq<Node>, m: map<Key, Node>)
    requires UniqueKeys(items)
    requires forall x | x in items :: x.key in m && m[x.key] == x
    requires forall k | k in m :: m[k] in items && m[k].key == k
    ensures MapOf(items) == m
  {
    hide UniqueKeys, MapOf;
    MapOfItems(items);
    var m' := MapOf(items);
    assert forall k | k in m' :: k in m && m[k] == m'[k];
    assert forall k | k in m :: k in m' && m[k] == m'[k];
  }

  lemma LastKeyIsNew(items: seq<Node>, p: seq<Node>, e: Node)
    requires UniqueKeys(items) && items == p + [e]
    ensures forall x | x in p :: x.key != e.key
    ensures forall x | x in items :: x in p || x == e
  {
    forall x | x in p
      ensures x.key != e.key
    {
      var i :| 0 <= i < |p| && p[i] == x;
      assert items[i].key != items[|p|].key;
    }
  }

  // A map is determined by its items, so permuting them does not change it.
  lemma MapOfSameItems(items: seq<Node>, out: seq<Node>)
    requires UniqueKeys(items) && UniqueKeys(out) && forall x :: x in items <==> x in out
    ensures MapOf(items) == MapOf(out)
  {
    hide UniqueKeys, MapOf;
    MapOfItems(out);
    MapOfIs(items, MapOf(out));
  }

  lemma KeysFromMembers(items: seq<Node>, out: seq<Node>)
    requires UniqueKeys(items) && Distinct(out) && forall x | x in out :: x in items
    ensures UniqueKeys(out)
  {
    forall i, j | 0 <= i < j < |out|
      ensures out[i] in Elements(out) && out[j] in Elements(out) && out[i].key != out[j].key
    {
      assert out[i] in items && out[j] in items;
    }
  }

  lemma MapAdd(items: seq<Node>, add: Node)
    requires UniqueKeys(items) && forall x | x in items :: x.key != add.key
    ensures UniqueKeys(items + [add]) && MapOf(items + [add]) == MapOf(items)[add.key := add]
  {
    var s := items + [add];
    assert s[..|items|] == items;
    forall i, j | 0 <= i < j < |s|
      ensures s[i] in Elements(s) && s[j] in Elements(s) && s[i].key != s[j].key
    {
      assert s[i] == items[i] && s[i] in items;
    }
  }

  lemma MapWithout(items: seq<Node>, i: nat)
    requires UniqueKeys(items) && Distinct(items) && i < |items|
    ensures UniqueKeys(Without(items, i)) && MapOf(Without(items, i)) == MapOf(items) - {items[i].key}
  {
    hide MapOf, UniqueKeys;
    var r := Without(items, i);
    WithoutMembers(items, i);
    DistinctWithout(items, i);
    KeysFromMembers(items, r);
    MapOfItems(items);
    assert items[i] in items;
    MapOfIs(r, MapOf(items) - {items[i].key});
  }

  // What HASH_FIND must answer for key
  ghost function Lookup(m: map<Key, Node>, key: Key): Node? {
    if key in m then m[key] else null
  }

  // ----- HASH_MAKE_TABLE

  method MakeTable(head: Node, nbits: nat, ghost u: set<Node>) returns (t: Table, ghost chains: seq<seq<Node>>)
    ensures fresh(t) && fresh(t.buckets) && fresh(t.bloom) && t.bloom as object != t.buckets
    ensures t.numItems == 0 && t.tail == head && t.bloom.Length == HashBloom.ByteLength(nbits)
    ensures Index(t, [], chains, u)
    ensures t.numBuckets == t.buckets.Length == 32 && forall b | 0 <= b < 32 :: t.buckets[b] == Bucket(null, 0, 0)
    ensures !t.noexpand && t.ineffExpands == t.nonidealItems == t.idealChainMaxlen == 0
    ensures forall h: nat :: !HashBloom.Test(t.bloom, nbits, h)
  {
    hide Index, HashBloom.Test;
    t := new Table();
    t.tail := head;
    t.numItems, t.idealChainMaxlen, t.nonidealItems, t.ineffExpands, t.noexpand := 0, 0, 0, 0, false;
    t.numBuckets := INITIAL_NUM_BUCKETS;
    t.log2NumBuckets := INITIAL_NUM_BUCKETS_LOG2;
    t.buckets := new Bucket[INITIAL_NUM_BUCKETS](_ => Bucket(null, 0, 0));
    t.bloom := new bv8[HashBloom.ByteLength(nbits)](_ => 0);
    chains := seq(INITIAL_NUM_BUCKETS, _ => []);
    EmptyIndex(t, chains, u);
    forall h: nat
      ensures !HashBloom.Test(t.bloom, nbits, h)
    {
      HashBloom.EmptyRejects(t.bloom, nbits, h);
    }
  }

  lemma EmptyIndex(t: Table, chains: seq<seq<Node>>, u: set<Node>)
    requires t.numBuckets == |chains| == t.buckets.Length == INITIAL_NUM_BUCKETS &&
      t.log2NumBuckets == INITIAL_NUM_BUCKETS_LOG2
    requires forall b | 0 <= b < |chains| :: chains[b] == [] && t.buckets[b] == Bucket(null, 0, 0)
    requires t.idealChainMaxlen == 0
    ensures Index(t, [], chains, u)
  {
    hide Overflow;
    OverflowEmpty(chains, 0);
    EmptyRoomy(t.buckets[..]);
    assert Pow2(5) == 32;
  }

  lemma IndexSize(t: Table, items: seq<Node>, chains: seq<seq<Node>>, u: set<Node>)
    requires Index(t, items, chains, u)
    ensures t.numBuckets == |chains| > 0
  {
  }

  // ----- A non-empty table

  // What a user fixes at compile time: the hash function (its value before masking), and
  // whether HASH_BLOOM is defined, and to what.
  datatype Config = Config(fcn: Key -> nat, useBloom: bool, nbits: nat)

  // Every item carries the hash value of its key and points to the table.
  ghost predicate Stamped(items: seq<Node>, t: Table, cfg: Config)
    reads Elements(items)`key, Elements(items)`hashv, Elements(items)`tbl
  {
    forall x | x in items :: x in Elements(items) && x.tbl == t && x.hashv == cfg.fcn(x.key)
  }

  // The Bloom filter lets every item through.
  ghost predicate Filter(items: seq<Node>, t: Table, cfg: Config)
    reads t`bloom, t.bloom, Elements(items)`hashv
  {
    cfg.useBloom ==>
      && t.bloom.Length == HashBloom.ByteLength(cfg.nbits)
      && forall x | x in items :: x in Elements(items) && HashBloom.Test(t.bloom, cfg.nbits, x.hashv)
  }

  ghost predicate Live(t: Table, cfg: Config, head: Node?, items: seq<Node>, chains: seq<seq<Node>>)
    reads t, t.buckets, t.bloom, Elements(items)
  {
    && AppOrder(items, head, t.tail)
    && t.numItems == |items|
    && Index(t, items, chains, Elements(items))
    && Stamped(items, t, cfg)
    && Filter(items, t, cfg)
    && t.bloom as object != t.buckets
  }

  // num_items++;  add->tbl = tbl;  add->hashv = the hash value of the key
  method Stamp(t: Table, cfg: Config, head: Node, add: Node, ghost items: seq<Node>, ghost chains: seq<seq<Node>>)
    requires Stamped(items, t, cfg) && add !in items
    requires AppOrder(items + [add], head, t.tail) && Index(t, items, chains, Elements(items)) && Filter(items, t, cfg)
    modifies t`numItems, add`tbl, add`hashv
    ensures t.numItems == old(t.numItems) + 1 && Stamped(items + [add], t, cfg)
    ensures add.hashv == cfg.fcn(add.key)
    ensures AppOrder(items + [add], head, t.tail) && Index(t, items, chains, Elements(items)) && Filter(items, t, cfg)
  {
    hide AppOrder, Index, Filter;
    ElementsAdd(items, add);
    assert add !in Elements(items);
    t.numItems := t.numItems + 1;
    add.tbl := t;
    add.hashv := cfg.fcn(add.key);
  }

  method PutInBucket(t: Table, cfg: Config, head: Node, add: Node, ghost items: seq<Node>, ghost chains: seq<seq<Node>>)
    returns (ghost nc: seq<seq<Node>>)
    requires Index(t, items, chains, Elements(items)) && add !in items && t.numItems == |items| + 1
    requires AppOrder(items + [add], head, t.tail) && Stamped(items + [add], t, cfg) && Filter(items, t, cfg)
    requires t.bloom as object != t.buckets
    modifies t, t.buckets
    modifies Elements(items + [add])`hhNext, Elements(items + [add])`hhPrev
    ensures t.bloom == old(t.bloom) && (t.buckets == old(t.buckets) || fresh(t.buckets))
    ensures t.numItems == old(t.numItems) && Index(t, items + [add], nc, Elements(items + [add]))
    ensures AppOrder(items + [add], head, t.tail) && Stamped(items + [add], t, cfg) && Filter(items, t, cfg)
    ensures t.numBuckets == if old(Due(t, add.hashv)) then 2 * old(t.numBuckets) else old(t.numBuckets)
    ensures !old(Due(t, add.hashv)) ==> t.noexpand == old(t.noexpand) && t.ineffExpands == old(t.ineffExpands)
  {
    hide AppOrder, Index, Filter, Stamped, BucketOf;
    ElementsAdd(items, add);
    IndexSize(t, items, chains, Elements(items));
    IndexGrows(t, items, chains, Elements(items), Elements(items + [add]));
    var bkt := BucketOf(add.hashv, t.numBuckets);
    nc := AddToBucket(t, bkt, add, items, chains, Elements(items + [add]));
  }

  method AddToFilter(t: Table, cfg: Config, head: Node, add: Node, ghost items: seq<Node>, ghost chains: seq<seq<Node>>)
    requires t.numItems == |items| + 1 && Index(t, items + [add], chains, Elements(items + [add]))
    requires AppOrder(items + [add], head, t.tail) && Stamped(items + [add], t, cfg) && Filter(items, t, cfg)
    requires t.bloom as object != t.buckets
    modifies t.bloom
    ensures Live(t, cfg, head, items + [add], chains)
  {
    hide HashBloom.Test, AppOrder, Index, Stamped;
    if cfg.useBloom {
      HashBloom.Add(t.bloom, cfg.nbits, add.hashv);
    }
    ElementsAdd(items, add);
  }

  // What holds between the two halves of HASH_ADD_KEYPTR: add is linked, but not yet indexed.
  ghost predicate Linked(t: Table, cfg: Config, head: Node, add: Node, items: seq<Node>, chains: seq<seq<Node>>)
    reads t, t.buckets, t.bloom, Elements(items + [add]), Elements(items)
  {
    && AppOrder(items + [add], head, t.tail) && add !in items
    && t.numItems == |items|
    && Index(t, items, chains, Elements(items))
    && Stamped(items, t, cfg) && Filter(items, t, cfg)
    && t.bloom as object != t.buckets
  }

  // The first half of HASH_ADD_KEYPTR into an empty table
  method LinkFirst(cfg: Config, add: Node, key: Key) returns (t: Table, ghost chains: seq<seq<Node>>)
    modifies add`next, add`key, add`prev, add`tbl
    ensures fresh(t) && fresh(t.buckets) && fresh(t.bloom)
    ensures Linked(t, cfg, add, add, [], chains) && add.key == key && add.tbl == t
    ensures t.numBuckets == 32 && !t.noexpand && t.ineffExpands == 0 && forall h: nat :: !Due(t, h)
  {
    hide Index, HashBloom.Test;
    add.next := null;
    add.key := key;
    add.prev := null;
    t, chains := MakeTable(add, cfg.nbits, Elements<Node>([]));
    add.tbl := t;
    assert [] + [add] == [add];
  }

  // The first half of HASH_ADD_KEYPTR into a non-empty table
  method LinkLast(t: Table, cfg: Config, head: Node, add: Node, key: Key, ghost items: seq<Node>,
                  ghost chains: seq<seq<Node>>)
    requires Live(t, cfg, head, items, chains) && add !in items
    modifies add`next, add`key, add`prev, t`tail, Elements(items)`next
    ensures Linked(t, cfg, head, add, items, chains) && add.key == key
  {
    hide Index, Stamped, Filter;
    assert add !in Elements(items);
    add.next := null;
    add.key := key;
    assert AppOrder(items, head, t.tail);
    hide AppOrder;
    AppendNode(t, add, head, items);
  }

  // The second half of HASH_ADD_KEYPTR: count, stamp, put into its bucket and the filter
  method Enter(t: Table, cfg: Config, head: Node, add: Node, ghost items: seq<Node>, ghost chains: seq<seq<Node>>)
    returns (ghost nc: seq<seq<Node>>)
    requires Linked(t, cfg, head, add, items, chains)
    modifies t, t.buckets, t.bloom, add`tbl, add`hashv
    modifies Elements(items + [add])`hhNext, Elements(items + [add])`hhPrev
    ensures Live(t, cfg, head, items + [add], nc)
    ensures t.bloom == old(t.bloom) && (t.buckets == old(t.buckets) || fresh(t.buckets))
    ensures t.numBuckets == if old(Due(t, cfg.fcn(add.key))) then 2 * old(t.numBuckets) else old(t.numBuckets)
    ensures !old(Due(t, cfg.fcn(add.key))) ==> t.noexpand == old(t.noexpand) && t.ineffExpands == old(t.ineffExpands)
  {
    hide AppOrder, Index, Stamped, Filter, Elements;
    Stamp(t, cfg, head, add, items, chains);
    nc := PutInBucket(t, cfg, head, add, items, chains);
    AddToFilter(t, cfg, head, add, items, nc);
  }

  // HASH_DELETE of an element that is not the only one: first the application order ...
  method Detach(t: Table, cfg: Config, head: Node, del: Node, ghost items: seq<Node>, ghost i: nat,
                ghost chains: seq<seq<Node>>)
    returns (newHead: Node)
    requires Live(t, cfg, head, items, chains) && |items| > 1 && i < |items| && del == items[i]
    modifies t`tail, Elements(items)`next, Elements(items)`prev
    ensures AppOrder(Without(items, i), newHead, t.tail)
    ensures Index(t, items, chains, Elements(items)) && Stamped(items, t, cfg) && Filter(items, t, cfg)
  {
    hide Index, AppOrder, Stamped, Filter;
    newHead := RemoveNode(t, head, del, items, i);
  }

  // ... then the bucket
  method Unindex(t: Table, cfg: Config, head: Node, del: Node, ghost items: seq<Node>, ghost i: nat,
                 ghost chains: seq<seq<Node>>)
    returns (ghost nc: seq<seq<Node>>)
    requires i < |items| && del == items[i] && Distinct(items) && t.bloom as object != t.buckets &&
      t.numItems == |items|
    requires AppOrder(Without(items, i), head, t.tail)
    requires Index(t, items, chains, Elements(items)) && Stamped(items, t, cfg) && Filter(items, t, cfg)
    modifies t`numItems, t.buckets, Elements(items)`hhNext, Elements(items)`hhPrev
    ensures Live(t, cfg, head, Without(items, i), nc)
  {
    hide Index, AppOrder, Stamped, Filter, Distinct;
    StampedWithout(t, cfg, items, i);
    nc := DeleteFromBucket(t, del, items, i, chains, Elements(items));
    t.numItems := t.numItems - 1;
    IndexShrinks(t, Without(items, i), nc, Elements(items));
  }

  lemma StampedWithout(t: Table, cfg: Config, items: seq<Node>, i: nat)
    requires i < |items| && Distinct(items) && Stamped(items, t, cfg) && Filter(items, t, cfg)
    ensures Stamped(Without(items, i), t, cfg) && Filter(Without(items, i), t, cfg)
  {
    hide HashBloom.Test;
    WithoutMembers(items, i);
  }

  method Remove(t: Table, cfg: Config, head: Node, del: Node, ghost items: seq<Node>, ghost i: nat,
                ghost chains: seq<seq<Node>>)
    returns (newHead: Node, ghost nc: seq<seq<Node>>)
    requires Live(t, cfg, head, items, chains) && |items| > 1 && i < |items| && del == items[i]
    modifies t`tail, t`numItems, t.buckets, Elements(items)`next, Elements(items)`prev
    modifies Elements(items)`hhNext, Elements(items)`hhPrev
    ensures Live(t, cfg, newHead, Without(items, i), nc)
  {
    hide Index, AppOrder, Stamped, Filter, Distinct, Feed;
    AppOrderDistinct(items, head, t.tail);
    newHead := Detach(t, cfg, head, del, items, i, chains);
    nc := Unindex(t, cfg, newHead, del, items, i, chains);
  }

  lemma AppOrderDistinct(items: seq<Node>, head: Node?, tail: Node?)
    requires AppOrder(items, head, tail)
    ensures Distinct(items) && Feed(items, 0, null)
  {
  }

  lemma AppOrderEnds(items: seq<Node>, head: Node?, tail: Node?)
    requires AppOrder(items, head, tail)
    ensures items != [] && head == items[0] && tail == items[|items| - 1]
  {
  }

  // _hs_tail->next = NULL
  method EndList(list: Node, tail: Node, ghost out: seq<Node>)
    requires Built(out, list, tail) && Back(out, null) && Distinct(out) && out != []
    modifies Elements(out)`next
    ensures AppOrder(out, list, tail) && Feed(out, 0, null)
  {
    tail.next := null;
  }

  // One pass of HASH_SRT, with the list ended behind it
  method SortPass(list0: Node, insize: nat, cmp: (Node, Node) -> int, ghost inp: seq<Node>)
    returns (list: Node, tail: Node, nmerges: nat)
    requires insize > 0 && inp != [] && list0 == At(inp, 0) && Distinct(inp) && Feed(inp, 0, null)
    modifies Elements(inp)`next, Elements(inp)`prev
    ensures AppOrder(Pass(inp, insize, cmp), list, tail) && Feed(Pass(inp, insize, cmp), 0, null)
    ensures Distinct(Pass(inp, insize, cmp)) && Elements(Pass(inp, insize, cmp)) == Elements(inp)
    ensures nmerges <= 1 <==> |inp| <= 2 * insize
  {
    hide Pass, Merge, Built, Distinct, Back, Feed, AppOrder;
    PassKeepsNodes(inp, insize, cmp);
    list, tail, nmerges := DLMerges(list0, insize, cmp, inp);
    EndList(list, tail, Pass(inp, insize, cmp));
  }

  // HASH_SRT: relink the application order of items; merges as in DL_SORT, but null-ended both ways
  method SortOrder(head: Node, cmp: (Node, Node) -> int, ghost items: seq<Node>)
    returns (list: Node, tail: Node, ghost out: seq<Node>)
    requires items != [] && AppOrder(items, head, items[|items| - 1]) && Preorder(cmp, Elements(items))
    modifies Elements(items)`next, Elements(items)`prev
    ensures StableSortOf(out, items, cmp) && AppOrder(out, list, tail)
    ensures Elements(out) == Elements(items)
  {
    hide Pass, Merge, SortFrom, Preorder, StableSortOf, Built, Distinct, Back, Feed, AppOrder;
    AppOrderDistinct(items, head, items[|items| - 1]);
    AppOrderEnds(items, head, items[|items| - 1]);
    SortCorrect(items, cmp);
    var insize, looping := 1, true;
    list, tail, out := head, head, items;
    while looping
      invariant insize > 0 && out != [] && list == At(out, 0) && Distinct(out) && Feed(out, 0, null)
      invariant looping || AppOrder(out, list, tail)
      invariant Elements(out) == Elements(items) && |out| == |items|
      invariant (if looping then SortFrom(out, insize, cmp) else out) == SortFrom(items, 1, cmp)
      decreases looping, |items| - insize
    {
      var nmerges;
      SortFromStep(out, insize, cmp);
      list, tail, nmerges := SortPass(list, insize, cmp, out);
      out := Pass(out, insize, cmp);
      AppOrderEnds(out, list, tail);
      if nmerges <= 1 {
        looping := false;
      }
      insize := insize * 2;
    }
  }

  // Sorting the application order leaves the rest of the table valid.
  lemma LivePermuted(t: Table, cfg: Config, head: Node, items: seq<Node>, out: seq<Node>, chains: seq<seq<Node>>)
    requires Index(t, items, chains, Elements(items)) && multiset(out) == multiset(items)
    requires Stamped(items, t, cfg) && Filter(items, t, cfg)
    requires AppOrder(out, head, t.tail) && t.numItems == |items| && t.bloom as object != t.buckets
    ensures Live(t, cfg, head, out, chains)
  {
    hide BucketOf, Overflow, Buckets, Hashed, AppOrder, HashBloom.Test;
    PermutationMembers(items, out);
  }

  // The rest of HASH_SRT: publish the new tail and head
  method SortLive(t: Table, cfg: Config, head: Node, cmp: (Node, Node) -> int, ghost items: seq<Node>,
                  ghost chains: seq<seq<Node>>)
    returns (newHead: Node, ghost out: seq<Node>)
    requires Live(t, cfg, head, items, chains) && Preorder(cmp, Elements(items))
    modifies t`tail, Elements(items)`next, Elements(items)`prev
    ensures Live(t, cfg, newHead, out, chains) && StableSortOf(out, items, cmp)
  {
    hide Index, AppOrder, Stable, Sorted, Stamped, Filter, Preorder;
    AppOrderEnds(items, head, t.tail);
    var tail;
    newHead, tail, out := SortOrder(head, cmp, items);
    t.tail := tail;
    LivePermuted(t, cfg, newHead, items, out, chains);
  }

  // ----- The table behind the caller's head pointer

  class Hash {
    const cfg: Config
    var head: Node?
    ghost var items: seq<Node>
    ghost var chains: seq<seq<Node>>
    ghost var tbl: Table?

    constructor (cfg: Config)
      ensures Valid() && items == [] && this.cfg == cfg
    {
      this.cfg := cfg;
      head, items, chains, tbl := null, [], [], null;
    }

    ghost function TableRepr(): set<object>
      reads this, tbl
    {
      if tbl == null then {} else var t: Table := tbl; {t, t.buckets, t.bloom}
    }

    ghost predicate Valid()
      reads this, Elements(items), tbl, TableRepr()
    {
      if head == null then items == [] && tbl == null
      else tbl != null && Live(tbl, cfg, head, items, chains)
    }

    // HASH_FIND
    method Find(key: Key) returns (out: Node?)
      requires Valid()
      ensures out == null ==> forall x | x in items :: x.key != key
      ensures out != null ==> out in items && out.key == key
      ensures UniqueKeys(items) ==> out == Lookup(MapOf(items), key)
    {
      out := Search(key);
      if UniqueKeys(items) {
        MapOfItems(items);
      }
    }

    method Search(key: Key) returns (out: Node?)
      requires Valid()
      ensures out == null ==> forall x | x in items :: x.key != key
      ensures out != null ==> out in items && out.key == key
    {
      hide Overflow;
      out := null;
      if head != null {
        assert head in items;
        var t := head.tbl;
        var hashv := cfg.fcn(key);
        PowerOfTwo(t.log2NumBuckets);
        BucketInRange(hashv, t.numBuckets);
        var bkt := BucketOf(hashv, t.numBuckets);
        if !cfg.useBloom || HashBloom.Test(t.bloom, cfg.nbits, hashv) {
          assert Chain(chains[bkt], Elements(items));
          out := FindInBucket(t.buckets[bkt].head, key, chains[bkt], Elements(items));
        }
      }
    }

    // Publish the head of a valid table.
    method Become(h: Node, ghost t: Table, ghost items': seq<Node>, ghost chains': seq<seq<Node>>)
      requires Live(t, cfg, h, items', chains')
      modifies this`head, this`items, this`chains, this`tbl
      ensures Valid() && head == h && tbl == t && items == items' && chains == chains'
    {
      hide AppOrder, Index, Stamped, Filter;
      head := h;
      items, chains, tbl := items', chains', t;
    }

    // HASH_ADD_KEYPTR
    method Add(add: Node, key: Key)
      requires Valid() && add !in items
      modifies this, TableRepr(), Elements(items)`next, Elements(items)`hhNext, Elements(items)`hhPrev, add
      ensures Valid() && items == old(items) + [add] && add.key == key
      ensures old(UniqueKeys(items)) && key !in old(MapOf(items)) ==>
        UniqueKeys(items) && MapOf(items) == old(MapOf(items))[key := add]
      ensures fresh(TableRepr() - old(TableRepr()))
      ensures tbl != null && (old(tbl) != null ==> tbl == old(tbl))
      ensures old(tbl) == null ==> tbl.numBuckets == 32 && !tbl.noexpand && tbl.ineffExpands == 0
      ensures old(tbl) != null && old(tbl != null && Due(tbl, cfg.fcn(key))) ==>
        tbl.numBuckets == 2 * old(if tbl != null then tbl.numBuckets else 0)
      ensures old(tbl) != null && !old(tbl != null && Due(tbl, cfg.fcn(key))) ==>
        tbl.numBuckets == old(if tbl != null then tbl.numBuckets else 0) &&
        tbl.noexpand == old(tbl != null && tbl.noexpand)
    {
      hide Live, Linked, MapOf, UniqueKeys, Due;
      ElementsAdd(items, add);
      var t: Table, h: Node;
      ghost var nc;
      if head == null {
        h := add;
        t, nc := LinkFirst(cfg, add, key);
      } else {
        LiveHead(tbl, cfg, head, items, chains);
        t, h, nc := head.tbl, head, chains;
        LinkLast(t, cfg, h, add, key, items, chains);
      }
      nc := Enter(t, cfg, h, add, items, nc);
      if UniqueKeys(items) && key !in MapOf(items) {
        AbsentKey(items, key);
        MapAdd(items, add);
      }
      Become(h, t, items + [add], nc);
    }

    // HASH_DELETE
    method Delete(del: Node, ghost i: nat)
      requires Valid() && i < |items| && del == items[i]
      modifies this, TableRepr()
      modifies Elements(items)`next, Elements(items)`prev, Elements(items)`hhNext, Elements(items)`hhPrev
      ensures Valid() && items == Without(old(items), i)
      ensures old(UniqueKeys(items)) ==> UniqueKeys(items) && MapOf(items) == old(MapOf(items)) - {del.key}
      ensures TableRepr() <= old(TableRepr())
      ensures |items| == 0 <==> head == null
      ensures head != null ==>
        tbl == old(tbl) && old(tbl) != null &&
        tbl.numBuckets == old(if tbl != null then tbl.numBuckets else 0) &&
        tbl.noexpand == old(tbl != null && tbl.noexpand)
    {
      hide Live, UniqueKeys, MapOf;
      if UniqueKeys(items) {
        LiveDistinct(tbl, cfg, head, items, chains);
        MapWithout(items, i);
      }
      LiveHead(tbl, cfg, head, items, chains);
      LiveEnds(tbl, cfg, head, items, chains, i);
      if del.prev == null && del.next == null {
        assert Without(items, i) == [];
        head := null;
        items, chains, tbl := [], [], null;
        NoItems(items);
      } else {
        var h;
        ghost var nc;
        ghost var rest := Without(items, i);
        h, nc := Remove(head.tbl, cfg, head, del, items, i, chains);
        assert forall x | x in Elements(rest) :: x.key == old(x.key);
        Become(h, tbl, rest, nc);
      }
    }

    // HASH_SRT
    method Sort(cmp: (Node, Node) -> int)
      requires Valid() && Preorder(cmp, Elements(items))
      modifies this, tbl, Elements(items)`next, Elements(items)`prev
      ensures Valid() && StableSortOf(items, old(items), cmp)
      ensures old(UniqueKeys(items)) ==> UniqueKeys(items) && MapOf(items) == old(MapOf(items))
      ensures tbl == old(tbl) && chains == old(chains) && TableRepr() == old(TableRepr())
      ensures tbl != null ==>
        tbl.numBuckets == old(if tbl != null then tbl.numBuckets else 0) &&
        tbl.noexpand == old(tbl != null && tbl.noexpand)
    {
      hide Live, Preorder, Sorted, Stable, UniqueKeys, MapOf;
      if head != null {
        LiveHead(tbl, cfg, head, items, chains);
        var h;
        ghost var out;
        h, out := SortLive(head.tbl, cfg, head, cmp, items, chains);
        if UniqueKeys(items) {
          LiveDistinct(tbl, cfg, h, out, chains);
          PermutationMembers(items, out);
          KeysFromMembers(items, out);
          MapOfSameItems(items, out);
        }
        Become(h, tbl, out, chains);
      } else {
        SortNothing(items, cmp);
      }
    }

    // HASH_COUNT
    method Count() returns (n: nat)
      requires Valid()
      ensures n == |items|
    {
      if head != null {
        LiveHead(tbl, cfg, head, items, chains);
      }
      n := if head != null then head.tbl.numItems else 0;
    }
  }

  // The bound on chain lengths: unless the table has stopped expanding, no bucket has more than
  // (expand_mult + 1) * 10 items, and the ideal length of the last expansion was at most 10.
  ghost predicate Bounded(t: Table)
    reads t, t.buckets
  {
    t.noexpand ||
    (t.idealChainMaxlen <= 10 &&
     forall b | 0 <= b < t.buckets.Length :: t.buckets[b].count <= (t.buckets[b].expandMult + 1) * 10)
  }

  lemma ValidIsBounded(h: Hash)
    requires h.Valid() && h.head != null
    ensures Bounded(h.tbl)
    ensures h.tbl.noexpand || (h.tbl.idealChainMaxlen <= 10 &&
      forall b | 0 <= b < h.tbl.buckets.Length :: h.tbl.buckets[b].count <= (h.tbl.buckets[b].expandMult + 1) * 10)
  {
    hide Overflow, Placed, Hashed, Buckets, AppOrder, Stamped, Filter;
    var t: Table := h.tbl;
    forall b | 0 <= b < t.buckets.Length && !t.noexpand
      ensures t.buckets[b].count <= (t.buckets[b].expandMult + 1) * BKT_CAPACITY_THRESH
    {
      assert Moderate(t.buckets[..][b]);
    }
  }

  lemma LiveDistinct(t: Table, cfg: Config, head: Node?, items: seq<Node>, chains: seq<seq<Node>>)
    requires Live(t, cfg, head, items, chains)
    ensures Distinct(items)
  {
  }

  lemma AbsentKey(items: seq<Node>, key: Key)
    requires UniqueKeys(items) && key !in MapOf(items)
    ensures forall x | x in items :: x.key != key
  {
    MapOfItems(items);
  }

  lemma NoItems(items: seq<Node>)
    requires items == []
    ensures UniqueKeys(items) && MapOf(items) == map[]
  {
  }

  lemma SortNothing(items: seq<Node>, cmp: (Node, Node) -> int)
    requires items == []
    ensures StableSortOf(items, items, cmp)
  {
  }

  // An element without neighbours is the only one.
  lemma LiveEnds(t: Table, cfg: Config, head: Node?, items: seq<Node>, chains: seq<seq<Node>>, i: nat)
    requires Live(t, cfg, head, items, chains) && i < |items|
    ensures items[i].prev == null && items[i].next == null <==> |items| == 1
  {
  }

  lemma LiveHead(t: Table, cfg: Config, head: Node?, items: seq<Node>, chains: seq<seq<Node>>)
    requires Live(t, cfg, head, items, chains)
    ensures head != null && head in items && head.tbl == t
  {
  }
}
