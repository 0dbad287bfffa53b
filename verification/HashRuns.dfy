/** Whole runs of the hash table of `hash.h`: every legal sequence of operations behaves as
    the same operations on a plain map, and the integrity check of the source passes after each. */
module HashRuns {
  import opened Nodes
  import opened MergeTheory
  import opened Seqs
  import opened UtHash
  import HashCheck

  // ----- Operations, and what they do to a plain map

  datatype Op = Insert(node: Node, key: Key) | Erase(key: Key) | Query(key: Key) | Order(cmp: (Node, Node) -> int)

  // Adds use new elements and absent keys, deletes present keys, sorts a total preorder.
  ghost predicate LegalOp(m: map<Key, Node>, op: Op) {
    match op
    case Insert(n, k) => k !in m && n !in m.Values
    case Erase(k) => k in m
    case Query(_) => true
    case Order(cmp) => Preorder(cmp, m.Values)
  }

  ghost function Apply(m: map<Key, Node>, op: Op): map<Key, Node> {
    match op
    case Insert(n, k) => m[k := n]
    case Erase(k) => m - {k}
    case Query(_) => m
    case Order(_) => m
  }

  // What it does to the application order: adds at the end, removals in place, sorts stable
  ghost function ApplyOrder(m: map<Key, Node>, items: seq<Node>, op: Op): seq<Node> {
    match op
    case Insert(n, _) => items + [n]
    case Erase(k) => if k in m && m[k] in items then Without(items, IndexOf(items, m[k])) else items
    case Query(_) => items
    case Order(cmp) => SortFrom(items, 1, cmp)
  }

  ghost function Answer(m: map<Key, Node>, op: Op): seq<Node?> {
    if op.Query? then [Lookup(m, op.key)] else []
  }

  ghost predicate Legal(m: map<Key, Node>, ops: seq<Op>)
    decreases |ops|
  {
    ops == [] || (LegalOp(m, ops[0]) && Legal(Apply(m, ops[0]), ops[1..]))
  }

  ghost function Final(m: map<Key, Node>, ops: seq<Op>): map<Key, Node>
    decreases |ops|
  {
    if ops == [] then m else Final(Apply(m, ops[0]), ops[1..])
  }

  ghost function Answers(m: map<Key, Node>, ops: seq<Op>): seq<Node?>
    decreases |ops|
  {
    if ops == [] then [] else Answer(m, ops[0]) + Answers(Apply(m, ops[0]), ops[1..])
  }

  ghost function FinalOrder(m: map<Key, Node>, items: seq<Node>, ops: seq<Op>): seq<Node>
    decreases |ops|
  {
    if ops == [] then items else FinalOrder(Apply(m, ops[0]), ApplyOrder(m, items, ops[0]), ops[1..])
  }

  // ----- What the plain map holds in the end

  predicate Binds(op: Op, k: Key) {
    (op.Insert? || op.Erase?) && op.key == k
  }

  // A key that no operation adds or deletes keeps its binding.
  lemma {:induction false} UnboundKeyKept(m: map<Key, Node>, ops: seq<Op>, k: Key)
    requires forall i | 0 <= i < |ops| :: !Binds(ops[i], k)
    ensures Lookup(Final(m, ops), k) == Lookup(m, k)
    decreases |ops|
  {
    if ops != [] {
      assert !Binds(ops[0], k) && forall i | 0 <= i < |ops| - 1 :: ops[1..][i] == ops[i + 1];
      UnboundKeyKept(Apply(m, ops[0]), ops[1..], k);
    }
  }

  // Otherwise the last such operation decides: an add leaves its element, a delete leaves none.
  lemma {:induction false} LastBindingWins(m: map<Key, Node>, ops: seq<Op>, i: nat, k: Key)
    requires i < |ops| && Binds(ops[i], k) && forall j | i < j < |ops| :: !Binds(ops[j], k)
    ensures Lookup(Final(m, ops), k) == if ops[i].Insert? then ops[i].node else null
    decreases |ops|
  {
    assert forall j | 0 <= j < |ops| - 1 :: ops[1..][j] == ops[j + 1];
    if i == 0 {
      UnboundKeyKept(Apply(m, ops[0]), ops[1..], k);
    } else {
      LastBindingWins(Apply(m, ops[0]), ops[1..], i - 1, k);
    }
  }

  // A find at the end of a run is answered by what the map holds then.
  lemma {:induction false} LastAnswer(m: map<Key, Node>, ops: seq<Op>, k: Key)
    ensures Answers(m, ops + [Query(k)]) == Answers(m, ops) + [Lookup(Final(m, ops), k)]
    ensures Final(m, ops + [Query(k)]) == Final(m, ops)
    decreases |ops|
  {
    var t := ops + [Query(k)];
    if ops == [] {
      assert t[0] == Query(k) && t[1..] == [];
    } else {
      assert t[0] == ops[0] && t[1..] == ops[1..] + [Query(k)];
      LastAnswer(Apply(m, ops[0]), ops[1..], k);
    }
  }

  ghost function NodesOf(ops: seq<Op>): set<Node> {
    set op | op in ops && op.Insert? :: op.node
  }

  ghost function NodeOf(op: Op): set<Node> {
    if op.Insert? then {op.node} else {}
  }

  lemma MapValues(items: seq<Node>)
    requires UniqueKeys(items)
    ensures MapOf(items).Values == Elements(items)
    ensures forall k | k in MapOf(items) :: MapOf(items)[k].key == k
  {
    MapOfItems(items);
    forall x
      ensures x in MapOf(items).Values <==> x in Elements(items)
    {
      if x in items {
        assert MapOf(items)[x.key] == x;
      }
    }
  }

  lemma WithoutSubset(items: seq<Node>, i: nat)
    requires i < |items|
    ensures Elements(Without(items, i)) <= Elements(items)
  {
  }

  lemma SortedMembers(items: seq<Node>, out: seq<Node>, cmp: (Node, Node) -> int)
    requires StableSortOf(out, items, cmp)
    ensures Elements(out) == Elements(items)
  {
    PermutationMembers(items, out);
  }

  lemma HasTable(h: Hash)
    requires h.Valid() && h.head != null
    ensures h.tbl != null
  {
  }

  // ----- One operation, carried out on the table

  method DoErase(h: Hash, key: Key)
    requires h.Valid() && UniqueKeys(h.items) && key in MapOf(h.items)
    modifies h, h.TableRepr(), Elements(h.items)
    ensures h.Valid() && UniqueKeys(h.items) && MapOf(h.items) == old(MapOf(h.items)) - {key}
    ensures h.items == ApplyOrder(old(MapOf(h.items)), old(h.items), Erase(key))
    ensures Elements(h.items) <= old(Elements(h.items)) && h.TableRepr() <= old(h.TableRepr())
  {
    hide UniqueKeys, MapOf, Hash.Valid;
    MapValues(h.items);
    var e := h.Find(key);
    ghost var i := IndexOf<Node>(h.items, e);
    WithoutSubset(h.items, i);
    h.Delete(e, i);
  }

  method DoOrder(h: Hash, cmp: (Node, Node) -> int)
    requires h.Valid() && UniqueKeys(h.items) && Preorder(cmp, MapOf(h.items).Values)
    modifies h, h.TableRepr(), Elements(h.items)
    ensures h.Valid() && UniqueKeys(h.items) && MapOf(h.items) == old(MapOf(h.items))
    ensures h.items == SortFrom(old(h.items), 1, cmp) && StableSortOf(h.items, old(h.items), cmp)
    ensures Elements(h.items) == old(Elements(h.items)) && h.TableRepr() == old(h.TableRepr())
  {
    hide UniqueKeys, MapOf, Preorder, StableSortOf, SortFrom, Hash.Valid;
    MapValues(h.items);
    ghost var items := h.items;
    h.Sort(cmp);
    SortedMembers(items, h.items, cmp);
    SortCorrect(items, cmp);
    StableSortUnique(items, h.items, SortFrom(items, 1, cmp), cmp);
  }

  method Step(h: Hash, op: Op) returns (answer: seq<Node?>)
    requires h.Valid() && UniqueKeys(h.items) && LegalOp(MapOf(h.items), op)
    modifies h, h.TableRepr(), Elements(h.items), NodeOf(op)
    ensures h.Valid() && UniqueKeys(h.items)
    ensures MapOf(h.items) == Apply(old(MapOf(h.items)), op)
    ensures h.items == ApplyOrder(old(MapOf(h.items)), old(h.items), op)
    ensures answer == Answer(old(MapOf(h.items)), op)
    ensures op.Insert? ==>
      h.items == old(h.items) + [op.node] && MapOf(h.items) == old(MapOf(h.items))[op.key := op.node]
    ensures op.Erase? ==> MapOf(h.items) == old(MapOf(h.items)) - {op.key}
    ensures op.Query? ==> answer == [Lookup(MapOf(h.items), op.key)] && h.items == old(h.items)
    ensures op.Order? ==> StableSortOf(h.items, old(h.items), op.cmp) && MapOf(h.items) == old(MapOf(h.items))
    ensures Elements(h.items) <= old(Elements(h.items)) + NodeOf(op)
    ensures fresh(h.TableRepr() - old(h.TableRepr()))
  {
    hide MapOf, UniqueKeys, Preorder, StableSortOf, SortFrom, Hash.Valid;
    MapValues(h.items);
    answer := [];
    match op {
      case Insert(n, k) =>
        ElementsAdd(h.items, n);
        h.Add(n, k);
      case Erase(k) =>
        DoErase(h, k);
      case Query(k) =>
        var e := h.Find(k);
        answer := [e];
      case Order(cmp) =>
        DoOrder(h, cmp);
    }
  }

  // One operation and the HASH_FSCK that follows it in a debug build
  method CheckedStep(h: Hash, op: Op) returns (answer: seq<Node?>, ok: bool)
    requires h.Valid() && UniqueKeys(h.items) && LegalOp(MapOf(h.items), op)
    modifies h, h.TableRepr(), Elements(h.items), NodeOf(op)
    ensures h.Valid() && UniqueKeys(h.items)
    ensures MapOf(h.items) == Apply(old(MapOf(h.items)), op)
    ensures h.items == ApplyOrder(old(MapOf(h.items)), old(h.items), op)
    ensures answer == Answer(old(MapOf(h.items)), op) && ok
    ensures Elements(h.items) <= old(Elements(h.items)) + NodeOf(op)
    ensures fresh(h.TableRepr() - old(h.TableRepr()))
  {
    hide MapOf, UniqueKeys, LegalOp, Apply, ApplyOrder, Answer, Hash.Valid;
    answer := Step(h, op);
    ok := HashCheck.FsckPasses(h);
  }

  // ----- Every run

  // Any legal run, with the expansions it triggers, answers every query as a plain map would.
  method Run(h: Hash, ops: seq<Op>) returns (answers: seq<Node?>, ok: bool)
    requires h.Valid() && UniqueKeys(h.items) && Legal(MapOf(h.items), ops)
    modifies h, h.TableRepr(), Elements(h.items), NodesOf(ops)
    ensures h.Valid() && UniqueKeys(h.items)
    ensures MapOf(h.items) == Final(old(MapOf(h.items)), ops)
    ensures h.items == FinalOrder(old(MapOf(h.items)), old(h.items), ops)
    ensures answers == Answers(old(MapOf(h.items)), ops) && ok
    ensures h.head != null ==> h.tbl != null && Bounded(h.tbl)
  {
    hide MapOf, UniqueKeys, LegalOp, Apply, ApplyOrder, Answer, Hash.Valid, Bounded;
    ghost var m0, items0 := MapOf(h.items), h.items;
    answers, ok := [], true;
    for k := 0 to |ops|
      invariant h.Valid() && UniqueKeys(h.items) && Legal(MapOf(h.items), ops[k..])
      invariant Final(MapOf(h.items), ops[k..]) == Final(m0, ops)
      invariant FinalOrder(MapOf(h.items), h.items, ops[k..]) == FinalOrder(m0, items0, ops)
      invariant answers + Answers(MapOf(h.items), ops[k..]) == Answers(m0, ops)
      invariant Elements(h.items) <= old(Elements(h.items)) + NodesOf(ops)
      invariant fresh(h.TableRepr() - old(h.TableRepr())) && ok
    {
      assert ops[k..][0] == ops[k] && ops[k..][1..] == ops[k + 1..];
      assert NodeOf(ops[k]) <= NodesOf(ops);
      var a, good := CheckedStep(h, ops[k]);
      answers, ok := answers + a, ok && good;
    }
    if h.head != null {
      HasTable(h);
      ValidIsBounded(h);
    }
  }
}
