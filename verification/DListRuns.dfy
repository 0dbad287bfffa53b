/** Whole runs of the doubly linked list operations of `utlist.h`: any valid sequence of them
    refines the same operations on a sequence. */
module DListRuns {
  import opened Nodes
  import opened MergeTheory
  import opened Seqs
  import opened UtListOps

  datatype Op =
    | Prepend(add: Node)
    | Append(add: Node)
    | Concat(adds: seq<Node>)          // with a second list, built from these nodes
    | Delete(el: Node)
    | Replace(el: Node, add: Node)
    | PrependElem(el: Node, add: Node)
    | Sort(cmp: (Node, Node) -> int)

  // Nodes added are new to the list, nodes named are on it, orders are total preorders.
  ghost predicate LegalOp(s: seq<Node>, op: Op) {
    match op
    case Prepend(add) => add !in s
    case Append(add) => add !in s
    case Concat(adds) => Distinct(adds) && Elements(s) !! Elements(adds)
    case Delete(el) => el in s
    case Replace(el, add) => el in s && add !in s
    case PrependElem(el, add) => el in s && add !in s
    case Sort(cmp) => Preorder(cmp, Elements(s))
  }

  ghost function Apply(s: seq<Node>, op: Op): seq<Node>
    requires LegalOp(s, op)
  {
    match op
    case Prepend(add) => [add] + s
    case Append(add) => s + [add]
    case Concat(adds) => s + adds
    case Delete(el) => Without(s, IndexOf(s, el))
    case Replace(el, add) => s[IndexOf(s, el) := add]
    case PrependElem(el, add) => s[..IndexOf(s, el)] + [add] + s[IndexOf(s, el)..]
    case Sort(cmp) => SortFrom(s, 1, cmp)
  }

  ghost predicate Legal(s: seq<Node>, ops: seq<Op>)
    decreases |ops|
  {
    ops == [] || (LegalOp(s, ops[0]) && Legal(Apply(s, ops[0]), ops[1..]))
  }

  ghost function Final(s: seq<Node>, ops: seq<Op>): seq<Node>
    requires Legal(s, ops)
    decreases |ops|
  {
    if ops == [] then s else Final(Apply(s, ops[0]), ops[1..])
  }

  ghost function NodesOf(op: Op): set<Node> {
    match op
    case Prepend(add) => {add}
    case Append(add) => {add}
    case Concat(adds) => Elements(adds)
    case Delete(_) => {}
    case Replace(_, add) => {add}
    case PrependElem(_, add) => {add}
    case Sort(_) => {}
  }

  ghost function AllNodesOf(ops: seq<Op>): set<Node> {
    set op, x | op in ops && x in NodesOf(op) :: x
  }

  lemma ApplyMembers(s: seq<Node>, op: Op)
    requires LegalOp(s, op)
    ensures Elements(Apply(s, op)) <= Elements(s) + NodesOf(op)
  {
    if op.Sort? {
      SortCorrect(s, op.cmp);
      PermutationMembers(s, SortFrom(s, 1, op.cmp));
    }
  }

  // ----- What is on the list in the end

  // The nodes an operation puts on the list, and those it takes off
  ghost function PutIn(op: Op): multiset<Node> {
    match op
    case Prepend(add) => multiset{add}
    case Append(add) => multiset{add}
    case Concat(adds) => multiset(adds)
    case Delete(_) => multiset{}
    case Replace(_, add) => multiset{add}
    case PrependElem(_, add) => multiset{add}
    case Sort(_) => multiset{}
  }

  ghost function TakenOff(op: Op): multiset<Node> {
    if op.Delete? || op.Replace? then multiset{op.el} else multiset{}
  }

  ghost function AllPutIn(ops: seq<Op>): multiset<Node> {
    if ops == [] then multiset{} else PutIn(ops[0]) + AllPutIn(ops[1..])
  }

  ghost function AllTakenOff(ops: seq<Op>): multiset<Node> {
    if ops == [] then multiset{} else TakenOff(ops[0]) + AllTakenOff(ops[1..])
  }

  lemma ApplyBalances(s: seq<Node>, op: Op)
    requires LegalOp(s, op)
    ensures multiset(Apply(s, op)) + TakenOff(op) == multiset(s) + PutIn(op)
  {
    hide SortFrom, Without, Preorder, Distinct;
    match op {
      case Delete(el) => WithoutMultiset(s, IndexOf(s, el));
      case Replace(el, add) => ReplacedMultiset(s, IndexOf(s, el), add);
      case PrependElem(el, add) => InsertedMultiset(s, IndexOf(s, el), add);
      case Sort(cmp) => SortCorrect(s, cmp);
      case _ =>
    }
  }

  lemma ReplacedMultiset(s: seq<Node>, i: nat, x: Node)
    requires i < |s|
    ensures multiset(s[i := x]) + multiset{s[i]} == multiset(s) + multiset{x}
  {
  }

  lemma InsertedMultiset(s: seq<Node>, i: nat, x: Node)
    requires i < |s|
    ensures multiset(s[..i] + [x] + s[i..]) == multiset(s) + multiset{x}
  {
    assert s == s[..i] + s[i..];
  }

  lemma Chained(s: multiset<Node>, a: multiset<Node>, f: multiset<Node>, in0: multiset<Node>, off0: multiset<Node>,
                ins: multiset<Node>, offs: multiset<Node>)
    requires a + off0 == s + in0 && f + offs == a + ins
    ensures f + (off0 + offs) == s + (in0 + ins)
  {
    assert f + (off0 + offs) == (f + offs) + off0 == (a + off0) + ins == s + (in0 + ins);
  }

  // No run loses or duplicates a node.
  lemma {:induction false} RunBalances(s: seq<Node>, ops: seq<Op>)
    requires Legal(s, ops)
    ensures multiset(Final(s, ops)) + AllTakenOff(ops) == multiset(s) + AllPutIn(ops)
    decreases |ops|
  {
    hide LegalOp, Apply, PutIn, TakenOff;
    if ops != [] {
      var t := Apply(s, ops[0]);
      ApplyBalances(s, ops[0]);
      RunBalances(t, ops[1..]);
      Chained(multiset(s), multiset(t), multiset(Final(t, ops[1..])), PutIn(ops[0]), TakenOff(ops[0]),
              AllPutIn(ops[1..]), AllTakenOff(ops[1..]));
    }
  }

  // The second list of a DL_CONCAT
  method Build(adds: seq<Node>) returns (l: DList)
    requires Distinct(adds)
    modifies Elements(adds)`next, Elements(adds)`prev
    ensures fresh(l) && l.Valid() && l.nodes == adds
  {
    hide Elements;
    ItemsAreElements(adds);
    l := new DList();
    for k := 0 to |adds|
      invariant fresh(l) && l.Valid() && l.nodes == adds[..k]
    {
      PrefixElements(adds, k);
      l.Append(adds[k]);
      assert adds[..k + 1] == adds[..k] + [adds[k]];
    }
    assert adds[..|adds|] == adds;
  }

  lemma PrefixElements(s: seq<Node>, k: nat)
    requires k < |s| && Distinct(s)
    ensures Elements(s[..k]) <= Elements(s) && s[k] !in s[..k]
  {
  }

  method DoSort(l: DList, cmp: (Node, Node) -> int)
    requires l.Valid() && Preorder(cmp, Elements(l.nodes))
    modifies l, Elements(l.nodes)`next, Elements(l.nodes)`prev
    ensures l.Valid() && l.nodes == SortFrom(old(l.nodes), 1, cmp) && StableSortOf(l.nodes, old(l.nodes), cmp)
  {
    hide Preorder, StableSortOf, SortFrom, DList.Valid;
    ghost var s := l.nodes;
    l.Sort(cmp);
    SortCorrect(s, cmp);
    StableSortUnique(s, l.nodes, SortFrom(s, 1, cmp), cmp);
  }

  method DoConcat(l: DList, adds: seq<Node>)
    requires l.Valid() && Distinct(adds) && Elements(l.nodes) !! Elements(adds)
    modifies l, Elements(l.nodes)`next, Elements(l.nodes)`prev, Elements(adds)`next, Elements(adds)`prev
    ensures l.Valid() && l.nodes == old(l.nodes) + adds
  {
    hide Distinct;
    var other := Build(adds);
    l.Concat(other);
  }

  method Step(l: DList, op: Op)
    requires l.Valid() && LegalOp(l.nodes, op)
    modifies l, Elements(l.nodes)`next, Elements(l.nodes)`prev, NodesOf(op)`next, NodesOf(op)`prev
    ensures l.Valid() && l.nodes == Apply(old(l.nodes), op)
    ensures op.Prepend? ==> l.nodes == [op.add] + old(l.nodes)
    ensures op.Append? ==> l.nodes == old(l.nodes) + [op.add]
    ensures op.Concat? ==> l.nodes == old(l.nodes) + op.adds
    ensures op.Sort? ==> StableSortOf(l.nodes, old(l.nodes), op.cmp)
  {
    hide DList.Valid, Preorder, SortFrom, StableSortOf, Distinct;
    match op {
      case Prepend(add) => l.Prepend(add);
      case Append(add) => l.Append(add);
      case Concat(adds) => DoConcat(l, adds);
      case Delete(el) => l.Delete(el, IndexOf(l.nodes, el));
      case Replace(el, add) => l.ReplaceElem(el, add, IndexOf(l.nodes, el));
      case PrependElem(el, add) => l.PrependElem(el, add, IndexOf(l.nodes, el));
      case Sort(cmp) => DoSort(l, cmp);
    }
  }

  // Any valid sequence of operations
  method Run(l: DList, ops: seq<Op>)
    requires l.Valid() && Legal(l.nodes, ops)
    modifies l, Elements(l.nodes)`next, Elements(l.nodes)`prev, AllNodesOf(ops)`next, AllNodesOf(ops)`prev
    ensures l.Valid() && l.nodes == Final(old(l.nodes), ops)
  {
    hide DList.Valid, LegalOp, Apply, NodesOf;
    ghost var s0 := l.nodes;
    for k := 0 to |ops|
      invariant l.Valid() && Legal(l.nodes, ops[k..])
      invariant Final(l.nodes, ops[k..]) == Final(s0, ops)
      invariant Elements(l.nodes) <= old(Elements(l.nodes)) + AllNodesOf(ops)
    {
      assert ops[k..][0] == ops[k] && ops[k..][1..] == ops[k + 1..];
      assert NodesOf(ops[k]) <= AllNodesOf(ops);
      ApplyMembers(l.nodes, ops[k]);
      Step(l, ops[k]);
    }
  }
}
