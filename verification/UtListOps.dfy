/** The doubly linked list operations of `utlist.h`.  The list is null-ended forward, and
    head->prev is the last node. */
module UtListOps {
  import opened Nodes
  import opened MergeTheory
  import opened Seqs
  import opened UtListSort

  class DList {
    var head: Node?
    ghost var nodes: seq<Node>

    ghost predicate Valid()
      reads this, nodes
    {
      DoublyLinked(nodes, head, null)
    }

    constructor ()
      ensures Valid() && nodes == []
    {
      head, nodes := null, [];
    }

    // DL_PREPEND
    method Prepend(add: Node)
      requires Valid() && add !in nodes
      modifies this, add`next, add`prev, Elements(nodes)`prev
      ensures Valid() && nodes == [add] + old(nodes)
    {
      hide Elements;
      ListFacts(nodes, head);
      add.next := head;
      if head != null {
        add.prev := head.prev;
        head.prev := add;
      } else {
        add.prev := add;
      }
      head := add;
      Rebuild([add] + nodes, head);
      nodes := [add] + nodes;
    }

    // DL_APPEND
    method Append(add: Node)
      requires Valid() && add !in nodes
      modifies this, add`next, add`prev, Elements(nodes)`next, Elements(nodes)`prev
      ensures Valid() && nodes == old(nodes) + [add]
    {
      hide Elements;
      ListFacts(nodes, head);
      if head != null {
        add.prev := head.prev;
        head.prev.next := add;
        head.prev := add;
        add.next := null;
      } else {
        head := add;
        head.prev := head;
        head.next := null;
      }
      Rebuild(nodes + [add], head);
      nodes := nodes + [add];
    }

    // DL_CONCAT
    method Concat(other: DList)
      requires Valid() && other.Valid() && other != this && Elements(nodes) !! Elements(other.nodes)
      modifies this, Elements(nodes)`next, Elements(nodes)`prev, Elements(other.nodes)`prev
      ensures Valid() && nodes == old(nodes) + other.nodes
    {
      hide Elements;
      ListFacts(nodes, head);
      ListFacts(other.nodes, other.head);
      ApartJoin(nodes, other.nodes);
      if other.head != null {
        if head != null {
          var tmp := other.head.prev;
          other.head.prev := head.prev;
          head.prev.next := other.head;
          head.prev := tmp;
        } else {
          head := other.head;
        }
      }
      Rebuild(nodes + other.nodes, head);
      nodes := nodes + other.nodes;
    }

    // DL_DELETE
    method Delete(del: Node, ghost k: nat)
      requires Valid() && k < |nodes| && del == nodes[k]
      modifies this, Elements(nodes)`next, Elements(nodes)`prev
      ensures Valid() && nodes == Without(old(nodes), k)
    {
      hide Elements;
      ListFacts(nodes, head);
      if del.prev == del {
        head := null;
      } else if del == head {
        del.next.prev := del.prev;
        head := del.next;
      } else {
        del.prev.next := del.next;
        if del.next != null {
          del.next.prev := del.prev;
        } else {
          head.prev := del.prev;
        }
      }
      RebuildWithout(nodes, k, head);
      nodes := Without(nodes, k);
    }

    // DL_REPLACE_ELEM
    method ReplaceElem(el: Node, add: Node, ghost k: nat)
      requires Valid() && k < |nodes| && el == nodes[k] && add !in nodes
      modifies this, add`next, add`prev, Elements(nodes)`next, Elements(nodes)`prev
      ensures Valid() && nodes == old(nodes)[k := add]
    {
      hide Elements;
      ListFacts(nodes, head);
      if head == el {
        head := add;
        add.next := el.next;
        if el.next == null {
          add.prev := add;
        } else {
          add.prev := el.prev;
          add.next.prev := add;
        }
      } else {
        add.next := el.next;
        add.prev := el.prev;
        add.prev.next := add;
        if el.next == null {
          head.prev := add;
        } else {
          add.next.prev := add;
        }
      }
      Rebuild(nodes[k := add], head);
      nodes := nodes[k := add];
    }

    // DL_PREPEND_ELEM
    method PrependElem(el: Node, add: Node, ghost k: nat)
      requires Valid() && k < |nodes| && el == nodes[k] && add !in nodes
      modifies this, add`next, add`prev, Elements(nodes)`next, Elements(nodes)`prev
      ensures Valid() && nodes == old(nodes)[..k] + [add] + old(nodes)[k..]
    {
      hide Elements;
      ListFacts(nodes, head);
      add.next := el;
      add.prev := el.prev;
      el.prev := add;
      if head == el {
        head := add;
      } else {
        add.prev.next := add;
      }
      Rebuild(nodes[..k] + [add] + nodes[k..], head);
      nodes := nodes[..k] + [add] + nodes[k..];
    }

    // DL_SORT
    method Sort(cmp: (Node, Node) -> int)
      requires Valid() && Preorder(cmp, Elements(nodes))
      modifies this, Elements(nodes)`next, Elements(nodes)`prev
      ensures Valid() && StableSortOf(nodes, old(nodes), cmp)
    {
      hide StableSortOf, Preorder;
      ghost var out;
      head, out := DLSort(head, cmp, nodes);
      nodes := out;
    }
  }

  lemma ListFacts(s: seq<Node>, head: Node?)
    requires DoublyLinked(s, head, null)
    ensures head == At(s, 0) && Distinct(s)
    ensures forall i {:trigger s[i].next} | 0 <= i < |s| :: s[i].next == At(s, i + 1)
    ensures forall i {:trigger s[i].prev} | 0 <= i < |s| :: s[i].prev == if i == 0 then s[|s| - 1] else s[i - 1]
    ensures forall i | 0 <= i < |s| :: s[i] in Elements(s)
  {
  }

  lemma ApartJoin(a: seq<Node>, b: seq<Node>)
    requires Distinct(a) && Distinct(b) && Elements(a) !! Elements(b)
    ensures forall i, j | 0 <= i < |a| && 0 <= j < |b| :: a[i] != b[j]
    ensures Distinct(a + b)
  {
    forall i, j | 0 <= i < |a| && 0 <= j < |b|
      ensures a[i] != b[j]
    {
      assert a[i] in Elements(a) && b[j] in Elements(b);
    }
  }

  lemma Rebuild(s: seq<Node>, head: Node?)
    requires head == At(s, 0) && Distinct(s)
    requires forall i {:trigger s[i].next} | 0 <= i < |s| :: s[i].next == At(s, i + 1)
    requires forall i {:trigger s[i].prev} | 0 <= i < |s| :: s[i].prev == if i == 0 then s[|s| - 1] else s[i - 1]
    ensures DoublyLinked(s, head, null)
  {
  }

  lemma RebuildWithout(s: seq<Node>, k: nat, head: Node?)
    requires k < |s| && Distinct(s) && head == (if |s| == 1 then null else s[if k == 0 then 1 else 0])
    requires forall i {:trigger s[i].next} | 0 <= i < |s| && i != k ::
      s[i].next == if i + 1 == k then At(s, k + 1) else At(s, i + 1)
    requires forall i {:trigger s[i].prev} | 0 <= i < |s| && i != k ::
      s[i].prev == if i == 0 || (i == 1 && k == 0) then s[if k + 1 == |s| then k - 1 else |s| - 1]
                   else if i == k + 1 then s[k - 1] else s[i - 1]
    ensures DoublyLinked(Without(s, k), head, null)
  {
    var r := Without(s, k);
    DistinctWithout(s, k);
    forall i {:trigger r[i].next} | 0 <= i < |r|
      ensures r[i].next == At(r, i + 1)
    {
      assert r[i] == s[if i < k then i else i + 1];
    }
    forall i {:trigger r[i].prev} | 0 <= i < |r|
      ensures r[i].prev == if i == 0 then r[|r| - 1] else r[i - 1]
    {
      assert r[i] == s[if i < k then i else i + 1];
    }
    Rebuild(r, head);
  }
}
