/** The singly linked list of `list.c`, on the `struct mmem` blocks it links in `mmem.c`. */
module ContikiList {
  import opened Seqs

  class Block {
    var next: Block?
    var size: nat
    var ptr: nat    // offset of the block's first byte in the arena
  }

  ghost function At(s: seq<Block>, i: nat): Block? {
    if i < |s| then s[i] else null
  }

  // The list behind the head pointer
  ghost predicate Linked(s: seq<Block>, head: Block?)
    reads Elements(s)`next
  {
    && head == At(s, 0) && Distinct(s)
    && forall i {:trigger s[i].next} | 0 <= i < |s| :: s[i] in Elements(s) && s[i].next == At(s, i + 1)
  }

  lemma LinkedDistinct(s: seq<Block>, head: Block?)
    requires Linked(s, head)
    ensures Distinct(s)
  {
  }

  // list_tail
  method Tail(head: Block?, ghost s: seq<Block>) returns (l: Block?)
    requires Linked(s, head)
    ensures l == if s == [] then null else s[|s| - 1]
  {
    if head == null {
      return null;
    }
    l := head;
    ghost var i := 0;
    while l.next != null
      invariant i < |s| && l == s[i]
      decreases |s| - i
    {
      l, i := l.next, i + 1;
    }
  }

  // The comment of list_tail promises the elements after the first one: the element returned is the
  // head of that rest exactly for lists of no or two elements.
  lemma TailIsRestIff(s: seq<Block>, head: Block?)
    requires Linked(s, head)
    ensures (if s == [] then null else s[|s| - 1]) == At(s, 1) <==> s == [] || |s| == 2
    ensures |s| == 1 ==> s[|s| - 1] != At(s, 1)
  {
  }

  // list_add
  method Add(head: Block?, item: Block, ghost s: seq<Block>) returns (newHead: Block?)
    requires Linked(s, head) && item !in s
    modifies item`next, Elements(s)`next
    ensures Linked(s + [item], newHead)
  {
    assert forall i | 0 <= i < |s| :: s[i] in s;
    item.next := null;
    assert Linked(s, head);
    var l := Tail(head, s);
    newHead := head;
    if l == null {
      newHead := item;
    } else {
      assert l in Elements(s);
      l.next := item;
    }
    AddLinked(s, item, newHead);
  }

  lemma AddLinked(s: seq<Block>, item: Block, head: Block?)
    requires Distinct(s) && item !in s && head == At(s + [item], 0) && item.next == null
    requires forall i {:trigger s[i].next} | 0 <= i < |s| :: s[i].next == if i + 1 < |s| then s[i + 1] else item
    ensures Linked(s + [item], head)
  {
    var r := s + [item];
    assert forall i | 0 <= i < |s| :: s[i] in s && r[i] == s[i];
    assert forall i | 0 <= i < |r| :: r[i] in Elements(r);
  }

  // list_remove; an item that is not on the list leaves it unchanged
  method Remove(head: Block?, item: Block, ghost s: seq<Block>) returns (newHead: Block?)
    requires Linked(s, head)
    modifies Elements(s)`next
    ensures item !in s ==> Linked(s, newHead)
    ensures forall k {:trigger s[k]} | 0 <= k < |s| && s[k] == item ::
      Linked(Without(s, k), newHead) && item.next == null
  {
    newHead := head;
    if head == null {
      return;
    }
    var l, r: Block? := head, null;
    ghost var i := 0;
    while l != null
      invariant i <= |s| && l == At(s, i) && r == (if i == 0 then null else s[i - 1]) && newHead == head
      invariant forall j | 0 <= j < i :: s[j] != item
      invariant Linked(s, head)
      decreases |s| - i
    {
      if l == item {
        assert s[i] in Elements(s) && (i > 0 ==> s[i - 1] in Elements(s));
        assert s[i].next == At(s, i + 1);
        if r == null {
          newHead := l.next;
        } else {
          r.next := l.next;
        }
        l.next := null;
        RemoveLinked(s, i, newHead);
        return;
      }
      r := l;
      l, i := l.next, i + 1;
    }
    assert forall k | 0 <= k < |s| :: s[k] != item;
  }

  lemma RemoveLinked(s: seq<Block>, k: nat, head: Block?)
    requires k < |s| && Distinct(s) && head == (if k == 0 then At(s, 1) else s[0])
    requires forall i {:trigger s[i].next} | 0 <= i < |s| && i != k ::
      s[i].next == if i + 1 == k then At(s, k + 1) else At(s, i + 1)
    ensures Linked(Without(s, k), head)
  {
    var r := Without(s, k);
    DistinctWithout(s, k);
    assert forall i | 0 <= i < |r| :: r[i] in Elements(r);
    forall i {:trigger r[i].next} | 0 <= i < |r|
      ensures r[i].next == At(r, i + 1)
    {
      assert r[i] == s[if i < k then i else i + 1];
    }
  }

  // list_push
  method Push(head: Block?, item: Block, ghost s: seq<Block>) returns (newHead: Block)
    requires Linked(s, head) && item !in s
    modifies item`next
    ensures Linked([item] + s, newHead)
  {
    ItemsAreElements(s);
    item.next := head;
    newHead := item;
    InsertLinked(s, 0, item, newHead);
  }

  // list_insert; without a previous item the new one goes to the front
  method Insert(head: Block?, previtem: Block?, newitem: Block, ghost s: seq<Block>, ghost k: nat)
    returns (newHead: Block?)
    requires Linked(s, head) && newitem !in s
    requires if previtem == null then k == 0 else 0 < k <= |s| && previtem == s[k - 1]
    modifies newitem`next, Elements(s)`next
    ensures Linked(s[..k] + [newitem] + s[k..], newHead)
  {
    if previtem == null {
      newHead := Push(head, newitem, s);
      assert s[..0] + [newitem] + s[0..] == [newitem] + s;
    } else {
      ItemsAreElements(s);
      assert s[k - 1].next == At(s, k);
      newitem.next := previtem.next;
      previtem.next := newitem;
      newHead := head;
      InsertLinked(s, k, newitem, newHead);
    }
  }

  lemma InsertLinked(s: seq<Block>, k: nat, item: Block, head: Block?)
    requires k <= |s| && Distinct(s) && item !in s && head == (if k == 0 then item else s[0])
    requires item.next == At(s, k)
    requires forall i {:trigger s[i].next} | 0 <= i < |s| :: s[i].next == if i + 1 == k then item else At(s, i + 1)
    ensures Linked(s[..k] + [item] + s[k..], head)
  {
    var r := s[..k] + [item] + s[k..];
    ItemsAreElements(r);
    forall i | 0 <= i < |s|
      ensures s[i] != item
    {
      assert s[i] in s;
    }
    forall i, j | 0 <= i < j < |r|
      ensures r[i] != r[j]
    {
    }
    forall i {:trigger r[i].next} | 0 <= i < |r|
      ensures r[i].next == At(r, i + 1)
    {
      assert i != k ==> r[i] == s[if i < k then i else i - 1];
    }
  }

  // list_chop
  method Chop(head: Block?, ghost s: seq<Block>) returns (newHead: Block?, last: Block?)
    requires Linked(s, head)
    modifies Elements(s)`next
    ensures last == if s == [] then null else s[|s| - 1]
    ensures Linked(if s == [] then [] else s[..|s| - 1], newHead)
  {
    if head == null {
      return null, null;
    }
    ItemsAreElements(s);
    if head.next == null {
      return null, head;
    }
    var l: Block := head;
    ghost var i := 0;
    while l.next.next != null
      invariant i + 1 < |s| && l == s[i]
      invariant Linked(s, head)
      decreases |s| - i
    {
      l, i := l.next, i + 1;
    }
    last := l.next;
    l.next := null;
    newHead := head;
    ItemsAreElements(s[..i + 1]);
  }

  // list_pop returns the new head, not the item taken off.
  method Pop(head: Block?, ghost s: seq<Block>) returns (newHead: Block?)
    requires Linked(s, head)
    ensures Linked(if s == [] then [] else s[1..], newHead)
  {
    newHead := head;
    if head != null {
      newHead := head.next;
      ItemsAreElements(s[1..]);
      assert s[0].next == At(s, 1);
      assert forall i | 0 <= i < |s| - 1 :: s[1..][i] == s[i + 1];
    }
  }

  // list_length
  method Length(head: Block?, ghost s: seq<Block>) returns (n: nat)
    requires Linked(s, head)
    ensures n == |s|
  {
    n := 0;
    var l := head;
    while l != null
      invariant n <= |s| && l == At(s, n)
      decreases |s| - n
    {
      n := n + 1;
      l := l.next;
    }
  }
}
