/** The compacting allocator of `mmem.c`.  Blocks are handles; freeing one slides the bytes
    of all later blocks down and rewrites their pointers. */
module Mmem {
  import opened Seqs
  import opened ContikiList
  import opened MemCopy

  const MMEM_SIZE: nat := 2048

  // The sum of the sizes of the first i blocks
  ghost function Offset(s: seq<Block>, i: nat): nat
    requires i <= |s|
    reads Elements(s)`size
  {
    if i == 0 then 0
    else
      assert s[i - 1] in Elements(s);
      Offset(s, i - 1) + s[i - 1].size
  }

  // The blocks of s lie one behind the other from offset 0, without gap or overlap.
  ghost predicate Tiled(s: seq<Block>)
    reads Elements(s)`ptr, Elements(s)`size
  {
    forall i {:trigger s[i].ptr} | 0 <= i < |s| :: s[i] in Elements(s) && s[i].ptr == Offset(s, i)
  }

  lemma {:induction false} OffsetMonotone(s: seq<Block>, i: nat, j: nat)
    requires i < j <= |s|
    ensures Offset(s, i) + s[i].size <= Offset(s, j)
    decreases j
  {
    if i < j - 1 {
      OffsetMonotone(s, i, j - 1);
    }
  }

  lemma {:induction false} OffsetAdd(s: seq<Block>, m: Block, i: nat)
    requires i <= |s|
    ensures Offset(s + [m], i) == Offset(s, i)
  {
    if i > 0 {
      OffsetAdd(s, m, i - 1);
    }
  }

  lemma {:induction false} OffsetWithout(s: seq<Block>, k: nat, i: nat)
    requires k < |s| && i < |s|
    ensures Offset(Without(s, k), i) == if i < k then Offset(s, i) else Offset(s, i + 1) - s[k].size
    decreases i
  {
    if i > 0 {
      OffsetWithout(s, k, i - 1);
      assert Without(s, k)[i - 1] == s[if i - 1 < k then i - 1 else i];
    }
  }

  lemma TiledAdd(s: seq<Block>, m: Block)
    requires Tiled(s) && m.ptr == Offset(s, |s|)
    ensures Tiled(s + [m]) && Offset(s + [m], |s| + 1) == Offset(s, |s|) + m.size
  {
    hide Offset;
    var r := s + [m];
    ItemsAreElements(r);
    PlacesBefore(s);
    forall i {:trigger r[i].ptr} | 0 <= i < |r|
      ensures r[i].ptr == Offset(r, i)
    {
      OffsetAdd(s, m, i);
      assert r[i] == if i < |s| then s[i] else m;
    }
    OffsetAdd(s, m, |s|);
    LastOffset(r);
  }

  lemma LastOffset(s: seq<Block>)
    requires s != []
    ensures Offset(s, |s|) == Offset(s, |s| - 1) + s[|s| - 1].size
  {
  }

  // Every pointer behind block k rewritten, the block can be dropped.
  lemma TiledRemove(s: seq<Block>, k: nat)
    requires k < |s|
    requires forall i {:trigger s[i].ptr} | 0 <= i < |s| ::
      s[i].ptr == if i <= k then Offset(s, i) else Offset(s, i) - s[k].size
    ensures Tiled(Without(s, k)) && Offset(Without(s, k), |s| - 1) == Offset(s, |s|) - s[k].size
  {
    hide Offset, Without;
    var r := Without(s, k);
    ItemsAreElements(r);
    WithoutIndex(s, k);
    forall i {:trigger r[i].ptr} | 0 <= i < |r|
      ensures r[i].ptr == Offset(r, i)
    {
      OffsetWithout(s, k, i);
      var j := if i < k then i else i + 1;
      assert s[j].ptr == if j <= k then Offset(s, j) else Offset(s, j) - s[k].size;
    }
    OffsetWithout(s, k, |s| - 1);
  }

  // ----- What compaction does to the bytes

  lemma MoveKeepsBelow(mem: seq<bv8>, dest: nat, src: nat, n: nat, p: nat, size: nat)
    requires dest <= src && src + n <= |mem| && p + size <= dest
    ensures Moved(mem, dest, src, n)[p..p + size] == mem[p..p + size]
  {
  }

  lemma MoveShiftsAbove(mem: seq<bv8>, dest: nat, src: nat, n: nat, p: nat, size: nat)
    requires dest <= src <= p && p + size <= src + n <= |mem|
    ensures Moved(mem, dest, src, n)[p - (src - dest)..p - (src - dest) + size] == mem[p..p + size]
  {
    var r, q := Moved(mem, dest, src, n), p - (src - dest);
    var a, b := r[q..q + size], mem[p..p + size];
    forall i | 0 <= i < size
      ensures a[i] == b[i]
    {
      assert r[q + i] == mem[p + i];
    }
  }

  // The move of mmem_free: every block but number k keeps its bytes, at its new place.
  lemma CompactionKeepsBytes(s: seq<Block>, k: nat, mem: seq<bv8>, i: nat)
    requires k + 1 < |s| && i < |s| && i != k && Offset(s, |s|) <= |mem|
    ensures Offset(s, k) <= Offset(s, k + 1) <= Offset(s, |s|)
    ensures var n := Offset(s, |s|) - Offset(s, k + 1);
            var p := if i < k then Offset(s, i) else Offset(s, i) - s[k].size;
      && 0 <= p && p + s[i].size <= Offset(s, |s|) - s[k].size && Offset(s, i) + s[i].size <= |mem|
      && Moved(mem, Offset(s, k), Offset(s, k + 1), n)[p..p + s[i].size] == mem[Offset(s, i)..Offset(s, i) + s[i].size]
  {
    hide Offset, Moved;
    Layout(s, k, i);
    var dest, src, n := Offset(s, k), Offset(s, k + 1), Offset(s, |s|) - Offset(s, k + 1);
    if i < k {
      MoveKeepsBelow(mem, dest, src, n, Offset(s, i), s[i].size);
    } else {
      MoveShiftsAbove(mem, dest, src, n, Offset(s, i), s[i].size);
    }
  }

  // Where block i lies, seen from block k
  lemma Layout(s: seq<Block>, k: nat, i: nat)
    requires k + 1 < |s| && i < |s| && i != k
    ensures Offset(s, k) + s[k].size == Offset(s, k + 1) <= Offset(s, |s|)
    ensures Offset(s, i) + s[i].size <= Offset(s, |s|)
    ensures i < k ==> Offset(s, i) + s[i].size <= Offset(s, k)
    ensures i > k ==> Offset(s, k + 1) <= Offset(s, i)
  {
    OffsetMonotone(s, k + 1, |s|);
    OffsetMonotone(s, i, |s|);
    if i < k {
      OffsetMonotone(s, i, k);
    } else if i > k + 1 {
      OffsetMonotone(s, k + 1, i);
    }
  }

  // ----- The allocator

  class Allocator {
    var list: Block?           // mmemlist
    var avail: nat             // avail_memory
    const memory: array<bv8>
    ghost var live: seq<Block>

    // Live blocks tile the arena in list order; their sizes and avail add up to MMEM_SIZE.
    ghost predicate Valid()
      reads this, Elements(live)
    {
      && memory.Length == MMEM_SIZE
      && Linked(live, list) && Tiled(live)
      && Offset(live, |live|) + avail == MMEM_SIZE
    }

    // mmem_init
    constructor ()
      ensures Valid() && live == [] && fresh(memory) && avail == memory.Length == 2048
    {
      list, live := null, [];
      avail := MMEM_SIZE;
      memory := new bv8[MMEM_SIZE](_ => 0);
    }

    // mmem_alloc
    method Alloc(m: Block, size: nat) returns (ok: bool)
      requires Valid() && m !in live
      modifies this`list, this`avail, this`live, m, Elements(live)`next
      ensures Valid()
      ensures ok <==> Offset(old(live), |old(live)|) + size <= 2048
      ensures !ok ==> live == old(live) && avail == old(avail)
      ensures ok ==> live == old(live) + [m] && m.size == size && avail == old(avail) - size
      ensures ok ==> m.ptr + old(avail) == 2048
    {
      hide Offset, Tiled, Linked;
      if avail < size {
        return false;
      }
      assert m !in Elements(live);
      list := Add(list, m, live);
      m.ptr := MMEM_SIZE - avail;
      m.size := size;
      avail := avail - size;
      TiledAdd(live, m);
      live := live + [m];
      ok := true;
    }

    // A block's bytes; live blocks lie inside the arena (InArena)
    ghost function Bytes(b: Block): seq<bv8>
      reads b`ptr, b`size, memory
    {
      Slice(memory[..], b.ptr, b.size)
    }

    lemma InArena(b: Block)
      requires Valid() && b in live
      ensures b.ptr + b.size <= memory.Length && |Bytes(b)| == b.size
    {
      var i :| 0 <= i < |live| && live[i] == b;
      OffsetMonotone(live, i, |live|);
    }

    // memmove and the pointer loop of mmem_free
    method Compact(m: Block, ghost k: nat)
      requires Valid() && k < |live| && m == live[k]
      modifies memory, Elements(live)`ptr
      ensures forall i {:trigger live[i].ptr} | 0 <= i < |live| ::
        live[i].ptr == if i <= k then Offset(live, i) else Offset(live, i) - m.size
      ensures memory[..] == CompactedBytes(live, k, old(memory[..]))
    {
      hide Offset, Tiled, Linked, CompactedBytes, CopiedUp, Moved;
      PlacesBefore(live);
      Neighbour(live, list, k);
      CompactedIs(live, k, memory[..]);
      if m.next != null {
        MemMove(memory, m.ptr, m.next.ptr, MMEM_SIZE - avail - m.next.ptr);
        ghost var from, end := Offset(live, k + 1), Offset(live, |live|);
        CopiedUpMoves(old(memory[..]), Offset(live, k), from, end - from);
        ShiftPointers(m, live, k, list);
      }
    }

    // The rest of mmem_free: give the size back and unlink the block
    method Release(m: Block, ghost k: nat)
      requires memory.Length == MMEM_SIZE && Linked(live, list) && k < |live| && m == live[k]
      requires Offset(live, |live|) + avail == MMEM_SIZE
      requires forall i {:trigger live[i].ptr} | 0 <= i < |live| ::
        live[i].ptr == if i <= k then Offset(live, i) else Offset(live, i) - m.size
      modifies this`list, this`avail, this`live, Elements(live)`next
      ensures Valid() && live == Without(old(live), k) && avail == old(avail) + m.size
    {
      hide Offset, Tiled, Linked;
      ghost var s := live;
      TiledRemove(s, k);
      avail := avail + m.size;
      list := Remove(list, m, s);
      assert s[k] == m;
      live := Without(s, k);
      assert forall x | x in Elements(live) :: x.ptr == old(x.ptr) && x.size == old(x.size);
    }

    // mmem_free
    method Free(m: Block, ghost k: nat)
      requires Valid() && k < |live| && m == live[k]
      modifies this`list, this`avail, this`live, memory, Elements(live)`ptr, Elements(live)`next
      ensures Valid() && live == Without(old(live), k) && avail == old(avail) + m.size
      ensures forall b | b in live :: Bytes(b) == old(Bytes(b))
    {
      hide Offset, Tiled, Linked, CompactedBytes, Slice;
      ghost var s, mem := live, memory[..];
      PlacesBefore(s);
      Compact(m, k);
      KeptBytes(s, k, mem, memory[..]);
      Release(m, k);
      forall b | b in live
        ensures Bytes(b) == old(Bytes(b))
      {
        var i :| 0 <= i < |live| && live[i] == b;
        assert b == s[if i < k then i else i + 1];
      }
    }
  }

  ghost function Slice(mem: seq<bv8>, p: nat, n: nat): seq<bv8> {
    if p + n <= |mem| then mem[p..p + n] else []
  }

  // The arena after mmem_free has moved everything behind block k down.
  ghost function CompactedBytes(s: seq<Block>, k: nat, mem: seq<bv8>): seq<bv8>
    requires k < |s|
    reads Elements(s)`size
  {
    OffsetNext(s, k);
    if k + 1 < |s| && Offset(s, |s|) <= |mem| then
      Moved(mem, Offset(s, k), Offset(s, k + 1), Offset(s, |s|) - Offset(s, k + 1))
    else mem
  }

  lemma OffsetNext(s: seq<Block>, k: nat)
    requires k < |s|
    ensures Offset(s, k + 1) == Offset(s, k) + s[k].size && Offset(s, k + 1) <= Offset(s, |s|)
  {
    if k + 1 < |s| {
      OffsetMonotone(s, k + 1, |s|);
    }
  }

  lemma Neighbour(s: seq<Block>, head: Block?, k: nat)
    requires Linked(s, head) && k < |s|
    ensures s[k].next == At(s, k + 1)
  {
  }

  lemma CompactedIs(s: seq<Block>, k: nat, mem: seq<bv8>)
    requires k < |s| && Offset(s, |s|) <= |mem|
    ensures Offset(s, k) + s[k].size == Offset(s, k + 1) <= Offset(s, |s|)
    ensures k + 1 == |s| ==> CompactedBytes(s, k, mem) == mem
    ensures k + 1 < |s| ==>
      CompactedBytes(s, k, mem) == Moved(mem, Offset(s, k), Offset(s, k + 1), Offset(s, |s|) - Offset(s, k + 1))
  {
    hide Offset, Moved;
    OffsetNext(s, k);
  }

  lemma PlacesBefore(s: seq<Block>)
    requires Tiled(s)
    ensures forall i {:trigger s[i].ptr} | 0 <= i < |s| :: s[i].ptr == Offset(s, i)
  {
  }

  lemma KeptBytes(s: seq<Block>, k: nat, mem: seq<bv8>, mem': seq<bv8>)
    requires k < |s| && Offset(s, |s|) <= |mem| && mem' == CompactedBytes(s, k, mem)
    requires forall i {:trigger s[i].ptr} | 0 <= i < |s| ::
      s[i].ptr == if i <= k then Offset(s, i) else Offset(s, i) - s[k].size
    ensures forall i | 0 <= i < |s| && i != k :: Slice(mem', s[i].ptr, s[i].size) == Slice(mem, Offset(s, i), s[i].size)
  {
    hide Offset, Slice, CompactedBytes;
    forall i | 0 <= i < |s| && i != k
      ensures Slice(mem', s[i].ptr, s[i].size) == Slice(mem, Offset(s, i), s[i].size)
    {
      assert s[i].ptr == if i <= k then Offset(s, i) else Offset(s, i) - s[k].size;
      KeptSlice(s, k, mem, mem', i, s[i].ptr);
    }
  }

  lemma KeptSlice(s: seq<Block>, k: nat, mem: seq<bv8>, mem': seq<bv8>, i: nat, p: nat)
    requires k < |s| && Offset(s, |s|) <= |mem| && mem' == CompactedBytes(s, k, mem) && i < |s| && i != k
    requires p == if i <= k then Offset(s, i) else Offset(s, i) - s[k].size
    ensures Slice(mem', p, s[i].size) == Slice(mem, Offset(s, i), s[i].size)
  {
    hide Offset, Moved;
    if k + 1 < |s| {
      CompactionKeepsBytes(s, k, mem, i);
    }
  }

  // for(n = m->next; n != 0; n = n->next) n->ptr -= m->size
  method ShiftPointers(m: Block, ghost s: seq<Block>, ghost k: nat, head: Block?)
    requires Linked(s, head) && Tiled(s) && k < |s| && m == s[k]
    modifies Elements(s)`ptr
    ensures forall i {:trigger s[i].ptr} | 0 <= i < |s| ::
      s[i].ptr == if i <= k then Offset(s, i) else Offset(s, i) - m.size
  {
    hide Offset;
    assert s[k].next == At(s, k + 1);
    var n := m.next;
    ghost var j := k + 1;
    while n != null
      invariant k < j <= |s| && n == At(s, j)
      invariant forall i {:trigger s[i].ptr} | 0 <= i < |s| ::
        s[i].ptr == if i <= k || i >= j then Offset(s, i) else Offset(s, i) - m.size
      decreases |s| - j
    {
      LaterOffset(s, k, j);
      assert s[j].ptr == Offset(s, j) && s[j].next == At(s, j + 1);
      n.ptr := n.ptr - m.size;
      n, j := n.next, j + 1;
    }
  }

  lemma LaterOffset(s: seq<Block>, k: nat, j: nat)
    requires k < j < |s|
    ensures Offset(s, j) >= s[k].size
  {
    OffsetMonotone(s, k, j);
  }
}
