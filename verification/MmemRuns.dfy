/** Whole runs of the allocator of `mmem.c`: to its users it is a store of separate blocks
    whose contents only their own writes change, however often it compacts. */
module MmemRuns {
  import opened Seqs
  import opened ContikiList
  import opened Mmem

  // mmem_alloc, mmem_free, and a user's write through MMEM_PTR
  datatype Op = Alloc(m: Block, size: nat) | Free(m: Block) | Poke(m: Block, at: nat, value: bv8)

  // What the users see: the bytes of every live block, and the free space
  datatype Store = Store(blocks: map<Block, seq<bv8>>, free: nat)

  ghost predicate LegalOp(s: Store, op: Op) {
    match op
    case Alloc(m, _) => m !in s.blocks
    case Free(m) => m in s.blocks
    case Poke(m, at, _) => m in s.blocks && at < |s.blocks[m]|
  }

  // One operation on the store; the initial bytes of a new block are not specified.
  ghost predicate StepTo(s: Store, op: Op, s': Store) {
    match op
    case Alloc(m, size) =>
      if size <= s.free then
        && s'.blocks.Keys == s.blocks.Keys + {m} && |s'.blocks[m]| == size
        && (forall b | b in s.blocks && b != m :: s'.blocks[b] == s.blocks[b])
        && s'.free == s.free - size
      else s' == s
    case Free(m) =>
      m in s.blocks && s' == Store(s.blocks - {m}, s.free + |s.blocks[m]|)
    case Poke(m, at, value) =>
      m in s.blocks && at < |s.blocks[m]| && s' == Store(s.blocks[m := s.blocks[m][at := value]], s.free)
  }

  ghost predicate Touches(op: Op, b: Block) {
    (op.Free? || op.Poke?) && op.m == b
  }

  ghost predicate IsRun(trace: seq<Store>, ops: seq<Op>) {
    |trace| == |ops| + 1 &&
    forall i {:trigger ops[i]} | 0 <= i < |ops| :: LegalOp(trace[i], ops[i]) && StepTo(trace[i], ops[i], trace[i + 1])
  }

  // Along any run of the store, a block that is neither freed nor written keeps its bytes.
  lemma {:induction false} UntouchedBlockKept(trace: seq<Store>, ops: seq<Op>, b: Block)
    requires IsRun(trace, ops) && b in trace[0].blocks
    requires forall i {:trigger ops[i]} | 0 <= i < |ops| :: !Touches(ops[i], b)
    ensures b in trace[|ops|].blocks && trace[|ops|].blocks[b] == trace[0].blocks[b]
    decreases |ops|
  {
    if ops != [] {
      var n := |ops| - 1;
      assert forall i | 0 <= i < n :: ops[..n][i] == ops[i];
      UntouchedBlockKept(trace[..n + 1], ops[..n], b);
      assert StepTo(trace[n], ops[n], trace[n + 1]);
    }
  }

  predicate Overwrites(op: Op, b: Block, at: nat) {
    op.m == b && (op.Free? || (op.Poke? && op.at == at))
  }

  // What was written last is there, unless the block has been freed.
  lemma {:induction false} LastPokeStays(trace: seq<Store>, ops: seq<Op>, k: nat, b: Block, at: nat, value: bv8)
    requires IsRun(trace, ops) && k < |ops| && ops[k] == Poke(b, at, value)
    requires forall j | k < j < |ops| :: !Overwrites(ops[j], b, at)
    ensures var s := trace[|ops|]; b in s.blocks && at < |s.blocks[b]| && s.blocks[b][at] == value
    decreases |ops|
  {
    var n := |ops| - 1;
    assert StepTo(trace[n], ops[n], trace[n + 1]) && LegalOp(trace[n], ops[n]);
    if k < n {
      assert forall i | 0 <= i < n :: ops[..n][i] == ops[i];
      assert IsRun(trace[..n + 1], ops[..n]);
      LastPokeStays(trace[..n + 1], ops[..n], k, b, at, value);
      assert !Overwrites(ops[n], b, at);
    }
  }

  // A request is granted exactly if it fits, and takes its size from the free space; freeing gives the
  // size back and ends the block.
  lemma SpaceTaken(s: Store, op: Op, s': Store)
    requires LegalOp(s, op) && StepTo(s, op, s')
    ensures op.Alloc? ==> (op.m in s'.blocks <==> op.size <= s.free)
    ensures op.Alloc? && op.m in s'.blocks ==> |s'.blocks[op.m]| == op.size && s'.free + op.size == s.free
    ensures op.Free? ==> op.m !in s'.blocks && s'.free == s.free + |s.blocks[op.m]|
    ensures op.Poke? ==> s'.blocks.Keys == s.blocks.Keys && s'.free == s.free
  {
  }

  // ----- The allocator as such a store

  ghost function View(a: Allocator): Store
    reads a, a.memory, Elements(a.live)
  {
    Store(map b | b in a.live :: assert b in Elements(a.live); a.Bytes(b), a.avail)
  }

  lemma ViewOf(a: Allocator, b: Block)
    requires a.Valid() && b in a.live
    ensures b in View(a).blocks && View(a).blocks[b] == a.Bytes(b) && |a.Bytes(b)| == b.size
  {
    a.InArena(b);
  }

  method DoAlloc(a: Allocator, m: Block, size: nat)
    requires a.Valid() && m !in a.live
    modifies a, m, Elements(a.live)
    ensures a.Valid() && StepTo(old(View(a)), Alloc(m, size), View(a))
    ensures Elements(a.live) <= old(Elements(a.live)) + {m}
  {
    hide Offset, Tiled, Linked, Slice;
    ghost var s := a.live;
    ElementsAdd(s, m);
    assert m !in Elements(s);
    var ok := a.Alloc(m, size);
    assert forall b | b in s :: a.Bytes(b) == old(a.Bytes(b));
    if ok {
      assert forall b :: b in a.live <==> b in s || b == m;
      a.InArena(m);
    }
  }

  method DoFree(a: Allocator, m: Block)
    requires a.Valid() && m in a.live
    modifies a, a.memory, Elements(a.live)
    ensures a.Valid() && StepTo(old(View(a)), Free(m), View(a))
    ensures Elements(a.live) <= old(Elements(a.live))
  {
    hide Offset, Tiled, Linked, Slice;
    ghost var s := a.live;
    a.InArena(m);
    ghost var k :| 0 <= k < |s| && s[k] == m;
    LinkedDistinct(s, a.list);
    WithoutMembers(s, k);
    a.Free(m, k);
    assert forall b :: b in a.live <==> b in s && b != m;
  }

  // A user's write into a live block
  method DoPoke(a: Allocator, m: Block, at: nat, value: bv8)
    requires a.Valid() && m in a.live && at < m.size
    modifies a.memory
    ensures a.Valid() && StepTo(old(View(a)), Poke(m, at, value), View(a))
  {
    hide Linked, Tiled, Offset, Slice;
    ghost var s, mem := a.live, a.memory[..];
    ghost var k :| 0 <= k < |s| && s[k] == m;
    a.InArena(m);
    PlacesBefore(s);
    LinkedDistinct(s, a.list);
    a.memory[m.ptr + at] := value;
    assert a.memory[..] == mem[m.ptr + at := value];
    forall b | b in s
      ensures a.Bytes(b) == if b == m then old(a.Bytes(b))[at := value] else old(a.Bytes(b))
    {
      var i :| 0 <= i < |s| && s[i] == b;
      assert s[i].ptr == Offset(s, i) && s[k].ptr == Offset(s, k);
      SeparateWrite(s, k, i, at, mem, value);
    }
  }

  // A write inside block k changes that byte of it and no byte of any other block.
  lemma SeparateWrite(s: seq<Block>, k: nat, i: nat, at: nat, mem: seq<bv8>, value: bv8)
    requires k < |s| && i < |s| && at < s[k].size && Offset(s, |s|) <= |mem|
    ensures Offset(s, k) + s[k].size <= |mem|
    ensures var mem' := mem[Offset(s, k) + at := value];
      Slice(mem', Offset(s, i), s[i].size) ==
      if i == k then Slice(mem, Offset(s, k), s[k].size)[at := value] else Slice(mem, Offset(s, i), s[i].size)
  {
    hide Offset, Slice;
    OffsetMonotone(s, k, |s|);
    OffsetMonotone(s, i, |s|);
    if i < k {
      OffsetMonotone(s, i, k);
      WriteOutside(mem, Offset(s, k) + at, value, Offset(s, i), s[i].size);
    } else if k < i {
      OffsetMonotone(s, k, i);
      WriteOutside(mem, Offset(s, k) + at, value, Offset(s, i), s[i].size);
    } else {
      WriteInside(mem, at, value, Offset(s, k), s[k].size);
    }
  }

  lemma WriteOutside(mem: seq<bv8>, at: nat, value: bv8, p: nat, n: nat)
    requires p + n <= |mem| && at < |mem| && (at < p || p + n <= at)
    ensures Slice(mem[at := value], p, n) == Slice(mem, p, n)
  {
  }

  lemma WriteInside(mem: seq<bv8>, at: nat, value: bv8, p: nat, n: nat)
    requires p + n <= |mem| && at < n
    ensures |Slice(mem, p, n)| == n && Slice(mem[p + at := value], p, n) == Slice(mem, p, n)[at := value]
  {
  }

  // ----- Every run

  method Step(a: Allocator, op: Op)
    requires a.Valid() && LegalOp(View(a), op)
    modifies a, a.memory, Elements(a.live), op.m
    ensures a.Valid() && StepTo(old(View(a)), op, View(a))
    ensures Elements(a.live) <= old(Elements(a.live)) + {op.m}
  {
    hide StepTo, Offset, Tiled, Linked, Slice;
    match op {
      case Alloc(m, size) => DoAlloc(a, m, size);
      case Free(m) => DoFree(a, m);
      case Poke(m, at, value) =>
        ViewOf(a, m);
        DoPoke(a, m, at, value);
    }
  }

  ghost function BlocksOf(ops: seq<Op>): set<Block> {
    set op | op in ops :: op.m
  }

  // Which operations are legal depends on the sizes of the live blocks only.
  datatype Shape = Shape(sizes: map<Block, nat>, free: nat)

  ghost function ShapeOf(s: Store): Shape {
    Shape(map b | b in s.blocks :: |s.blocks[b]|, s.free)
  }

  ghost predicate LegalShape(h: Shape, op: Op) {
    match op
    case Alloc(m, _) => m !in h.sizes
    case Free(m) => m in h.sizes
    case Poke(m, at, _) => m in h.sizes && at < h.sizes[m]
  }

  ghost function NextShape(h: Shape, op: Op): Shape
    requires LegalShape(h, op)
  {
    match op
    case Alloc(m, size) => if size <= h.free then Shape(h.sizes[m := size], h.free - size) else h
    case Free(m) => Shape(h.sizes - {m}, h.free + h.sizes[m])
    case Poke(_, _, _) => h
  }

  ghost predicate Legal(h: Shape, ops: seq<Op>)
    decreases |ops|
  {
    ops == [] || (LegalShape(h, ops[0]) && Legal(NextShape(h, ops[0]), ops[1..]))
  }

  lemma StepShape(s: Store, op: Op, s': Store)
    requires LegalOp(s, op) && StepTo(s, op, s')
    ensures LegalShape(ShapeOf(s), op) && ShapeOf(s') == NextShape(ShapeOf(s), op)
  {
    hide ShapeOf;
    Sizes(s);
    Sizes(s');
    var h, n := ShapeOf(s'), NextShape(ShapeOf(s), op);
    assert h.sizes.Keys == n.sizes.Keys;
    assert forall b | b in h.sizes :: h.sizes[b] == n.sizes[b];
    assert h.sizes == n.sizes;
  }

  lemma Sizes(s: Store)
    ensures ShapeOf(s).sizes.Keys == s.blocks.Keys && ShapeOf(s).free == s.free
    ensures forall b | b in s.blocks :: ShapeOf(s).sizes[b] == |s.blocks[b]|
  {
  }

  lemma LegalByShape(s: Store, op: Op)
    requires LegalShape(ShapeOf(s), op)
    ensures LegalOp(s, op)
  {
  }

  // A run of the allocator shows its users a run of the store.
  method Run(a: Allocator, ops: seq<Op>) returns (ghost trace: seq<Store>)
    requires a.Valid() && Legal(ShapeOf(View(a)), ops)
    modifies a, a.memory, Elements(a.live), BlocksOf(ops)
    ensures a.Valid()
    ensures |trace| == |ops| + 1 && trace[0] == old(View(a)) && trace[|ops|] == View(a)
    ensures IsRun(trace, ops)
  {
    hide StepTo, LegalOp, LegalShape, NextShape, ShapeOf, Offset, Tiled, Linked, Slice, View;
    trace := [View(a)];
    for k := 0 to |ops|
      invariant a.Valid() && Legal(ShapeOf(View(a)), ops[k..])
      invariant |trace| == k + 1 && trace[0] == old(View(a)) && trace[k] == View(a)
      invariant forall i {:trigger ops[i]} | 0 <= i < k ::
        LegalOp(trace[i], ops[i]) && StepTo(trace[i], ops[i], trace[i + 1])
      invariant Elements(a.live) <= old(Elements(a.live)) + BlocksOf(ops)
    {
      assert ops[k..][0] == ops[k] && ops[k..][1..] == ops[k + 1..];
      assert ops[k].m in BlocksOf(ops);
      ghost var before := View(a);
      LegalByShape(before, ops[k]);
      Step(a, ops[k]);
      StepShape(before, ops[k], View(a));
      trace := trace + [View(a)];
    }
  }
}
