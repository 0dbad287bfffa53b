/** Whole runs of `my_fifo`: every sequence of calls queues and hands out packets like a queue of at
    most num of them, however often the 8-bit counters wrap; and for which sizes and payloads the
    bytes in the slots survive. */
module MyFifoRuns {
  import opened Bits
  import opened Common
  import opened Words
  import opened MyFifo

  datatype Op = Push(payload: seq<byte>) | Pop | Get

  // The return code of a push, or what is read at the place a get gives
  datatype Answer = Code(code: int) | Front(packet: Option<seq<byte>>)

  // pop follows a successful get; a push does not write beyond the store.
  predicate LegalOp(s: Store, size: nat, num: nat, op: Op) {
    match op
    case Push(payload) => InStore(s, size, num, payload)
    case Pop => s.queue != []
    case Get => true
  }

  function Apply(s: Store, size: nat, num: nat, op: Op): Store
    requires LegalOp(s, size, num, op)
  {
    match op
    case Push(payload) => Pushed(s, size, num, payload)
    case Pop => Popped(s)
    case Get => s
  }

  // The bytes that the length byte at base announces
  function ReadAt(data: seq<byte>, base: nat): seq<byte> {
    if base + 2 <= |data| && base + 2 + data[base] <= |data| then data[base + 2..base + 2 + data[base]] else []
  }

  function AnswerOf(s: Store, size: nat, num: nat, op: Op): seq<Answer> {
    match op
    case Push(payload) => [Code(if Accepts(s, size, num, payload) then 0 else -1)]
    case Pop => []
    case Get => [Front(if s.queue == [] || num == 0 then None else Some(ReadAt(s.data, Base(s.rptr, num, size))))]
  }

  ghost predicate Legal(s: Store, size: nat, num: nat, ops: seq<Op>)
    decreases |ops|
  {
    ops == [] || (LegalOp(s, size, num, ops[0]) && Legal(Apply(s, size, num, ops[0]), size, num, ops[1..]))
  }

  ghost function Final(s: Store, size: nat, num: nat, ops: seq<Op>): Store
    requires Legal(s, size, num, ops)
    decreases |ops|
  {
    if ops == [] then s else Final(Apply(s, size, num, ops[0]), size, num, ops[1..])
  }

  ghost function Answers(s: Store, size: nat, num: nat, ops: seq<Op>): seq<Answer>
    requires Legal(s, size, num, ops)
    decreases |ops|
  {
    if ops == [] then []
    else AnswerOf(s, size, num, ops[0]) + Answers(Apply(s, size, num, ops[0]), size, num, ops[1..])
  }

  // ----- The calls carry out such runs

  method Read(p: array<byte>, at: nat) returns (payload: seq<byte>)
    ensures payload == ReadAt(p[..], at)
  {
    payload := [];
    if at + 2 <= p.Length && at + 2 + p[at] <= p.Length {
      payload := p[at + 2..at + 2 + p[at]];
    }
  }

  method Step(f: Fifo, op: Op) returns (answer: seq<Answer>)
    requires f.Valid() && LegalOp(f.View(), f.size, f.num, op)
    modifies f, f.p
    ensures f.Valid() && f.View() == Apply(old(f.View()), f.size, f.num, op)
    ensures answer == AnswerOf(old(f.View()), f.size, f.num, op)
    ensures op.Push? && |old(f.queue)| < f.num && |op.payload| < f.size ==>
      f.queue == old(f.queue) + [op.payload] && answer == [Code(0)]
    ensures op.Push? && !(|old(f.queue)| < f.num && |op.payload| < f.size) ==>
      f.queue == old(f.queue) && answer == [Code(-1)]
    ensures op.Pop? ==> old(f.queue) != [] && f.queue == old(f.queue)[1..] && answer == []
    ensures op.Get? ==> f.queue == old(f.queue) && (f.queue == [] <==> answer == [Front(None)])
  {
    hide Pushed, Popped, ReadAt, Base, Whole, Small, Packet;
    match op {
      case Push(payload) =>
        var src := new byte[|payload|](i requires 0 <= i < |payload| => payload[i]);
        assert src[..|payload|] == payload;
        var code := f.Push(src, |payload|);
        answer := [Code(code)];
      case Pop =>
        f.Pop();
        answer := [];
      case Get =>
        var at := f.Get();
        if at.Some? {
          var packet := Read(f.p, at.value);
          answer := [Front(Some(packet))];
        } else {
          answer := [Front(None)];
        }
    }
  }

  // Any legal run of calls
  method Run(f: Fifo, ops: seq<Op>) returns (answers: seq<Answer>)
    requires f.Valid() && Legal(f.View(), f.size, f.num, ops)
    modifies f, f.p
    ensures f.Valid() && f.View() == Final(old(f.View()), f.size, f.num, ops)
    ensures answers == Answers(old(f.View()), f.size, f.num, ops)
  {
    hide LegalOp, Apply, AnswerOf, Fifo.Valid;
    ghost var s0 := f.View();
    answers := [];
    for k := 0 to |ops|
      invariant f.Valid() && Legal(f.View(), f.size, f.num, ops[k..])
      invariant Final(f.View(), f.size, f.num, ops[k..]) == Final(s0, f.size, f.num, ops)
      invariant answers + Answers(f.View(), f.size, f.num, ops[k..]) == Answers(s0, f.size, f.num, ops)
    {
      assert ops[k..][0] == ops[k] && ops[k..][1..] == ops[k + 1..];
      var a := Step(f, ops[k]);
      answers := answers + a;
    }
  }

  // ----- First in, first out

  // The packets that one operation takes out, and lets in
  function Taken(s: Store, op: Op): seq<seq<byte>>
    requires op.Pop? ==> s.queue != []
  {
    if op.Pop? then [s.queue[0]] else []
  }

  function Accepted(s: Store, size: nat, num: nat, op: Op): seq<seq<byte>> {
    if op.Push? && Accepts(s, size, num, op.payload) then [op.payload] else []
  }

  ghost function AllTaken(s: Store, size: nat, num: nat, ops: seq<Op>): seq<seq<byte>>
    requires Legal(s, size, num, ops)
    decreases |ops|
  {
    if ops == [] then [] else Taken(s, ops[0]) + AllTaken(Apply(s, size, num, ops[0]), size, num, ops[1..])
  }

  ghost function AllAccepted(s: Store, size: nat, num: nat, ops: seq<Op>): seq<seq<byte>>
    requires Legal(s, size, num, ops)
    decreases |ops|
  {
    if ops == [] then []
    else Accepted(s, size, num, ops[0]) + AllAccepted(Apply(s, size, num, ops[0]), size, num, ops[1..])
  }

  ghost predicate Conserved(s: Store, size: nat, num: nat, ops: seq<Op>)
    requires Legal(s, size, num, ops)
  {
    AllTaken(s, size, num, ops) + Final(s, size, num, ops).queue == s.queue + AllAccepted(s, size, num, ops)
  }

  // Nothing is lost: what comes out, then what is still queued, is what was queued, then what went
  // in.  And never more than num packets are queued.
  lemma {:induction false} FirstInFirstOut(s: Store, size: nat, num: nat, ops: seq<Op>)
    requires Legal(s, size, num, ops) && Counts(s, num)
    ensures Conserved(s, size, num, ops)
    ensures Counts(Final(s, size, num, ops), num)
    decreases |ops|
  {
    hide Legal, LegalOp, Apply, Accepted, Taken, Counts;
    if ops == [] {
      NoOps(s, size, num);
    } else {
      Unfold(s, size, num, ops);
      CountsApply(s, size, num, ops[0]);
      FirstInFirstOut(Apply(s, size, num, ops[0]), size, num, ops[1..]);
    }
  }

  lemma NoOps(s: Store, size: nat, num: nat)
    ensures Legal(s, size, num, []) && Final(s, size, num, []) == s
    ensures AllTaken(s, size, num, []) == [] && AllAccepted(s, size, num, []) == []
  {
  }

  lemma CountsApply(s: Store, size: nat, num: nat, op: Op)
    requires LegalOp(s, size, num, op) && Counts(s, num)
    ensures Counts(Apply(s, size, num, op), num)
  {
    hide Counts, Pushed;
    match op {
      case Push(payload) => PushCounts(s, size, num, payload);
      case Pop => PopCounts(s, num);
      case Get =>
    }
  }

  // One operation, in front of a run that conserves packets
  lemma Unfold(s: Store, size: nat, num: nat, ops: seq<Op>)
    requires ops != [] && Legal(s, size, num, ops)
    ensures LegalOp(s, size, num, ops[0])
    ensures var t := Apply(s, size, num, ops[0]);
      && Legal(t, size, num, ops[1..])
      && Final(s, size, num, ops) == Final(t, size, num, ops[1..])
      && (Conserved(t, size, num, ops[1..]) ==> Conserved(s, size, num, ops))
  {
    hide LegalOp, Apply, Accepted, Taken;
    Balanced(s, size, num, ops[0]);
    var t := Apply(s, size, num, ops[0]);
    Regroup(Taken(s, ops[0]), AllTaken(t, size, num, ops[1..]), Final(t, size, num, ops[1..]).queue, t.queue,
            AllAccepted(t, size, num, ops[1..]), s.queue, Accepted(s, size, num, ops[0]));
  }

  lemma Balanced(s: Store, size: nat, num: nat, op: Op)
    requires LegalOp(s, size, num, op)
    ensures op.Pop? ==> s.queue != []
    ensures Taken(s, op) + Apply(s, size, num, op).queue == s.queue + Accepted(s, size, num, op)
  {
  }

  lemma Regroup(t: seq<seq<byte>>, p: seq<seq<byte>>, f: seq<seq<byte>>, q1: seq<seq<byte>>,
                i: seq<seq<byte>>, q: seq<seq<byte>>, a: seq<seq<byte>>)
    requires t + q1 == q + a
    ensures p + f == q1 + i ==> (t + p) + f == q + (a + i)
  {
    if p + f == q1 + i {
      assert (t + p) + f == t + (p + f) == (t + q1) + i == q + (a + i);
    }
  }

  // ----- Runs that keep the bytes

  // No payload of exactly one byte less than the slot
  ghost predicate Fitting(ops: seq<Op>, size: nat) {
    forall i | 0 <= i < |ops| && ops[i].Push? :: |ops[i].payload| + 1 != size
  }

  ghost predicate Healthy(s: Store, size: nat, num: nat) {
    Counts(s, num) && Whole(s, size, num) && Small(s.queue, size)
  }

  lemma HealthyStep(s: Store, size: nat, num: nat, op: Op)
    requires IsPow2(num) && num < 256 && LegalOp(s, size, num, op) && Healthy(s, size, num)
    requires op.Push? ==> |op.payload| + 1 != size
    ensures Healthy(Apply(s, size, num, op), size, num)
  {
    hide Intact, Pushed, IsPow2, InStore;
    CountsApply(s, size, num, op);
    match op {
      case Push(payload) => PushKeeps(s, size, num, payload);
      case Pop => Dequeued(s.data, size, num, s.rptr, s.queue);
      case Get =>
    }
  }

  // What get exposes of a healthy fifo is the oldest packet.
  lemma HealthyFront(s: Store, size: nat, num: nat)
    requires Healthy(s, size, num) && s.queue != []
    ensures num > 0 && AnswerOf(s, size, num, Get) == [Front(Some(s.queue[0]))]
  {
    hide Base;
    assert Ahead(s.rptr, 0) == s.rptr;
    assert Packet(s.data, Base(Ahead(s.rptr, 0), num, size), s.queue[0]);
  }

  // Along a run without such payloads every packet queued stays readable in its slot.
  lemma {:induction false} FittingRunKeeps(s: Store, size: nat, num: nat, ops: seq<Op>)
    requires IsPow2(num) && num < 256 && Legal(s, size, num, ops) && Healthy(s, size, num) && Fitting(ops, size)
    ensures Healthy(Final(s, size, num, ops), size, num)
    decreases |ops|
  {
    hide LegalOp, Apply, Healthy, IsPow2;
    if ops != [] {
      HealthyStep(s, size, num, ops[0]);
      assert Fitting(ops[1..], size) by {
        assert forall i | 0 <= i < |ops| - 1 :: ops[1..][i] == ops[i + 1];
      }
      FittingRunKeeps(Apply(s, size, num, ops[0]), size, num, ops[1..]);
    }
  }

  // ----- Exactly which fifos keep the bytes in every run

  ghost predicate ShortPushes(ops: seq<Op>, limit: nat) {
    forall i | 0 <= i < |ops| && ops[i].Push? :: |ops[i].payload| <= limit
  }

  // A run of a new fifo in a store of that content
  ghost predicate Runnable(data: seq<byte>, size: nat, num: nat, ops: seq<Op>) {
    num * size <= |data| && Legal(Store(data, 0, 0, []), size, num, ops)
  }

  lemma {:induction false} Concat(s: Store, size: nat, num: nat, x: seq<Op>, y: seq<Op>)
    requires Legal(s, size, num, x) && Legal(Final(s, size, num, x), size, num, y)
    ensures Legal(s, size, num, x + y)
    ensures Final(s, size, num, x + y) == Final(Final(s, size, num, x), size, num, y)
    decreases |x|
  {
    hide LegalOp, Apply;
    if x == [] {
      assert x + y == y;
    } else {
      assert (x + y)[1..] == x[1..] + y && (x + y)[0] == x[0];
      Concat(Apply(s, size, num, x[0]), size, num, x[1..], y);
    }
  }

  lemma Snoc(s: Store, size: nat, num: nat, x: seq<Op>, op: Op)
    requires Legal(s, size, num, x) && LegalOp(Final(s, size, num, x), size, num, op)
    ensures Legal(s, size, num, x + [op])
    ensures Final(s, size, num, x + [op]) == Apply(Final(s, size, num, x), size, num, op)
  {
    hide LegalOp, Apply;
    var t := Final(s, size, num, x);
    assert [op][0] == op && [op][1..] == [];
    NoOps(Apply(t, size, num, op), size, num);
    Concat(s, size, num, x, [op]);
  }

  // m empty packets pushed in a row
  function Empties(m: nat): (ops: seq<Op>)
    ensures |ops| == m && forall i | 0 <= i < m :: ops[i] == Push([])
  {
    seq(m, _ => Push([]))
  }

  lemma {:induction false} PushEmpties(s: Store, size: nat, num: nat, m: nat)
    requires |s.queue| + m <= num && 2 <= size && num * size <= |s.data|
    ensures Legal(s, size, num, Empties(m))
    ensures var t := Final(s, size, num, Empties(m));
      && t.rptr == s.rptr && t.wptr == Ahead(s.wptr, m) && |t.data| == |s.data|
      && |t.queue| == |s.queue| + m && t.queue[..|s.queue|] == s.queue
      && forall k | |s.queue| <= k < |s.queue| + m :: t.queue[k] == []
    decreases m
  {
    hide Written, Base, LegalOp, Apply;
    if m == 0 {
      assert Empties(0) == [];
      NoOps(s, size, num);
    } else {
      PushEmpties(s, size, num, m - 1);
      var t := Final(s, size, num, Empties(m - 1));
      PushEmpty(t, size, num);
      Snoc(s, size, num, Empties(m - 1), Push([]));
      assert Empties(m) == Empties(m - 1) + [Push([])];
      NextCounter(s.wptr, m - 1);
    }
  }

  lemma PushEmpty(s: Store, size: nat, num: nat)
    requires |s.queue| < num && 2 <= size && num * size <= |s.data|
    ensures LegalOp(s, size, num, Push([]))
    ensures var t := Apply(s, size, num, Push([]));
      t.rptr == s.rptr && t.wptr == Ahead(s.wptr, 1) && |t.data| == |s.data| && t.queue == s.queue + [[]]
  {
    hide Written, Base;
    BaseFits(s.wptr, num, size);
  }

  // An accepted push of size - 1 bytes runs one byte into the next slot: with num - 1 packets queued
  // and the new one in slot 0, that is the length byte of the oldest packet.
  lemma PushSpills(s: Store, size: nat, num: nat, payload: seq<byte>)
    requires 2 <= num && s.wptr == Ahead(s.rptr, num - 1) && |s.queue| == num - 1
    requires Slot(s.wptr, num) == 0 && Slot(s.rptr, num) == 1
    requires 2 <= size <= 256 && |payload| == size - 1 && size + 1 <= |s.data|
    ensures Accepts(s, size, num, payload) && InStore(s, size, num, payload)
    ensures Pushed(s, size, num, payload).data[Base(s.rptr, num, size)] == payload[size - 2]
    ensures payload[size - 2] != |s.queue[0]| ==> !Whole(Pushed(s, size, num, payload), size, num)
  {
    hide Slot, Packet;
    WrittenPacket(s.data, 0, payload);
    var t := Pushed(s, size, num, payload);
    assert Ahead(s.rptr, 0) == s.rptr;
    if Whole(t, size, num) {
      assert Packet(t.data, Base(Ahead(s.rptr, 0), num, size), t.queue[0]);
      LengthByte(t.data, Base(s.rptr, num, size), t.queue[0]);
    }
  }

  lemma LengthByte(data: seq<byte>, base: nat, pkt: seq<byte>)
    requires Packet(data, base, pkt)
    ensures base < |data| && data[base] == |pkt|
  {
  }

  // The run that reaches this: one packet through, then num - 1 empty ones
  lemma BeforeSpill(size: nat, num: nat) returns (data: seq<byte>, ops: seq<Op>, long: seq<byte>)
    requires IsPow2(num) && 2 <= num < 256 && 2 <= size < 256
    ensures Runnable(data, size, num, ops) && Fitting(ops, size) && ShortPushes(ops, 0) && |long| == size - 1
    ensures var s := Final(Store(data, 0, 0, []), size, num, ops);
      && Accepts(s, size, num, long) && InStore(s, size, num, long)
      && !Whole(Pushed(s, size, num, long), size, num)
  {
    hide Legal, LegalOp, Apply, Whole, IsPow2, Pushed, Base, Slot, Intact;
    data := seq(num * size + 1, _ => 0);
    Larger(num, size);
    var s0 := Store(data, 0, 0, []);
    var one := Empties(1);
    PushEmpties(s0, size, num, 1);
    var s1 := Final(s0, size, num, one);
    PopIs(s1, size, num);
    Snoc(s0, size, num, one, Pop);
    var s2 := Apply(s1, size, num, Pop);
    PushEmpties(s2, size, num, num - 1);
    Concat(s0, size, num, one + [Pop], Empties(num - 1));
    ops := one + [Pop] + Empties(num - 1);
    FirstTwoSlots(num);
    long := seq(size - 1, _ => 1);
    var s3 := Final(s0, size, num, ops);
    assert s3.queue[0] == [];
    PushSpills(s3, size, num, long);
  }

  lemma SpillingRun(size: nat, num: nat) returns (data: seq<byte>, ops: seq<Op>)
    requires IsPow2(num) && 2 <= num < 256 && 2 <= size < 256
    ensures ShortPushes(ops, size - 1) && Runnable(data, size, num, ops)
    ensures !Whole(Final(Store(data, 0, 0, []), size, num, ops), size, num)
  {
    hide Legal, LegalOp, Apply, Whole, IsPow2, Pushed, InStore, Accepts;
    var before, long;
    data, before, long := BeforeSpill(size, num);
    var s0 := Store(data, 0, 0, []);
    PushIs(Final(s0, size, num, before), size, num, long);
    Snoc(s0, size, num, before, Push(long));
    ops := before + [Push(long)];
  }

  // In every fifo that a run has brought about, a push of n accepted bytes keeps all queued packets
  // readable, exactly when n + 2 <= size.
  lemma PushKeepsIff(size: nat, num: nat, n: nat)
    requires IsPow2(num) && 2 <= num < 256 && 2 <= size < 256 && n < size
    ensures (forall data: seq<byte>, ops: seq<Op>, payload: seq<byte> |
               Runnable(data, size, num, ops) && Fitting(ops, size) && |payload| == n
               && InStore(Final(Store(data, 0, 0, []), size, num, ops), size, num, payload)
              :: Whole(Pushed(Final(Store(data, 0, 0, []), size, num, ops), size, num, payload), size, num))
       <==> n + 2 <= size
  {
    hide Whole, Legal, Pushed, InStore, IsPow2, Fitting;
    if n + 2 <= size {
      forall data: seq<byte>, ops: seq<Op>, payload: seq<byte> |
        Runnable(data, size, num, ops) && Fitting(ops, size) && |payload| == n
        && InStore(Final(Store(data, 0, 0, []), size, num, ops), size, num, payload)
        ensures Whole(Pushed(Final(Store(data, 0, 0, []), size, num, ops), size, num, payload), size, num)
      {
        NewIsHealthy(data, size, num);
        FittingRunKeeps(Store(data, 0, 0, []), size, num, ops);
        PushKeeps(Final(Store(data, 0, 0, []), size, num, ops), size, num, payload);
      }
    } else {
      var data, ops, long := BeforeSpill(size, num);
    }
  }

  lemma Larger(num: nat, size: nat)
    requires 2 <= num
    ensures num * size >= 2 * size
  {
  }

  lemma PopIs(s: Store, size: nat, num: nat)
    requires s.queue != []
    ensures LegalOp(s, size, num, Pop) && Apply(s, size, num, Pop) == Popped(s)
  {
  }

  lemma PushIs(s: Store, size: nat, num: nat, payload: seq<byte>)
    requires InStore(s, size, num, payload)
    ensures LegalOp(s, size, num, Push(payload)) && Apply(s, size, num, Push(payload)) == Pushed(s, size, num, payload)
  {
  }

  lemma FirstTwoSlots(num: nat)
    requires IsPow2(num) && 2 <= num < 256
    ensures Ahead(1, num - 1) == num && Slot(num, num) == 0 && Slot(1, num) == 1
  {
    hide Slot, IsPow2;
    SlotIsRemainder(num, num);
    SlotIsRemainder(1, num);
    ModUnique(num, num, 1, 0);
    ModUnique(1, num, 0, 1);
  }

  // With num no power of two, a packet lands on a queued one.
  lemma CollidingRun(size: nat, num: nat) returns (data: seq<byte>, ops: seq<Op>)
    requires !IsPow2(num) && 2 <= num < 256 && 2 <= size < 256
    ensures ShortPushes(ops, 1) && Runnable(data, size, num, ops)
    ensures !Whole(Final(Store(data, 0, 0, []), size, num, ops), size, num)
  {
    hide Legal, LegalOp, Apply, IsPow2, Written, Base;
    data := seq(num * size + 1, _ => 0);
    Larger(num, size);
    var b := MaskedOut(num - 1);
    var c := Pow2(b);
    var s0 := Store(data, 0, 0, []);
    PushEmpties(s0, size, num, c);
    var s1 := Final(s0, size, num, Empties(c));
    SlotZero(num, size, c);
    var payload: seq<byte> := [1];
    PushIs(s1, size, num, payload);
    Snoc(s0, size, num, Empties(c), Push(payload));
    ops := Empties(c) + [Push(payload)];
    Overlaid(s1, size, num, payload);
  }

  lemma SlotZero(num: nat, size: nat, c: nat)
    requires num > 0 && And(c, num - 1) == 0
    ensures Base(c, num, size) == 0 && Base(0, num, size) == 0
  {
  }

  // A packet written over the oldest one, of another length
  lemma Overlaid(s: Store, size: nat, num: nat, payload: seq<byte>)
    requires s.rptr == 0 && s.queue != [] && num > 0 && Base(s.wptr, num, size) == Base(0, num, size)
    requires Accepts(s, size, num, payload) && InStore(s, size, num, payload) && |payload| != |s.queue[0]|
    ensures !Whole(Pushed(s, size, num, payload), size, num)
  {
    hide Base, Packet;
    var t := Pushed(s, size, num, payload);
    var base := Base(0, num, size);
    WrittenPacket(s.data, base, payload);
    LengthByte(t.data, base, payload);
    if Whole(t, size, num) {
      assert Packet(t.data, Base(Ahead(t.rptr, 0), num, size), t.queue[0]);
      LengthByte(t.data, base, t.queue[0]);
    }
  }

  lemma NewIsHealthy(data: seq<byte>, size: nat, num: nat)
    ensures Healthy(Store(data, 0, 0, []), size, num)
  {
  }

  // A fifo keeps every queued packet in every run with payloads of at most limit bytes exactly when
  // num is a power of two and the slots have two bytes more than the limit.
  lemma EveryRunKeepsIff(size: nat, num: nat, limit: nat)
    requires 2 <= num < 256 && 2 <= size < 256 && 1 <= limit < 256
    ensures (forall data: seq<byte>, ops: seq<Op> | Runnable(data, size, num, ops) && ShortPushes(ops, limit)
              :: Whole(Final(Store(data, 0, 0, []), size, num, ops), size, num))
       <==> IsPow2(num) && limit + 2 <= size
  {
    hide Whole, Legal, LegalOp, Apply, IsPow2;
    if IsPow2(num) && limit + 2 <= size {
      forall data: seq<byte>, ops: seq<Op> | Runnable(data, size, num, ops) && ShortPushes(ops, limit)
        ensures Whole(Final(Store(data, 0, 0, []), size, num, ops), size, num)
      {
        NewIsHealthy(data, size, num);
        FittingRunKeeps(Store(data, 0, 0, []), size, num, ops);
      }
    } else if IsPow2(num) {
      var data, ops := SpillingRun(size, num);
      assert ShortPushes(ops, limit);
    } else {
      var data, ops := CollidingRun(size, num);
      assert ShortPushes(ops, limit);
    }
  }
}
