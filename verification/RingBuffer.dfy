/** `ringbuffer.h`: a byte queue in a circular array, shared by one inserter and one remover that
    run interleaved.  Pointers are offsets from `start`, so `end` is `size`. */
module RingBuffer {
  import opened Words

  datatype Memory = Memory(data: seq<byte>, size: nat, input: nat, out: nat, sount: nat)

  // The slot k places after base, going round
  function Slot(base: nat, k: nat, size: nat): nat {
    if base + k < size then base + k else if base + k < size + size then base + k - size else 0
  }

  // ----- The memory effect of each instruction

  function Store(m: Memory, d: byte): Memory
    requires m.input < |m.data|
  {
    m.(data := m.data[m.input := d])
  }

  function WrapIn(m: Memory): Memory {
    if m.input == m.size then m.(input := 0) else m
  }

  function WrapOut(m: Memory): Memory {
    if m.out == m.size then m.(out := 0) else m
  }

  function CountUp(m: Memory): Memory {
    m.(sount := (m.sount + 1) % 0x10000)
  }

  function CountDown(m: Memory): Memory {
    m.(sount := (m.sount + 0xffff) % 0x10000)
  }

  // ringbuffer_insert and ringbuffer_remove when nothing comes between
  function Inserted(m: Memory, d: byte): Memory
    requires m.input < |m.data|
  {
    var s := Store(m, d);
    CountUp(WrapIn(s.(input := s.input + 1)))
  }

  function Removed(m: Memory): Memory {
    CountDown(WrapOut(m.(out := m.out + 1)))
  }

  // From slot rd on, and up to slot wr, the array holds q.
  ghost predicate Holds(data: seq<byte>, size: nat, rd: nat, wr: nat, q: seq<byte>) {
    && |q| <= size <= |data| && rd < size && wr == Slot(rd, |q|, size)
    && forall k | 0 <= k < |q| :: data[Slot(rd, k, size)] == q[k]
  }

  ghost predicate Queue(m: Memory, q: seq<byte>) {
    && m.size < 0x10000 && m.sount == |q| && m.size <= |m.data|
    && if m.size == 0 then q == [] && m.input == m.out == 0
       else Holds(m.data, m.size, m.out, m.input, q)
  }

  lemma HoldsPush(data: seq<byte>, size: nat, rd: nat, wr: nat, q: seq<byte>, d: byte)
    requires Holds(data, size, rd, wr, q) && |q| < size
    ensures wr < |data| && Holds(data[wr := d], size, rd, Slot(wr, 1, size), q + [d])
    ensures forall k | 0 <= k < |q| :: Slot(rd, k, size) != wr
  {
  }

  lemma HoldsPop(data: seq<byte>, size: nat, rd: nat, wr: nat, q: seq<byte>)
    requires Holds(data, size, rd, wr, q) && q != []
    ensures data[rd] == q[0] && Holds(data, size, Slot(rd, 1, size), wr, q[1..])
  {
    var s := Slot(rd, 1, size);
    assert Slot(rd, 0, size) == rd;
    forall k | 0 <= k < |q| - 1
      ensures Slot(s, k, size) == Slot(rd, k + 1, size)
    {
    }
  }

  lemma InsertPushes(m: Memory, q: seq<byte>, d: byte)
    requires Queue(m, q) && m.sount != m.size
    ensures m.input < |m.data| && Queue(Inserted(m, d), q + [d])
  {
    HoldsPush(m.data, m.size, m.out, m.input, q, d);
  }

  lemma RemovePops(m: Memory, q: seq<byte>)
    requires Queue(m, q) && m.sount != 0
    ensures m.out < |m.data| && q[0] == m.data[m.out] && Queue(Removed(m), q[1..])
  {
    HoldsPop(m.data, m.size, m.out, m.input, q);
  }

  // ----- The buffer as its users see it, one call at a time

  class Ring {
    var data: array<byte>
    var input: nat
    var out: nat
    var size: nat
    var sount: nat
    ghost var contents: seq<byte>

    function Mem(): Memory
      reads this, data
    {
      Memory(data[..], size, input, out, sount)
    }

    ghost predicate Valid()
      reads this, data
    {
      Queue(Mem(), contents)
    }

    constructor (dataptr: array<byte>, n: nat)
      requires n < 0x10000 && n <= dataptr.Length
      ensures Valid() && contents == [] && data == dataptr && size == n
    {
      data, input, out, size, sount, contents := dataptr, 0, 0, n, 0, [];
    }

    method GetCount() returns (n: nat)
      requires Valid()
      ensures n == |contents| <= size
    {
      n := sount;
    }

    method GetFreeCount() returns (n: nat)
      requires Valid()
      ensures n + |contents| == size
    {
      n := size - sount;
    }

    method IsEmpty() returns (b: bool)
      requires Valid()
      ensures b <==> contents == []
    {
      b := sount == 0;
    }

    method IsFull() returns (b: bool)
      requires Valid()
      ensures b <==> |contents| == size
    {
      b := sount == size;
    }

    method Insert(d: byte)
      requires Valid() && |contents| < size
      modifies this`input, this`sount, this`contents, data
      ensures Valid() && contents == old(contents) + [d]
      ensures old(input < data.Length) && Mem() == Inserted(old(Mem()), d)
    {
      InsertPushes(Mem(), contents, d);
      data[input] := d;
      input := input + 1;
      if input == size {
        input := 0;
      }
      sount := (sount + 1) % 0x10000;
      contents := contents + [d];
    }

    method Remove() returns (d: byte)
      requires Valid() && contents != []
      modifies this`out, this`sount, this`contents
      ensures Valid() && old(contents) == [d] + contents
      ensures Mem() == Removed(old(Mem()))
    {
      RemovePops(Mem(), contents);
      d := data[out];
      out := out + 1;
      if out == size {
        out := 0;
      }
      sount := (sount + 0xffff) % 0x10000;
      contents := contents[1..];
    }

    method Peek() returns (d: byte)
      requires Valid() && contents != []
      ensures d == contents[0]
    {
      RemovePops(Mem(), contents);
      d := data[out];
    }
  }

  // ----- The buffer under interleaving

  // Where the inserter stands.  It may still insert `room` bytes before it looks at the count
  // again: 1 after is_full has answered no, more after get_free_count.
  datatype InPhase =
    | Ready(room: nat)
    | Stored(d: byte, room: nat)
    | Stepped(d: byte, room: nat)
    | Wrapped(d: byte, room: nat)

  // Where the remover stands; `avail` likewise after is_empty or get_count.
  datatype OutPhase =
    | Waiting(avail: nat)
    | Loaded(v: byte, avail: nat)
    | Advanced(v: byte, avail: nat)
    | Turned(v: byte, avail: nat)

  // inserted and removed list the bytes of the completed calls.
  datatype State = State(m: Memory, ins: InPhase, outs: OutPhase, inserted: seq<byte>, removed: seq<byte>)

  // One instruction of either side.  `look` makes a side between two calls read the count afresh.
  datatype Action = Inserter(d: byte, look: bool) | Remover(look: bool)

  function NextWrite(m: Memory, ins: InPhase): nat {
    match ins
    case Ready(_) => m.input
    case Stored(_, _) => Slot(m.input, 1, m.size)
    case Stepped(_, _) => if m.input == m.size then 0 else m.input
    case Wrapped(_, _) => m.input
  }

  function NextRead(m: Memory, outs: OutPhase): nat {
    match outs
    case Waiting(_) => m.out
    case Loaded(_, _) => Slot(m.out, 1, m.size)
    case Advanced(_, _) => if m.out == m.size then 0 else m.out
    case Turned(_, _) => m.out
  }

  // The bytes in the array: inserted in full or in part, and not loaded yet
  function Unread(s: State): seq<byte>
    requires |s.removed| + (if s.outs.Waiting? then 0 else 1) <= |s.inserted|
  {
    s.inserted[|s.removed| + (if s.outs.Waiting? then 0 else 1)..] + (if s.ins.Ready? then [] else [s.ins.d])
  }

  ghost predicate Inv(s: State) {
    && s.m.size < 0x10000 && s.m.size <= |s.m.data|
    && s.removed + (if s.outs.Waiting? then [] else [s.outs.v]) <= s.inserted
    && s.m.sount == |s.inserted| - |s.removed|
    && s.m.sount + s.ins.room <= s.m.size && (s.ins.Ready? || s.ins.room > 0)
    && s.outs.avail <= s.m.sount && (s.outs.Waiting? || s.outs.avail > 0)
    && (s.m.size == 0 ==> s.m.input == s.m.out == 0)
    && (s.m.size > 0 ==>
         && (s.m.input < s.m.size || (s.ins.Stepped? && s.m.input == s.m.size))
         && (s.m.out < s.m.size || (s.outs.Advanced? && s.m.out == s.m.size))
         && Holds(s.m.data, s.m.size, NextRead(s.m, s.outs), NextWrite(s.m, s.ins), Unread(s)))
  }

  function Init(data: seq<byte>, size: nat): (s: State)
    requires size < 0x10000 && size <= |data|
    ensures Inv(s) && s.inserted == s.removed == []
    ensures s.m.size == size && s.m.data == data && s.ins.Ready? && s.outs.Waiting?
  {
    State(Memory(data, size, 0, 0, 0), Ready(0), Waiting(0), [], [])
  }

  function InStep(s: State, d: byte, look: bool): (t: State)
    requires Inv(s)
    ensures Inv(t)
  {
    InStepKeeps(s, d, look);
    match s.ins
    case Ready(room) =>
      if room == 0 || look then s.(ins := Ready(s.m.size - s.m.sount))
      else s.(m := Store(s.m, d), ins := Stored(d, room))
    case Stored(v, room) => s.(m := s.m.(input := s.m.input + 1), ins := Stepped(v, room))
    case Stepped(v, room) => s.(m := WrapIn(s.m), ins := Wrapped(v, room))
    case Wrapped(v, room) => s.(m := CountUp(s.m), ins := Ready(room - 1), inserted := s.inserted + [v])
  }

  function OutStep(s: State, look: bool): (t: State)
    requires Inv(s)
    ensures Inv(t)
  {
    OutStepKeeps(s, look);
    match s.outs
    case Waiting(avail) =>
      if avail == 0 || look then s.(outs := Waiting(s.m.sount))
      else s.(outs := Loaded(s.m.data[s.m.out], avail))
    case Loaded(v, avail) => s.(m := s.m.(out := s.m.out + 1), outs := Advanced(v, avail))
    case Advanced(v, avail) => s.(m := WrapOut(s.m), outs := Turned(v, avail))
    case Turned(v, avail) => s.(m := CountDown(s.m), outs := Waiting(avail - 1), removed := s.removed + [v])
  }

  lemma InStepKeeps(s: State, d: byte, look: bool)
    requires Inv(s)
    ensures s.m.sount <= s.m.size
    ensures s.ins.Ready? && s.ins.room > 0 ==>
      s.m.input < |s.m.data| && Inv(s.(m := Store(s.m, d), ins := Stored(d, s.ins.room)))
    ensures s.ins.Ready? ==> Inv(s.(ins := Ready(s.m.size - s.m.sount)))
    ensures s.ins.Stored? ==> Inv(s.(m := s.m.(input := s.m.input + 1), ins := Stepped(s.ins.d, s.ins.room)))
    ensures s.ins.Stepped? ==> Inv(s.(m := WrapIn(s.m), ins := Wrapped(s.ins.d, s.ins.room)))
    ensures s.ins.Wrapped? ==> s.ins.room > 0
    ensures s.ins.Wrapped? ==>
      Inv(s.(m := CountUp(s.m), ins := Ready(s.ins.room - 1), inserted := s.inserted + [s.ins.d]))
  {
    hide Holds;
    match s.ins
    case Ready(room) => if room > 0 { StoreSafe(s, d); }
    case Stored(_, _) => SlotBound(NextRead(s.m, s.outs), |Unread(s)|, s.m.size);
    case Stepped(_, _) =>
    case Wrapped(v, room) => Counted(s);
  }

  lemma SlotBound(base: nat, k: nat, size: nat)
    ensures size > 0 ==> Slot(base, k, size) < size
  {
  }

  lemma Counted(s: State)
    requires Inv(s) && s.ins.Wrapped?
    ensures Inv(s.(m := CountUp(s.m), ins := Ready(s.ins.room - 1), inserted := s.inserted + [s.ins.d]))
  {
    hide Holds;
    var t := s.(m := CountUp(s.m), ins := Ready(s.ins.room - 1), inserted := s.inserted + [s.ins.d]);
    assert Unread(t) == Unread(s);
  }

  lemma OutStepKeeps(s: State, look: bool)
    requires Inv(s)
    ensures s.outs.Waiting? && s.outs.avail > 0 ==>
      s.m.out < |s.m.data| && Inv(s.(outs := Loaded(s.m.data[s.m.out], s.outs.avail)))
    ensures s.outs.Waiting? ==> Inv(s.(outs := Waiting(s.m.sount)))
    ensures s.outs.Loaded? ==> Inv(s.(m := s.m.(out := s.m.out + 1), outs := Advanced(s.outs.v, s.outs.avail)))
    ensures s.outs.Advanced? ==> Inv(s.(m := WrapOut(s.m), outs := Turned(s.outs.v, s.outs.avail)))
    ensures s.outs.Turned? ==> s.outs.avail > 0
    ensures s.outs.Turned? ==>
      Inv(s.(m := CountDown(s.m), outs := Waiting(s.outs.avail - 1), removed := s.removed + [s.outs.v]))
  {
    hide Holds;
    match s.outs
    case Waiting(avail) => if avail > 0 { LoadSafe(s); }
    case Loaded(_, _) => SlotBound(s.m.out, 1, s.m.size);
    case Advanced(_, _) =>
    case Turned(_, _) => Returned(s);
  }

  lemma Returned(s: State)
    requires Inv(s) && s.outs.Turned?
    ensures Inv(s.(m := CountDown(s.m), outs := Waiting(s.outs.avail - 1), removed := s.removed + [s.outs.v]))
  {
    hide Holds;
    var t := s.(m := CountDown(s.m), outs := Waiting(s.outs.avail - 1), removed := s.removed + [s.outs.v]);
    assert Unread(t) == Unread(s);
  }

  lemma StoreSafe(s: State, d: byte)
    requires Inv(s) && s.ins.Ready? && s.ins.room > 0
    ensures s.m.input < |s.m.data|
    ensures Inv(s.(m := Store(s.m, d), ins := Stored(d, s.ins.room)))
    ensures forall k | 0 <= k < |Unread(s)| :: Slot(NextRead(s.m, s.outs), k, s.m.size) != s.m.input
  {
    var t := s.(m := Store(s.m, d), ins := Stored(d, s.ins.room));
    HoldsPush(s.m.data, s.m.size, NextRead(s.m, s.outs), s.m.input, Unread(s), d);
    assert Unread(t) == Unread(s) + [d];
  }

  lemma LoadSafe(s: State)
    requires Inv(s) && s.outs.Waiting? && s.outs.avail > 0
    ensures s.m.out < |s.m.data| && s.m.data[s.m.out] == s.inserted[|s.removed|]
    ensures Inv(s.(outs := Loaded(s.m.data[s.m.out], s.outs.avail)))
  {
    HoldsPop(s.m.data, s.m.size, s.m.out, NextWrite(s.m, s.ins), Unread(s));
    var t := s.(outs := Loaded(s.m.data[s.m.out], s.outs.avail));
    assert Unread(t) == Unread(s)[1..];
  }

  function Step(s: State, a: Action): (t: State)
    requires Inv(s)
    ensures Inv(t)
  {
    match a
    case Inserter(d, look) => InStep(s, d, look)
    case Remover(look) => OutStep(s, look)
  }

  function Run(s: State, schedule: seq<Action>): (t: State)
    requires Inv(s)
    ensures Inv(t)
    decreases |schedule|
  {
    if schedule == [] then s else Run(Step(s, schedule[0]), schedule[1..])
  }

  // Whatever the schedule: what came out is a prefix of what went in, the count is in range, and
  // is the number of bytes between the two.
  lemma EveryInterleaving(data: seq<byte>, size: nat, schedule: seq<Action>)
    requires size < 0x10000 && size <= |data|
    ensures var s := Run(Init(data, size), schedule);
      && s.removed <= s.inserted
      && s.m.sount == |s.inserted| - |s.removed| <= size
  {
    RunKeepsSize(Init(data, size), schedule);
  }

  lemma {:induction false} RunKeepsSize(s: State, schedule: seq<Action>)
    requires Inv(s)
    ensures Run(s, schedule).m.size == s.m.size && |Run(s, schedule).m.data| == |s.m.data|
    decreases |schedule|
  {
    hide Inv, Step;
    if schedule != [] {
      StepKeepsSize(s, schedule[0]);
      RunKeepsSize(Step(s, schedule[0]), schedule[1..]);
    }
  }

  lemma StepKeepsSize(s: State, a: Action)
    requires Inv(s)
    ensures Step(s, a).m.size == s.m.size && |Step(s, a).m.data| == |s.m.data|
  {
    hide Holds, Slot, Unread;
  }

  lemma {:induction false} RunConcat(s: State, x: seq<Action>, y: seq<Action>)
    requires Inv(s)
    ensures Run(s, x + y) == Run(Run(s, x), y)
    decreases |x|
  {
    hide Inv, Step;
    if x == [] {
      assert x + y == y;
    } else {
      assert (x + y)[1..] == x[1..] + y;
      RunConcat(Step(s, x[0]), x[1..], y);
    }
  }

  // The instructions of n removals in a row
  function Removals(n: nat): seq<Action> {
    if n == 0 then [] else [Remover(false), Remover(false), Remover(false), Remover(false)] + Removals(n - 1)
  }

  lemma OneRemoval(s: State)
    requires Inv(s) && s.outs.Waiting? && s.outs.avail > 0
    ensures |s.removed| < |s.inserted|
    ensures OutStep(OutStep(OutStep(OutStep(s, false), false), false), false)
         == s.(m := Removed(s.m), outs := Waiting(s.outs.avail - 1), removed := s.removed + [s.inserted[|s.removed|]])
  {
    hide Holds, Slot, Unread;
    LoadSafe(s);
  }

  lemma OneInsertion(s: State, d: byte)
    requires Inv(s) && s.ins.Ready? && s.ins.room > 0
    ensures s.m.input < |s.m.data|
    ensures InStep(InStep(InStep(InStep(s, d, false), d, false), d, false), d, false)
         == s.(m := Inserted(s.m, d), ins := Ready(s.ins.room - 1), inserted := s.inserted + [d])
  {
    hide Holds, Slot, Unread;
    StoreSafe(s, d);
  }

  lemma RunCons(s: State, a: Action, rest: seq<Action>)
    requires Inv(s)
    ensures Run(s, [a] + rest) == Run(Step(s, a), rest)
  {
    hide Inv, Step;
    assert ([a] + rest)[1..] == rest;
  }

  lemma FourOf(s: State, a: Action)
    requires Inv(s)
    ensures Run(s, [a, a, a, a]) == Step(Step(Step(Step(s, a), a), a), a)
  {
    hide Inv, Step, Run;
    assert [a, a, a, a] == [a] + [a, a, a] && [a, a, a] == [a] + [a, a] && [a, a] == [a] + [a] && [a] == [a] + [];
    RunCons(s, a, [a, a, a]);
    RunCons(Step(s, a), a, [a, a]);
    RunCons(Step(Step(s, a), a), a, [a]);
    RunCons(Step(Step(Step(s, a), a), a), a, []);
    NoSteps(Step(Step(Step(Step(s, a), a), a), a));
  }

  lemma NoSteps(s: State)
    requires Inv(s)
    ensures Run(s, []) == s
  {
  }

  // A look at the count, and the instructions of one call after it
  function LookAndInsert(d: byte): seq<Action> {
    [Inserter(d, true)] + [Inserter(d, false), Inserter(d, false), Inserter(d, false), Inserter(d, false)]
  }

  function LookAndRemove(): seq<Action> {
    [Remover(true)] + [Remover(false), Remover(false), Remover(false), Remover(false)]
  }

  // An inserter between calls that finds a free byte inserts: the memory becomes what the whole call
  // makes of it.
  lemma InsertsWhenFree(s: State, d: byte)
    requires Inv(s) && s.ins.Ready? && s.m.sount < s.m.size
    ensures s.m.input < |s.m.data|
    ensures Run(s, LookAndInsert(d))
         == s.(m := Inserted(s.m, d), ins := Ready(s.m.size - s.m.sount - 1), inserted := s.inserted + [d])
  {
    hide Inv, Run, InStep;
    LookIn(s, d);
    var t := InStep(s, d, true);
    RunCons(s, Inserter(d, true), [Inserter(d, false), Inserter(d, false), Inserter(d, false), Inserter(d, false)]);
    FourOf(t, Inserter(d, false));
    OneInsertion(t, d);
  }

  // Likewise the remover: if there is a byte it takes the oldest.
  lemma RemovesWhenStored(s: State)
    requires Inv(s) && s.outs.Waiting? && s.m.sount > 0
    ensures |s.removed| < |s.inserted|
    ensures Run(s, LookAndRemove())
         == s.(m := Removed(s.m), outs := Waiting(s.m.sount - 1), removed := s.removed + [s.inserted[|s.removed|]])
  {
    hide Inv, Run, OutStep;
    LookOut(s);
    var t := OutStep(s, true);
    RunCons(s, Remover(true), [Remover(false), Remover(false), Remover(false), Remover(false)]);
    FourOf(t, Remover(false));
    OneRemoval(t);
  }

  // A look gives exactly the free and the stored bytes; with none, the side stays where it is.
  lemma LookIn(s: State, d: byte)
    requires Inv(s) && s.ins.Ready?
    ensures s.m.sount <= s.m.size && InStep(s, d, true) == s.(ins := Ready(s.m.size - s.m.sount))
    ensures s.ins.room == 0 ==> forall look :: InStep(s, d, look) == s.(ins := Ready(s.m.size - s.m.sount))
  {
    hide Holds, Slot, Unread;
  }

  lemma LookOut(s: State)
    requires Inv(s) && s.outs.Waiting?
    ensures OutStep(s, true) == s.(outs := Waiting(s.m.sount))
    ensures s.outs.avail == 0 ==> forall look :: OutStep(s, look) == s.(outs := Waiting(s.m.sount))
  {
    hide Holds, Slot, Unread;
  }

  lemma FourSteps(s: State)
    requires Inv(s)
    ensures Run(s, Removals(1)) == OutStep(OutStep(OutStep(OutStep(s, false), false), false), false)
  {
    hide Inv, InStep, OutStep, Run;
    var r := Remover(false);
    assert Removals(0) == [] && Removals(1) == [r, r, r, r] + Removals(0) == [r, r, r, r];
    FourOf(s, r);
  }

  lemma PrefixRemoved(s: State)
    requires Inv(s)
    ensures |s.removed| <= |s.inserted| && s.removed == s.inserted[..|s.removed|]
  {
  }

  // Nothing is lost: a remover that saw n bytes stored gets the next n bytes inserted, without
  // looking again.
  lemma {:induction false} Drains(s: State, n: nat)
    requires Inv(s) && s.outs == Waiting(n)
    ensures |s.removed| + n <= |s.inserted|
    ensures Run(s, Removals(n)).removed == s.inserted[..|s.removed| + n]
    ensures Run(s, Removals(n)).inserted == s.inserted && Run(s, Removals(n)).outs == Waiting(0)
    decreases n
  {
    hide Inv, InStep, OutStep;
    if n == 0 {
      assert Removals(0) == [];
      PrefixRemoved(s);
    } else {
      assert Removals(n) == Removals(1) + Removals(n - 1);
      RunConcat(s, Removals(1), Removals(n - 1));
      FourSteps(s);
      OneRemoval(s);
      Drains(Run(s, Removals(1)), n - 1);
    }
  }

  // When both sides are between calls, the memory is the queue of the bytes not removed yet, so a
  // call made without interruption does what Ring says.
  lemma AtRest(s: State)
    requires Inv(s) && s.ins.Ready? && s.outs.Waiting?
    ensures Queue(s.m, s.inserted[|s.removed|..])
  {
  }

  // No step overwrites a byte that is in the array and not read yet: a step of the inserter leaves
  // the unread bytes or appends one, a step of the remover leaves them or takes the first.
  lemma InserterKeepsUnread(s: State, d: byte, look: bool)
    requires Inv(s)
    ensures var t := InStep(s, d, look);
      (Unread(t) == Unread(s) || Unread(t) == Unread(s) + [d]) && t.removed == s.removed
  {
    hide Holds, Slot;
    if s.ins.Wrapped? {
      Counted(s);
    }
  }

  lemma RemoverKeepsUnread(s: State, look: bool)
    requires Inv(s)
    ensures var t := OutStep(s, look);
      (Unread(t) == Unread(s) || Unread(s) == [t.outs.v] + Unread(t))
      && t.m.data == s.m.data && t.inserted == s.inserted
  {
    hide Holds, Slot;
    if s.outs.Waiting? && s.outs.avail > 0 {
      LoadSafe(s);
    }
  }
}
