/** The sending side of `usbcdc.c` and `usb_uart.c`: buffers go out in chunks of at most 64 bytes,
    completion is reported by a callback that runs later, and writes that find the transmitter taken
    wait in a pending queue.  This module has the state machine and its invariants. */
module UsbCdc {
  import opened Common
  import opened Seqs
  import opened Words

  const EPSIZE: nat := 64

  // A caller's buffer: where it is, and the bytes to send from it
  datatype Buffer = Buffer(ptr: nat, data: seq<byte>)

  datatype Status = SUCCESS | USB_BUSY | USB_MULTIBLOCK

  // cdc_v, the scheduled completion callbacks, the pending queue and the chunks given to the endpoint;
  // then what the run has done: the buffers submitted, sent in full (in this order) and freed.
  datatype State = State(
    lenToSend: nat, lastSendIndex: nat, txBuf: Option<Buffer>,
    callbacks: seq<Buffer>, pending: seq<Buffer>, wire: seq<seq<byte>>,
    submitted: multiset<Buffer>, sent: seq<Buffer>, freed: multiset<Buffer>)

  function Init(): (s: State)
    ensures Inv(s)
  {
    State(0, 0, None, [], [], [], multiset{}, [], multiset{})
  }

  // ----- Chunks

  function Chunks(d: seq<byte>): (c: seq<seq<byte>>)
    ensures |c| == (|d| + EPSIZE - 1) / EPSIZE
  {
    if d == [] then [] else [d[..Min(EPSIZE, |d|)]] + Chunks(d[Min(EPSIZE, |d|)..])
  }

  function Flatten(c: seq<seq<byte>>): seq<byte> {
    if c == [] then [] else c[0] + Flatten(c[1..])
  }

  // The chunks of a buffer make up the buffer; each has 1 to 64 bytes and all but the last 64.
  lemma {:induction false} ChunksMakeUp(d: seq<byte>)
    ensures Flatten(Chunks(d)) == d
    ensures forall k | 0 <= k < |Chunks(d)| :: 1 <= |Chunks(d)[k]| <= 64
    ensures forall k | 0 <= k < |Chunks(d)| - 1 :: |Chunks(d)[k]| == 64
  {
    if d != [] {
      ChunksMakeUp(d[Min(EPSIZE, |d|)..]);
      assert Chunks(d)[1..] == Chunks(d[Min(EPSIZE, |d|)..]);
    }
  }

  // usbcdc_sendBulkData also copies each chunk to T_BUF, which has room for 60 bytes.
  const T_BUF_SIZE: nat := 60

  // The copies of all chunks of a buffer fit T_BUF exactly when the whole buffer does.
  lemma DebugCopyFitsIff(d: seq<byte>)
    ensures (forall k | 0 <= k < |Chunks(d)| :: |Chunks(d)[k]| <= T_BUF_SIZE) <==> |d| <= 60
  {
    if d != [] {
      assert Chunks(d)[0] == d[..Min(EPSIZE, |d|)];
      if |d| <= EPSIZE {
        assert Chunks(d[|d|..]) == [];
      }
    }
  }

  lemma {:induction false} ChunksSnoc(x: seq<byte>, y: seq<byte>)
    requires |x| % EPSIZE == 0 && 1 <= |y| <= EPSIZE
    ensures Chunks(x + y) == Chunks(x) + [y]
    decreases |x|
  {
    if x == [] {
      assert x + y == y && y[..|y|] == y && y[|y|..] == [];
    } else {
      assert (x + y)[..EPSIZE] == x[..EPSIZE] && (x + y)[EPSIZE..] == x[EPSIZE..] + y;
      ChunksSnoc(x[EPSIZE..], y);
    }
  }

  // The chunks of the buffers of b, one buffer after the other
  function AllChunks(b: seq<Buffer>): seq<seq<byte>> {
    if b == [] then [] else AllChunks(b[..|b| - 1]) + Chunks(b[|b| - 1].data)
  }

  function AllBytes(b: seq<Buffer>): seq<byte> {
    if b == [] then [] else AllBytes(b[..|b| - 1]) + b[|b| - 1].data
  }

  lemma {:induction false} FlattenConcat(x: seq<seq<byte>>, y: seq<seq<byte>>)
    ensures Flatten(x + y) == Flatten(x) + Flatten(y)
    decreases |x|
  {
    if x == [] {
      assert x + y == y;
    } else {
      assert (x + y)[1..] == x[1..] + y;
      FlattenConcat(x[1..], y);
    }
  }

  lemma {:induction false} AllChunksMakeUp(b: seq<Buffer>)
    ensures Flatten(AllChunks(b)) == AllBytes(b)
    decreases |b|
  {
    if b != [] {
      AllChunksMakeUp(b[..|b| - 1]);
      FlattenConcat(AllChunks(b[..|b| - 1]), Chunks(b[|b| - 1].data));
      ChunksMakeUp(b[|b| - 1].data);
    }
  }

  // ----- Invariants

  // The buffer in transfer, if any
  function InFlight(s: State): seq<Buffer> {
    if s.txBuf.Some? then [s.txBuf.value] else []
  }

  // The wire has the chunks of the buffers sent, then those of the current one so far.
  ghost predicate Transfer(s: State) {
    match s.txBuf
    case None => s.lenToSend == 0 && s.lastSendIndex == 0 && s.wire == AllChunks(s.sent)
    case Some(b) =>
      && s.lastSendIndex + s.lenToSend == |b.data| && s.lastSendIndex % EPSIZE == 0
      && (s.lenToSend > 0 || b.data == [])
      && s.wire == AllChunks(s.sent) + Chunks(b.data[..s.lastSendIndex])
  }

  // The buffers the driver holds or is done with
  function Owned(s: State): multiset<Buffer> {
    s.freed + multiset(s.callbacks) + multiset(InFlight(s)) + multiset(s.pending)
  }

  // A waiting write has something that will wake it.
  predicate Awake(s: State) {
    s.pending != [] ==> s.txBuf.Some? || s.callbacks != []
  }

  // Every buffer sent has been freed, or its callback is scheduled.
  ghost predicate Settled(s: State) {
    multiset(s.sent) == s.freed + multiset(s.callbacks)
  }

  ghost predicate Inv(s: State) {
    Transfer(s) && Awake(s) && Settled(s) && s.submitted == Owned(s)
  }

  // ----- usbcdc.c

  function SendBulk(s: State, busy: bool): (t: State)
    requires Transfer(s)
  {
    if busy then s
    else
      var len := Min(EPSIZE, s.lenToSend);
      if len == 0 then s
      else
        var b := s.txBuf.value;
        var u := s.(lenToSend := s.lenToSend - len, lastSendIndex := s.lastSendIndex + len,
                    wire := s.wire + [b.data[s.lastSendIndex..s.lastSendIndex + len]]);
        if u.lenToSend > 0 then u
        else u.(lastSendIndex := 0, txBuf := None, callbacks := u.callbacks + [b], sent := u.sent + [b])
  }

  function SendData(s: State, b: Buffer, busy: bool): (t: State)
    requires Transfer(s)
  {
    if s.txBuf.Some? then s
    else
      Started(s, b);
      SendBulk(s.(lenToSend := |b.data|, txBuf := Some(b), lastSendIndex := 0), busy)
  }

  lemma Started(s: State, b: Buffer)
    requires Transfer(s) && s.txBuf.None?
    ensures Transfer(s.(lenToSend := |b.data|, txBuf := Some(b), lastSendIndex := 0))
  {
    assert b.data[..0] == [] && Chunks([]) == [];
    assert AllChunks(s.sent) + [] == AllChunks(s.sent);
  }

  // ----- usb_uart.c

  // usb_uart_write
  function Write(s: State, b: Buffer, busy: bool): (t: State)
    requires Transfer(s)
  {
    if s.txBuf.None? then SendData(s, b, busy) else s.(pending := s.pending + [b])
  }

  // A caller's write
  function Submit(s: State, b: Buffer, busy: bool): (t: State)
    requires Transfer(s)
  {
    Write(s.(submitted := s.submitted + multiset{b}), b, busy)
  }

  // The buffer of the i-th scheduled callback is freed.
  function Free(s: State, i: nat): State
    requires i < |s.callbacks|
  {
    s.(callbacks := Without(s.callbacks, i), freed := s.freed + multiset{s.callbacks[i]})
  }

  // usb_uart_tXFinishCb, run for the i-th scheduled callback; the queue gives up its j-th entry.
  function Finish(s: State, i: nat, j: nat, busy: bool): (t: State)
    requires Transfer(s) && i < |s.callbacks| && (s.pending != [] ==> j < |s.pending|)
  {
    var u := Free(s, i);
    if s.pending == [] then u
    else Write(u.(pending := Without(s.pending, j)), s.pending[j], busy)
  }

  // ----- Every step keeps the invariants

  lemma ChunkNext(d: seq<byte>, i: nat, len: nat)
    requires i % EPSIZE == 0 && 0 < len <= EPSIZE && i + len <= |d|
    ensures Chunks(d[..i + len]) == Chunks(d[..i]) + [d[i..i + len]]
  {
    ChunksSnoc(d[..i], d[i..i + len]);
    assert d[..i + len] == d[..i] + d[i..i + len];
  }

  lemma AllChunksSnoc(q: seq<Buffer>, b: Buffer)
    ensures AllChunks(q + [b]) == AllChunks(q) + Chunks(b.data)
  {
    assert (q + [b])[..|q|] == q;
  }

  lemma SendBulkTransfers(s: State, busy: bool)
    requires Transfer(s)
    ensures Transfer(SendBulk(s, busy))
  {
    hide Chunks, AllChunks;
    if !busy && s.lenToSend > 0 {
      var b, i, len := s.txBuf.value, s.lastSendIndex, Min(EPSIZE, s.lenToSend);
      ChunkNext(b.data, i, len);
      AllChunksSnoc(s.sent, b);
      assert b.data[..|b.data|] == b.data;
      assert AllChunks(s.sent) + Chunks(b.data[..i]) + [b.data[i..i + len]]
          == AllChunks(s.sent) + (Chunks(b.data[..i]) + [b.data[i..i + len]]);
    }
  }

  lemma SnocMultiset<T>(q: seq<T>, x: T)
    ensures multiset(q + [x]) == multiset(q) + multiset{x}
  {
  }

  lemma Sending(s: State)
    requires Transfer(s) && s.lenToSend > 0
    ensures s.txBuf.Some? && s.lastSendIndex + s.lenToSend == |s.txBuf.value.data|
  {
  }

  lemma SendBulkKeeps(s: State, busy: bool)
    requires Transfer(s)
    ensures var t := SendBulk(s, busy);
      && Transfer(t) && Owned(t) == Owned(s) && (Awake(s) ==> Awake(t)) && (Settled(s) ==> Settled(t))
      && t.submitted == s.submitted && (t.txBuf.Some? || t.callbacks != [] || t == s)
  {
    hide Transfer, Chunks, AllChunks;
    SendBulkTransfers(s, busy);
    if !busy && s.lenToSend > 0 {
      Sending(s);
      var b := s.txBuf.value;
      SnocMultiset(s.callbacks, b);
      SnocMultiset(s.sent, b);
      var none: seq<Buffer> := [];
      assert multiset(none) == multiset{} && multiset([b]) == multiset{b};
    }
  }

  // A write adds its buffer to what the driver owns, and leaves something to wake the queue.
  lemma WriteKeeps(s: State, b: Buffer, busy: bool)
    requires Transfer(s) && Settled(s)
    ensures var t := Write(s, b, busy);
      && Transfer(t) && Settled(t) && Owned(t) == Owned(s) + multiset{b}
      && t.submitted == s.submitted && (t.txBuf.Some? || t.callbacks != [])
  {
    if s.txBuf.None? {
      Started(s, b);
      SendBulkKeeps(s.(lenToSend := |b.data|, txBuf := Some(b), lastSendIndex := 0), busy);
    }
  }

  lemma FinishKeeps(s: State, i: nat, j: nat, busy: bool)
    requires Inv(s) && i < |s.callbacks| && (s.pending != [] ==> j < |s.pending|)
    ensures Inv(Finish(s, i, j, busy))
  {
    hide Without, Write;
    FreeKeeps(s, i);
    var u := Free(s, i);
    if s.pending != [] {
      PopKeeps(u, j);
      WriteKeeps(u.(pending := Without(u.pending, j)), u.pending[j], busy);
    }
  }

  lemma FreeKeeps(s: State, i: nat)
    requires Transfer(s) && Settled(s) && i < |s.callbacks|
    ensures var u := Free(s, i); Transfer(u) && Settled(u) && Owned(u) == Owned(s)
  {
    hide Without;
    WithoutMultiset(s.callbacks, i);
  }

  lemma PopKeeps(s: State, j: nat)
    requires Transfer(s) && Settled(s) && j < |s.pending|
    ensures var u := s.(pending := Without(s.pending, j));
      Transfer(u) && Settled(u) && Owned(s) == Owned(u) + multiset{s.pending[j]}
  {
    hide Without;
    WithoutMultiset(s.pending, j);
  }

  lemma SubmitKeeps(s: State, b: Buffer, busy: bool)
    requires Inv(s)
    ensures Inv(Submit(s, b, busy))
  {
    WriteKeeps(s.(submitted := s.submitted + multiset{b}), b, busy);
  }

  // ----- Runs

  // A write by the application, an endpoint interrupt, or a scheduled callback; each finds the
  // endpoint busy or not.
  datatype Action =
    | WriteAction(b: Buffer, busy: bool)
    | Interrupt(busy: bool)
    | Callback(i: nat, j: nat, busy: bool)

  predicate Enabled(s: State, a: Action) {
    a.Callback? ==> a.i < |s.callbacks| && (s.pending != [] ==> a.j < |s.pending|)
  }

  function Step(s: State, a: Action): (t: State)
    requires Inv(s) && Enabled(s, a)
    ensures Inv(t)
  {
    match a
    case WriteAction(b, busy) => SubmitKeeps(s, b, busy); Submit(s, b, busy)
    case Interrupt(busy) => SendBulkKeeps(s, busy); SendBulk(s, busy)
    case Callback(i, j, busy) => FinishKeeps(s, i, j, busy); Finish(s, i, j, busy)
  }

  ghost predicate Legal(s: State, run: seq<Action>)
    requires Inv(s)
    decreases |run|
  {
    run == [] || (Enabled(s, run[0]) && Legal(Step(s, run[0]), run[1..]))
  }

  function Run(s: State, run: seq<Action>): (t: State)
    requires Inv(s) && Legal(s, run)
    ensures Inv(t)
    decreases |run|
  {
    if run == [] then s else Run(Step(s, run[0]), run[1..])
  }

  // In every run: the wire carries the buffers sent, whole and one after the other, then the part
  // of the current one that is out; and no buffer completes more often than it was submitted.
  lemma EveryRun(run: seq<Action>)
    requires Legal(Init(), run)
    ensures var s := Run(Init(), run);
      && Flatten(s.wire) == AllBytes(s.sent) + (if s.txBuf.Some? then s.txBuf.value.data[..s.lastSendIndex] else [])
      && s.submitted == WrittenIn(run) && s.submitted == multiset(s.sent) + multiset(InFlight(s)) + multiset(s.pending)
      && (s.pending != [] ==> s.txBuf.Some? || s.callbacks != [])
  {
    hide Step, Run, Legal;
    RunSubmits(Init(), run);
    WireBytes(Run(Init(), run));
  }

  lemma WireBytes(s: State)
    requires Transfer(s)
    ensures Flatten(s.wire) == AllBytes(s.sent) + (if s.txBuf.Some? then s.txBuf.value.data[..s.lastSendIndex] else [])
  {
    hide Flatten, Chunks, AllChunks, AllBytes;
    AllChunksMakeUp(s.sent);
    if s.txBuf.Some? {
      var x := s.txBuf.value.data[..s.lastSendIndex];
      FlattenConcat(AllChunks(s.sent), Chunks(x));
      ChunksMakeUp(x);
    }
  }

  // The buffers that the application writes in a run
  ghost function WrittenIn(run: seq<Action>): multiset<Buffer> {
    if run == [] then multiset{}
    else (if run[0].WriteAction? then multiset{run[0].b} else multiset{}) + WrittenIn(run[1..])
  }

  lemma StepSubmits(s: State, a: Action)
    requires Inv(s) && Enabled(s, a)
    ensures Step(s, a).submitted == s.submitted + (if a.WriteAction? then multiset{a.b} else multiset{})
  {
    hide Inv, SendBulk, Submit, Finish;
    match a {
      case WriteAction(b, busy) => ReadyToWrite(s, b, busy);
      case Interrupt(busy) => BulkSubmits(s, busy);
      case Callback(i, j, busy) => FinishSubmits(s, i, j, busy);
    }
  }

  lemma ReadyToWrite(s: State, b: Buffer, busy: bool)
    requires Inv(s)
    ensures Transfer(s) && Transfer(s.(submitted := s.submitted + multiset{b}))
    ensures Submit(s, b, busy).submitted == s.submitted + multiset{b}
  {
    hide Chunks, AllChunks;
    WriteKeeps(s.(submitted := s.submitted + multiset{b}), b, busy);
  }

  lemma BulkSubmits(s: State, busy: bool)
    requires Inv(s)
    ensures SendBulk(s, busy).submitted == s.submitted
  {
    SendBulkKeeps(s, busy);
  }

  lemma FinishSubmits(s: State, i: nat, j: nat, busy: bool)
    requires Inv(s) && i < |s.callbacks| && (s.pending != [] ==> j < |s.pending|)
    ensures Finish(s, i, j, busy).submitted == s.submitted
  {
    hide Write, Without;
    FreeKeeps(s, i);
    var u := Free(s, i);
    if s.pending != [] {
      PopKeeps(u, j);
      WriteKeeps(u.(pending := Without(u.pending, j)), u.pending[j], busy);
    }
  }

  // Every write of a run is submitted, and nothing else is.
  lemma {:induction false} RunSubmits(s: State, run: seq<Action>)
    requires Inv(s) && Legal(s, run)
    ensures Run(s, run).submitted == s.submitted + WrittenIn(run)
    decreases |run|
  {
    hide Inv, Step, Enabled;
    if run != [] {
      StepSubmits(s, run[0]);
      RunSubmits(Step(s, run[0]), run[1..]);
    }
  }

  // When no buffer is submitted twice, none completes twice.
  lemma CompletesOnce(run: seq<Action>)
    requires Legal(Init(), run)
    ensures var s := Run(Init(), run);
      (forall b :: s.submitted[b] <= 1) ==> forall i, j | 0 <= i < j < |s.sent| :: s.sent[i] != s.sent[j]
  {
    hide Step, Run, Legal, Transfer;
    var s := Run(Init(), run);
    forall i, j | 0 <= i < j < |s.sent| && s.sent[i] == s.sent[j]
      ensures s.submitted[s.sent[i]] >= 2
    {
      Twice(s.sent, i, j);
    }
  }

  lemma Twice<T>(q: seq<T>, i: nat, j: nat)
    requires i < j < |q| && q[i] == q[j]
    ensures multiset(q)[q[i]] >= 2
  {
    assert q == q[..j] + [q[j]] + q[j + 1..];
    assert q[i] in q[..j];
  }

  // ----- Progress

  // The steps a buffer still to be started costs: its chunks, then its callback
  function Cost(b: Buffer): nat {
    |Chunks(b.data)| + 1
  }

  function Costs(q: seq<Buffer>): nat {
    if q == [] then 0 else Cost(q[0]) + Costs(q[1..])
  }

  function Work(s: State): nat {
    |s.callbacks| + Costs(s.pending) + (if s.txBuf.Some? then (s.lenToSend + EPSIZE - 1) / EPSIZE + 1 else 0)
  }

  lemma {:induction false} CostsDrop(q: seq<Buffer>, i: nat)
    requires i < |q|
    ensures Costs(q) == Costs(Without(q, i)) + Cost(q[i])
    decreases i
  {
    if i == 0 {
      assert Without(q, 0) == q[1..];
    } else {
      CostsDrop(q[1..], i - 1);
      assert Without(q, i)[0] == q[0] && Without(q, i)[1..] == Without(q[1..], i - 1);
    }
  }

  lemma {:induction false} CostsSnoc(q: seq<Buffer>, b: Buffer)
    ensures Costs(q + [b]) == Costs(q) + Cost(b)
    decreases |q|
  {
    if q == [] {
      assert [b][1..] == [] && q + [b] == [b];
    } else {
      CostsSnoc(q[1..], b);
      assert (q + [b])[1..] == q[1..] + [b];
    }
  }

  // A ready endpoint takes one unit of work, unless nothing is left of the buffer in transfer.
  lemma SendBulkWorks(s: State, busy: bool)
    requires Transfer(s)
    ensures Work(SendBulk(s, busy)) == Work(s) - (if !busy && s.lenToSend > 0 then 1 else 0)
  {
  }

  lemma WriteWorks(s: State, b: Buffer, busy: bool)
    requires Transfer(s)
    ensures Work(Write(s, b, busy)) <= Work(s) + Cost(b)
  {
    if s.txBuf.None? {
      Started(s, b);
      SendBulkWorks(s.(lenToSend := |b.data|, txBuf := Some(b), lastSendIndex := 0), busy);
    } else {
      CostsSnoc(s.pending, b);
    }
  }

  lemma FinishWorks(s: State, i: nat, j: nat, busy: bool)
    requires Transfer(s) && i < |s.callbacks| && (s.pending != [] ==> j < |s.pending|)
    ensures Work(Finish(s, i, j, busy)) < Work(s)
  {
    var u := Free(s, i);
    if s.pending != [] {
      CostsDrop(s.pending, j);
      WriteWorks(u.(pending := Without(s.pending, j)), s.pending[j], busy);
    }
  }

  // A step that does something: a chunk goes out, or a callback runs
  predicate Effective(s: State, a: Action) {
    a.Callback? || (a.Interrupt? && !a.busy && s.lenToSend > 0)
  }

  ghost predicate Working(s: State, run: seq<Action>)
    requires Inv(s)
    decreases |run|
  {
    run == [] || (Enabled(s, run[0]) && Effective(s, run[0]) && Working(Step(s, run[0]), run[1..]))
  }

  // Without new writes, at most Work(s) effective steps can follow.
  lemma {:induction false} WorkRunsOut(s: State, run: seq<Action>)
    requires Inv(s) && Working(s, run)
    ensures |run| <= Work(s)
    decreases |run|
  {
    hide Inv, Step, Enabled, Effective, Work;
    if run != [] {
      EffectiveWorks(s, run[0]);
      WorkRunsOut(Step(s, run[0]), run[1..]);
    }
  }

  ghost predicate Stopped(s: State) {
    forall a | Enabled(s, a) :: !Effective(s, a)
  }

  // When nothing effective is left to do, every buffer submitted has been freed, exactly if the
  // transmitter does not hold an empty buffer.
  lemma StoppedOutcome(s: State)
    requires Inv(s) && Stopped(s)
    ensures s.freed == s.submitted <==> s.txBuf.None?
    ensures s.txBuf.Some? ==> s.txBuf.value.data == []
  {
    if s.callbacks != [] {
      assert Enabled(s, Callback(0, 0, true)) && Effective(s, Callback(0, 0, true));
    }
    if s.lenToSend > 0 {
      assert Enabled(s, Interrupt(false)) && Effective(s, Interrupt(false));
    }
    if s.txBuf.Some? {
      var b := s.txBuf.value;
      assert InFlight(s) == [b];
      assert s.submitted[b] > s.freed[b];
    }
  }

  // Effective steps lead every state to one where none is left.
  lemma {:induction false} CanStop(s: State) returns (run: seq<Action>)
    requires Inv(s)
    ensures Working(s, run) && Legal(s, run) && Stopped(Run(s, run))
    decreases Work(s)
  {
    hide Inv, Step, Enabled, Effective, Stopped, Work;
    run := [];
    if !Stopped(s) {
      var a := SomeEffective(s);
      EffectiveWorks(s, a);
      var rest := CanStop(Step(s, a));
      run := [a] + rest;
      assert run[0] == a && run[1..] == rest;
    }
  }

  lemma SomeEffective(s: State) returns (a: Action)
    requires !Stopped(s)
    ensures Enabled(s, a) && Effective(s, a)
  {
    a :| Enabled(s, a) && Effective(s, a);
  }

  lemma EffectiveWorks(s: State, a: Action)
    requires Inv(s) && Enabled(s, a) && Effective(s, a)
    ensures Work(Step(s, a)) < Work(s)
  {
    hide SendBulk, Finish, Work;
    match a {
      case Interrupt(busy) => SendBulkWorks(s, busy);
      case Callback(i, j, busy) => FinishWorks(s, i, j, busy);
    }
  }

  // Only buffers with something to send are ever sent.
  ghost predicate SentNonEmpty(s: State) {
    forall i | 0 <= i < |s.sent| :: s.sent[i].data != []
  }

  lemma SendBulkNonEmpty(s: State, busy: bool)
    requires Transfer(s) && SentNonEmpty(s)
    ensures SentNonEmpty(SendBulk(s, busy))
  {
    hide Chunks, AllChunks;
  }

  lemma WriteNonEmpty(s: State, b: Buffer, busy: bool)
    requires Transfer(s) && SentNonEmpty(s)
    ensures SentNonEmpty(Write(s, b, busy))
  {
    hide SendBulk;
    if s.txBuf.None? {
      Started(s, b);
      SendBulkNonEmpty(s.(lenToSend := |b.data|, txBuf := Some(b), lastSendIndex := 0), busy);
    }
  }

  lemma StepNonEmpty(s: State, a: Action)
    requires Inv(s) && Enabled(s, a) && SentNonEmpty(s)
    ensures SentNonEmpty(Step(s, a))
  {
    hide SendBulk, Write, Without;
    match a {
      case WriteAction(b, busy) => WriteNonEmpty(s.(submitted := s.submitted + multiset{b}), b, busy);
      case Interrupt(busy) => SendBulkNonEmpty(s, busy);
      case Callback(i, j, busy) =>
        FreeKeeps(s, i);
        if s.pending != [] {
          WriteNonEmpty(Free(s, i).(pending := Without(s.pending, j)), s.pending[j], busy);
        }
    }
  }

  lemma {:induction false} RunNonEmpty(s: State, run: seq<Action>)
    requires Inv(s) && Legal(s, run) && SentNonEmpty(s)
    ensures SentNonEmpty(Run(s, run))
    decreases |run|
  {
    hide Inv, Step, Enabled, SentNonEmpty;
    if run != [] {
      StepNonEmpty(s, run[0]);
      RunNonEmpty(Step(s, run[0]), run[1..]);
    }
  }

  // A run that has come to rest has freed everything submitted exactly if no buffer submitted was
  // empty, however its writes, interrupts and callbacks were ordered.
  lemma AllFreedIff(run: seq<Action>)
    requires Legal(Init(), run) && Stopped(Run(Init(), run))
    ensures Run(Init(), run).freed == WrittenIn(run) <==> forall b | b in WrittenIn(run) :: b.data != []
  {
    hide Step, Run, Legal, Stopped, Transfer;
    var s := Run(Init(), run);
    RunSubmits(Init(), run);
    RunNonEmpty(Init(), run);
    StoppedOutcome(s);
    if s.txBuf.Some? {
      assert InFlight(s) == [s.txBuf.value];
      assert s.txBuf.value in s.submitted;
    }
    forall b | b in s.freed
      ensures b.data != []
    {
      assert b in multiset(s.sent);
      var i :| 0 <= i < |s.sent| && s.sent[i] == b;
    }
  }

  // n interrupts that find the endpoint ready
  function Interrupts(s: State, n: nat): (t: State)
    requires Transfer(s)
    ensures Transfer(t)
    decreases n
  {
    if n == 0 then s
    else
      SendBulkTransfers(s, false);
      Interrupts(SendBulk(s, false), n - 1)
  }

  lemma {:induction false} InterruptsSend(s: State, n: nat)
    requires Transfer(s) && s.txBuf.Some?
    ensures Interrupts(s, n).txBuf.None? <==> s.lenToSend > 0 && n >= (s.lenToSend + EPSIZE - 1) / EPSIZE
    ensures Interrupts(s, n).txBuf.Some? ==> Interrupts(s, n).sent == s.sent
    ensures Interrupts(s, n).txBuf.None? ==> Interrupts(s, n).sent == s.sent + [s.txBuf.value]
    decreases n
  {
    hide Chunks, AllChunks;
    if n > 0 {
      SendBulkTransfers(s, false);
      var t := SendBulk(s, false);
      if t.txBuf.Some? {
        InterruptsSend(t, n - 1);
      } else {
        IdleStays(t, n - 1);
      }
    }
  }

  lemma {:induction false} IdleStays(s: State, n: nat)
    requires Transfer(s) && s.txBuf.None?
    ensures Interrupts(s, n) == s
    decreases n
  {
    if n > 0 {
      IdleStays(s, n - 1);
    }
  }

  // A buffer handed to an idle transmitter is sent by n ready interrupts exactly if it is not empty
  // and has at most n chunks.
  lemma CompletesIff(s: State, b: Buffer, n: nat)
    requires Inv(s) && s.txBuf.None?
    ensures Transfer(SendData(s, b, true))
    ensures var t := Interrupts(SendData(s, b, true), n);
      && (t.sent == s.sent + [b] <==> b.data != [] && n >= |Chunks(b.data)|)
      && (t.sent == s.sent <==> b.data == [] || n < |Chunks(b.data)|)
  {
    hide Transfer, Chunks;
    Started(s, b);
    var t := SendData(s, b, true);
    InterruptsSend(t, n);
  }

  // With an empty buffer in transfer no chunk goes out and no buffer completes, ever again.
  lemma {:induction false} EmptyBlocks(s: State, run: seq<Action>)
    requires Inv(s) && s.txBuf.Some? && s.txBuf.value.data == [] && Legal(s, run)
    ensures var t := Run(s, run); t.txBuf == s.txBuf && t.wire == s.wire && t.sent == s.sent
    decreases |run|
  {
    hide Inv, Transfer, Enabled, Step;
    if run != [] {
      EmptyStays(s, run[0]);
      EmptyBlocks(Step(s, run[0]), run[1..]);
    }
  }

  lemma EmptyStays(s: State, a: Action)
    requires Inv(s) && s.txBuf.Some? && s.txBuf.value.data == [] && Enabled(s, a)
    ensures var t := Step(s, a); t.txBuf == s.txBuf && t.wire == s.wire && t.sent == s.sent
  {
    hide Chunks, AllChunks;
  }
}
