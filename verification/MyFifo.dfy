/** `my_fifo` of `utility.c`: a packet queue in num slots of size bytes, addressed by
    free-running 8-bit counters. */
module MyFifo {
  import opened Bits
  import opened Common
  import opened Words

  // The slot of a counter: ctr & (num - 1)
  function Slot(ctr: nat, num: nat): nat
    requires num > 0
  {
    And(ctr, num - 1)
  }

  // The counter k places on
  function Ahead(ctr: nat, k: nat): (c: byte) {
    (ctr + k) % 256
  }

  // ----- Which slot a counter selects

  lemma {:induction false} PowerDivides(j: nat, k: nat)
    requires j <= k
    ensures Pow2(k) == Pow2(j) * Pow2(k - j)
    decreases k
  {
    if j < k {
      PowerDivides(j, k - 1);
      assert Pow2(k) == 2 * (Pow2(j) * Pow2(k - 1 - j));
    }
  }

  lemma {:induction false} PowerBelow(k: nat)
    ensures k >= 8 ==> Pow2(k) >= 256
  {
    if k > 8 {
      PowerBelow(k - 1);
    } else if k == 8 {
      assert Pow2(4) == 16;
    }
  }

  lemma SlotIsRemainder(x: nat, num: nat)
    requires IsPow2(num) && num < 256
    ensures Slot(x % 256, num) == x % num < num
  {
    var k: nat :| num == Pow2(k);
    PowerBelow(k);
    PowerDivides(k, 8);
    assert Pow2(4) == 16 && Pow2(8) == 256;
    AndMask(x % 256, k);
    RemainderTwice(x, num, Pow2(8 - k));
  }

  lemma RemainderTwice(x: nat, m: nat, n: nat)
    requires m > 0 && n > 0
    ensures m * n > 0 && x % (m * n) % m == x % m
  {
    assert m * n > 0;
    var q, r := x / (m * n), x % (m * n);
    var s, t := r / m, r % m;
    assert x == m * n * q + r;
    assert x == m * (n * q + s) + t by {
      assert m * (n * q) == m * n * q;
      assert m * (n * q + s) == m * (n * q) + m * s;
    }
    ModUnique(x, m, n * q + s, t);
  }

  lemma RemaindersDiffer(x: nat, d: nat, m: nat)
    requires 0 < d < m
    ensures x % m != (x + d) % m
  {
    var q, r := x / m, x % m;
    assert x == m * q + r;
    assert m * (q + 1) == m * q + m;
    ModUnique(x + d, m, if r + d < m then q else q + 1, if r + d < m then r + d else r + d - m);
  }

  lemma SlotsApart(r: nat, j: nat, k: nat, num: nat)
    requires IsPow2(num) && num < 256 && j < num && k < num && j != k
    ensures Slot(Ahead(r, j), num) != Slot(Ahead(r, k), num)
  {
    SlotIsRemainder(r + j, num);
    SlotIsRemainder(r + k, num);
    if j < k {
      RemaindersDiffer(r + j, k - j, num);
    } else {
      RemaindersDiffer(r + k, j - k, num);
    }
  }

  lemma DoublePow2(h: nat)
    ensures IsPow2(h) ==> IsPow2(2 * h)
  {
    if k: nat :| h == Pow2(k) {
      assert 2 * h == Pow2(k + 1);
    }
  }

  // Below a number that is not all ones there is a power of two that it masks to nothing.
  lemma {:induction false} MaskedOut(m: nat) returns (b: nat)
    requires !IsPow2(m + 1)
    ensures Pow2(b) <= m && And(Pow2(b), m) == 0
  {
    assert m != 0 by {
      assert 1 == Pow2(0);
    }
    if m % 2 == 0 {
      b := 0;
    } else {
      DoublePow2(m / 2 + 1);
      b := MaskedOut(m / 2);
      b := b + 1;
    }
  }

  ghost predicate Collide(num: nat, r: nat, j: nat, k: nat)
    requires num > 0
  {
    r < 256 && j < k < num && Slot(Ahead(r, j), num) == Slot(Ahead(r, k), num)
  }

  // num packets in a row always lie in different slots exactly when num is a power of two.
  lemma SlotsDistinctIff(num: nat)
    requires 0 < num < 256
    ensures (forall r: nat, j: nat, k: nat :: !Collide(num, r, j, k)) <==> IsPow2(num)
  {
    if IsPow2(num) {
      forall r: nat, j: nat, k: nat
        ensures !Collide(num, r, j, k)
      {
        if j < k < num {
          SlotsApart(r, j, k, num);
        }
      }
    } else {
      var b := MaskedOut(num - 1);
      assert Collide(num, 0, 0, Pow2(b));
    }
  }

  lemma {:induction false} AndBelow(x: nat, y: nat)
    ensures And(x, y) <= y
  {
    if x != 0 && y != 0 {
      AndBelow(x / 2, y / 2);
    }
  }

  // ----- Slots and packets

  // A packet in the slot that starts at base: two length bytes, then the payload
  ghost predicate Packet(data: seq<byte>, base: nat, pkt: seq<byte>) {
    && base + 2 + |pkt| <= |data|
    && data[base] == |pkt| && data[base + 1] == 0
    && data[base + 2..base + 2 + |pkt|] == pkt
  }

  function Base(ctr: nat, num: nat, size: nat): nat
    requires num > 0
  {
    Slot(ctr, num) * size
  }

  // From counter r on, the slots hold the packets of q.
  ghost predicate Intact(data: seq<byte>, size: nat, num: nat, r: nat, q: seq<seq<byte>>) {
    forall k | 0 <= k < |q| :: num > 0 && Packet(data, Base(Ahead(r, k), num, size), q[k])
  }

  // Every packet fits its slot.
  ghost predicate Small(q: seq<seq<byte>>, size: nat) {
    forall k | 0 <= k < |q| :: |q[k]| + 2 <= size
  }

  // The store when the part x of an n-byte payload has been copied
  function Partly(data: seq<byte>, base: nat, n: byte, x: seq<byte>): (r: seq<byte>)
    requires base + 2 + |x| <= |data|
    ensures |r| == |data|
  {
    data[..base] + [n, n / 256] + x + data[base + 2 + |x|..]
  }

  // What my_fifo_push stores
  function Written(data: seq<byte>, base: nat, payload: seq<byte>): (r: seq<byte>)
    requires |payload| < 256 && base + 2 + |payload| <= |data|
    ensures |r| == |data|
  {
    Partly(data, base, |payload|, payload)
  }

  // data and more agree outside the slot that starts at base.
  ghost predicate SameOutside(data: seq<byte>, more: seq<byte>, base: nat, size: nat) {
    |data| == |more| && forall i | 0 <= i < |data| && !(base <= i < base + size) :: data[i] == more[i]
  }

  // The guard n >= size of my_fifo_push lets n == size - 1 through, which writes one byte into the
  // next slot: a push of n bytes keeps out of the other slots exactly when n + 2 <= size.
  lemma StaysInSlotIff(size: nat, n: nat)
    requires n < 256
    ensures (forall data: seq<byte>, base: nat, payload: seq<byte>
              | |payload| == n && base + 2 + n <= |data|
              :: SameOutside(data, Written(data, base, payload), base, size))
       <==> n + 2 <= size
  {
    if n + 2 > size {
      var data: seq<byte> := seq(n + 2, _ => 255);
      var payload: seq<byte> := seq(n, _ => 0);
      var w := Written(data, 0, payload);
      assert w[n + 1] == 0 && data[n + 1] == 255;
      assert !SameOutside(data, w, 0, size);
    }
  }

  lemma OneMore(data: seq<byte>, base: nat, n: byte, x: seq<byte>, c: byte)
    requires base + 2 + |x| < |data|
    ensures Partly(data, base, n, x)[base + 2 + |x| := c] == Partly(data, base, n, x + [c])
  {
  }

  lemma WrittenPacket(data: seq<byte>, base: nat, payload: seq<byte>)
    requires |payload| < 256 && base + 2 + |payload| <= |data|
    ensures Packet(Written(data, base, payload), base, payload)
    ensures |payload| == 0 || Written(data, base, payload)[base + 1 + |payload|] == payload[|payload| - 1]
  {
  }

  lemma NextBase(a: nat, b: nat, size: nat)
    requires a < b
    ensures 0 <= a * size && a * size + size <= b * size
  {
    var d := b - a - 1;
    assert b * size == a * size + size + d * size;
    Product(d, size);
    Product(a, size);
  }

  lemma Product(a: nat, b: nat)
    ensures a * b >= 0
  {
  }

  lemma BasesApart(a: nat, b: nat, size: nat)
    requires a != b
    ensures a * size + size <= b * size || b * size + size <= a * size
  {
    if a < b {
      NextBase(a, b, size);
    } else {
      NextBase(b, a, size);
    }
  }

  // Every slot lies in a store of num * size bytes.
  lemma BaseFits(ctr: nat, num: nat, size: nat)
    requires num > 0
    ensures Base(ctr, num, size) + size <= num * size
  {
    hide And;
    AndBelow(ctr, num - 1);
    NextBase(Slot(ctr, num), num, size);
  }

  lemma PacketKept(data: seq<byte>, base: nat, payload: seq<byte>, size: nat, other: nat, pkt: seq<byte>)
    requires |payload| < 256 && base + 2 + |payload| <= |data| && |payload| + 2 <= size
    requires Packet(data, other, pkt) && |pkt| + 2 <= size
    requires other + size <= base || base + size <= other
    ensures Packet(Written(data, base, payload), other, pkt)
  {
    var more := Written(data, base, payload);
    assert more[other + 2..other + 2 + |pkt|] == data[other + 2..other + 2 + |pkt|];
  }

  lemma Enqueued(data: seq<byte>, size: nat, num: nat, r: nat, q: seq<seq<byte>>, payload: seq<byte>)
    requires IsPow2(num) && |q| < num < 256 && Intact(data, size, num, r, q) && Small(q, size)
    requires |payload| < 256 && |payload| + 2 <= size
    requires Base(Ahead(r, |q|), num, size) + 2 + |payload| <= |data|
    ensures Intact(Written(data, Base(Ahead(r, |q|), num, size), payload), size, num, r, q + [payload])
  {
    hide Packet, Slot, Written, IsPow2;
    var base := Base(Ahead(r, |q|), num, size);
    forall k | 0 <= k < |q|
      ensures Packet(Written(data, base, payload), Base(Ahead(r, k), num, size), q[k])
    {
      SlotsApart(r, k, |q|, num);
      BasesApart(Slot(Ahead(r, k), num), Slot(Ahead(r, |q|), num), size);
      PacketKept(data, base, payload, size, Base(Ahead(r, k), num, size), q[k]);
    }
    WrittenPacket(data, base, payload);
  }

  lemma Dequeued(data: seq<byte>, size: nat, num: nat, r: nat, q: seq<seq<byte>>)
    requires q != [] && Intact(data, size, num, r, q)
    ensures Intact(data, size, num, Ahead(r, 1), q[1..])
  {
    hide Packet, Base;
    forall k | 0 <= k < |q| - 1
      ensures num > 0 && Packet(data, Base(Ahead(Ahead(r, 1), k), num, size), q[1..][k])
    {
      AheadTwice(r, k);
    }
  }

  lemma AheadTwice(r: nat, k: nat)
    ensures Ahead(Ahead(r, 1), k) == Ahead(r, k + 1)
  {
  }

  // ----- The state of a fifo, and what the calls make of it

  // The store, the counters, and the packets pushed and not popped yet
  datatype Store = Store(data: seq<byte>, wptr: byte, rptr: byte, queue: seq<seq<byte>>)

  // The counters tell how many packets are queued.
  ghost predicate Counts(s: Store, num: nat) {
    |s.queue| <= num && s.wptr == Ahead(s.rptr, |s.queue|)
  }

  ghost predicate Whole(s: Store, size: nat, num: nat) {
    Intact(s.data, size, num, s.rptr, s.queue)
  }

  // The guards of my_fifo_push let the payload through.
  predicate Accepts(s: Store, size: nat, num: nat, payload: seq<byte>) {
    |s.queue| < num && |payload| < size
  }

  // All bytes a push writes lie in the store.
  predicate InStore(s: Store, size: nat, num: nat, payload: seq<byte>) {
    |payload| < 256 && (Accepts(s, size, num, payload) ==> Base(s.wptr, num, size) + 2 + |payload| <= |s.data|)
  }

  function Pushed(s: Store, size: nat, num: nat, payload: seq<byte>): Store
    requires InStore(s, size, num, payload)
  {
    if Accepts(s, size, num, payload) then
      Store(Written(s.data, Base(s.wptr, num, size), payload), Ahead(s.wptr, 1), s.rptr, s.queue + [payload])
    else s
  }

  function Popped(s: Store): Store
    requires s.queue != []
  {
    Store(s.data, s.wptr, Ahead(s.rptr, 1), s.queue[1..])
  }

  // With num a power of two, a push of at most size - 2 bytes keeps every queued packet.
  lemma PushKeeps(s: Store, size: nat, num: nat, payload: seq<byte>)
    requires IsPow2(num) && num < 256 && Counts(s, num) && Whole(s, size, num) && Small(s.queue, size)
    requires InStore(s, size, num, payload) && |payload| + 1 != size
    ensures Whole(Pushed(s, size, num, payload), size, num) && Small(Pushed(s, size, num, payload).queue, size)
  {
    hide Intact, Written, Base, IsPow2;
    if Accepts(s, size, num, payload) {
      Enqueued(s.data, size, num, s.rptr, s.queue, payload);
    }
  }

  lemma PushCounts(s: Store, size: nat, num: nat, payload: seq<byte>)
    requires Counts(s, num) && InStore(s, size, num, payload)
    ensures Counts(Pushed(s, size, num, payload), num)
  {
    hide Written, Base;
    NextCounter(s.rptr, |s.queue|);
  }

  lemma PopCounts(s: Store, num: nat)
    requires Counts(s, num) && s.queue != []
    ensures Counts(Popped(s), num)
  {
    PoppedCounter(s.rptr, |s.queue|);
  }

  // ----- The fifo

  // Where the slot of a counter starts
  lemma BaseIs(ctr: byte, num: byte, size: byte)
    requires num > 0
    ensures IsPow2(num) ==> Base(ctr, num, size) == ctr % num * size
  {
    hide IsPow2, Slot;
    if IsPow2(num) {
      SlotIsRemainder(ctr, num);
    }
  }

  lemma PacketBytes(p: array<byte>, at: nat, pkt: seq<byte>)
    requires Packet(p[..], at, pkt)
    ensures at + 2 + |pkt| <= p.Length && p[at] == |pkt| && p[at + 1] == 0 && p[at + 2..at + 2 + |pkt|] == pkt
  {
  }

  class Fifo {
    const size: byte
    const num: byte
    const p: array<byte>
    var wptr: byte
    var rptr: byte
    ghost var queue: seq<seq<byte>>

    ghost function View(): Store
      reads this, p
    {
      Store(p[..], wptr, rptr, queue)
    }

    // The store has room for num slots, and the counters are right.
    ghost predicate Valid()
      reads this, p
    {
      num * size <= p.Length && Counts(View(), num)
    }

    constructor (s: byte, n: byte, store: array<byte>)
      requires n * s <= store.Length
      ensures Valid() && size == s && num == n && p == store
      ensures View() == Store(store[..], 0, 0, []) && Whole(View(), size, num)
    {
      size, num, p, wptr, rptr, queue := s, n, store, 0, 0, [];
    }

    // (wptr - rptr) & 255
    function Used(): nat
      reads this
    {
      And((wptr + 256 - rptr) % 256, 255)
    }

    lemma UsedIs()
      requires Valid()
      ensures Used() == |queue| && (rptr == wptr <==> queue == [])
    {
      hide And;
      Distance(rptr, |queue|);
    }

    method Wptr() returns (at: Option<nat>)
      requires Valid()
      ensures at.Some? <==> |queue| < num
      ensures at.Some? ==> at.value == Base(wptr, num, size) && at.value + size <= p.Length
    {
      hide And;
      UsedIs();
      if Used() < num {
        BaseFits(wptr, num, size);
        at := Some(And(wptr, num - 1) * size);
      } else {
        at := None;
      }
    }

    // The caller has written a packet into the slot that Wptr gave.
    method Next(ghost pkt: seq<byte>)
      requires Valid() && |queue| < num
      modifies this
      ensures Valid() && View() == old(View()).(wptr := Ahead(old(wptr), 1), queue := old(queue) + [pkt])
      ensures old(Whole(View(), size, num)) && Packet(p[..], Base(old(wptr), num, size), pkt) ==>
        Whole(View(), size, num)
    {
      hide Packet, Base;
      NextCounter(rptr, |queue|);
      wptr := (wptr + 1) % 256;
      queue := queue + [pkt];
    }

    method Push(src: array<byte>, n: byte) returns (r: int)
      requires Valid() && src != p && n <= src.Length && InStore(View(), size, num, src[..n])
      modifies this, p
      ensures Valid() && View() == Pushed(old(View()), size, num, src[..n])
      ensures r == 0 <==> |old(queue)| < num && n < size
      ensures r == 0 || r == -1
      ensures rptr == old(rptr) && wptr == (if r == 0 then (old(wptr) + 1) % 256 else old(wptr))
      ensures queue == if r == 0 then old(queue) + [src[..n]] else old(queue)
      ensures r == -1 ==> p[..] == old(p[..])
      ensures r == 0 && IsPow2(num) ==> Base(old(wptr), num, size) == old(wptr) % num * size
      ensures r == 0 ==>
        var at := Base(old(wptr), num, size);
        at + 2 + n <= p.Length && p[at] == n && p[at + 1] == 0 && p[at + 2..at + 2 + n] == src[..n]
      ensures IsPow2(num) && old(Whole(View(), size, num) && Small(queue, size)) && n + 1 != size ==>
        Whole(View(), size, num) && Small(queue, size)
    {
      hide Whole, Small, Base, IsPow2, Written, Used;
      if num > 0 {
        BaseIs(wptr, num, size);
      }
      UsedIs();
      PushCounts(View(), size, num, src[..n]);
      if IsPow2(num) && Whole(View(), size, num) && Small(queue, size) && n + 1 != size {
        PushKeeps(View(), size, num, src[..n]);
      }
      if Used() >= num {
        return -1;
      }
      if n >= size {
        return -1;
      }
      var pd := Base(wptr, num, size);
      wptr := (wptr + 1) % 256;
      WritePacket(pd, src, n);
      queue := queue + [src[..n]];
      r := 0;
    }

    // The two length bytes and the memcpy
    method WritePacket(pd: nat, src: array<byte>, n: byte)
      requires src != p && n <= src.Length && pd + 2 + n <= p.Length
      modifies p
      ensures p[..] == Written(old(p[..]), pd, src[..n])
      ensures p[pd] == n && p[pd + 1] == n / 256 && p[pd + 2..pd + 2 + n] == src[..n]
      ensures forall k | 0 <= k < p.Length && !(pd <= k < pd + 2 + n) :: p[k] == old(p[k])
    {
      ghost var was := p[..];
      p[pd] := n;
      p[pd + 1] := n / 256;
      var i: nat := 0;
      assert p[..] == Partly(was, pd, n, src[..0]);
      while i < n
        invariant i <= n
        invariant p[..] == Partly(was, pd, n, src[..i])
      {
        OneMore(was, pd, n, src[..i], src[i]);
        assert src[..i + 1] == src[..i] + [src[i]];
        p[pd + 2 + i] := src[i];
        i := i + 1;
      }
    }

    method Pop()
      requires Valid() && queue != []
      modifies this
      ensures Valid() && View() == Popped(old(View()))
      ensures rptr == (old(rptr) + 1) % 256 && wptr == old(wptr) && queue == old(queue)[1..]
      ensures old(Whole(View(), size, num)) ==> Whole(View(), size, num)
    {
      hide Intact;
      PopCounts(View(), num);
      if Whole(View(), size, num) {
        Dequeued(p[..], size, num, rptr, queue);
      }
      rptr := (rptr + 1) % 256;
      queue := queue[1..];
    }

    method Get() returns (at: Option<nat>)
      requires Valid()
      ensures at.None? <==> queue == []
      ensures at.Some? ==> at.value == Base(rptr, num, size)
      ensures at.Some? && IsPow2(num) ==> at.value == rptr % num * size
      ensures at.Some? && Whole(View(), size, num) ==> Packet(p[..], at.value, queue[0])
      ensures at.Some? && Whole(View(), size, num) ==>
        at.value + 2 + |queue[0]| <= p.Length && p[at.value] == |queue[0]| && p[at.value + 1] == 0 &&
        p[at.value + 2..at.value + 2 + |queue[0]|] == queue[0]
    {
      hide Packet, And, IsPow2, Base;
      UsedIs();
      if rptr != wptr {
        BaseIs(rptr, num, size);
        assert Ahead(rptr, 0) == rptr;
        at := Some(Base(rptr, num, size));
        if Whole(View(), size, num) {
          PacketBytes(p, at.value, queue[0]);
        }
      } else {
        at := None;
      }
    }
  }

  lemma Distance(r: byte, n: nat)
    requires n < 256
    ensures And((Ahead(r, n) + 256 - r) % 256, 255) == n
    ensures r == Ahead(r, n) <==> n == 0
  {
    hide And;
    assert Pow2(4) == 16 && Pow2(8) == 256;
    AndMask((Ahead(r, n) + 256 - r) % 256, 8);
  }

  lemma NextCounter(r: byte, n: nat)
    ensures (Ahead(r, n) + 1) % 256 == Ahead(r, n + 1)
  {
  }

  lemma PoppedCounter(r: byte, n: nat)
    requires n > 0
    ensures Ahead(r, n) == Ahead((r + 1) % 256, n - 1)
  {
  }
}
