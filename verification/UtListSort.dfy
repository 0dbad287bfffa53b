/** The in-place list mergesorts of `utlist.h`: singly linked, doubly linked and circular. */
module UtListSort {
  import opened Common
  import opened MergeTheory
  import opened Seqs
  import opened Nodes

  // Element i of s, or null past the end.
  ghost function At(s: seq<Node>, i: nat): Node? {
    if i < |s| then s[i] else null
  }

  // From index `from` on, each node of s still points to its successor; the last one to `stop`.
  ghost predicate Feed(s: seq<Node>, from: nat, stop: Node?)
    reads s
  {
    forall i {:trigger s[i].next} | from <= i < |s| :: s[i].next == if i + 1 < |s| then s[i + 1] else stop
  }

  // s is linked forward, from list to tail; the tail's own next is not constrained.
  ghost predicate Built(s: seq<Node>, list: Node?, tail: Node?)
    reads s
  {
    && list == At(s, 0)
    && (if s == [] then tail == null else tail == s[|s| - 1])
    && (forall i {:trigger s[i].next} | 0 <= i < |s| - 1 :: s[i].next == s[i + 1])
  }

  // Each node's prev is its predecessor in s; the first one's is `first`.
  ghost predicate Back(s: seq<Node>, first: Node?)
    reads s
  {
    forall i {:trigger s[i].prev} | 0 <= i < |s| :: s[i].prev == if i == 0 then first else s[i - 1]
  }

  // The list behind head: linked forward to stop, backward with head->prev the last node
  ghost predicate DoublyLinked(s: seq<Node>, head: Node?, stop: Node?)
    reads s
  {
    head == At(s, 0) && Distinct(s) && Feed(s, 0, stop) && (s != [] ==> Back(s, s[|s| - 1]))
  }

  // inp[pi..qs] is still linked as in the input.
  ghost predicate Left(inp: seq<Node>, pi: nat, qs: nat, stop: Node?)
    reads inp
  {
    forall i {:trigger inp[i].next} | pi <= i < qs <= |inp| :: inp[i].next == if i + 1 < |inp| then inp[i + 1] else stop
  }

  // The unread nodes inp[pi..qs] and inp[qi..] are in live, and no node already emitted is.
  ghost predicate Unread(live: set<Node>, out: seq<Node>, inp: seq<Node>, pi: nat, qs: nat, qi: nat) {
    && Distinct(out)
    && (forall x | x in out :: x in inp && x !in live)
    && (forall i | pi <= i < qs <= |inp| :: inp[i] in live)
    && (forall i | qi <= i < |inp| :: inp[i] in live)
  }

  // Positions in the input list: the left run is inp[pi..qs], the right run inp[qi..qe].
  datatype Cursor = Cursor(pi: nat, qs: nat, qi: nat, qe: nat)

  ghost predicate InRange(inp: seq<Node>, c: Cursor) {
    c.pi <= c.qs <= c.qi <= c.qe <= |inp|
  }

  ghost function Rest(inp: seq<Node>, c: Cursor, cmp: (Node, Node) -> int): seq<Node>
    requires InRange(inp, c)
  {
    Merge(inp[c.pi..c.qs], inp[c.qi..c.qe], cmp)
  }

  // What the merge loop keeps while out has been emitted: the unread part of the input is
  // intact, and out followed by the merge of what is left of both runs is goal.
  ghost predicate Merging(inp: seq<Node>, c: Cursor, out: seq<Node>, live: set<Node>, goal: seq<Node>,
                          stop: Node?, cmp: (Node, Node) -> int)
    reads inp
  {
    && InRange(inp, c)
    && Feed(inp, c.qi, stop) && Left(inp, c.pi, c.qs, stop)
    && Unread(live, out, inp, c.pi, c.qs, c.qi)
    && out + Rest(inp, c, cmp) == goal
  }

  // ----- The merge, one emitted node at a time

  lemma TakeLeft(inp: seq<Node>, c: Cursor, c': Cursor, out: seq<Node>, live: set<Node>, goal: seq<Node>,
                 stop: Node?, cmp: (Node, Node) -> int)
    requires Distinct(inp) && Merging(inp, c, out, live, goal, stop, cmp)
    requires c.pi < c.qs && (c.qi == c.qe || cmp(inp[c.pi], inp[c.qi]) <= 0)
    requires c' == c.(pi := c.pi + 1)
    ensures inp[c.pi].next == if c.pi + 1 < |inp| then inp[c.pi + 1] else stop
    ensures Merging(inp, c', out + [inp[c.pi]], live - {inp[c.pi]}, goal, stop, cmp)
  {
    var l, r := inp[c.pi..c.qs], inp[c.qi..c.qe];
    assert l[1..] == inp[c'.pi..c.qs] && l == [l[0]] + l[1..];
    assert Merge(l, r, cmp) == [l[0]] + Merge(l[1..], r, cmp);
  }

  lemma TakeRight(inp: seq<Node>, c: Cursor, c': Cursor, out: seq<Node>, live: set<Node>, goal: seq<Node>,
                  stop: Node?, cmp: (Node, Node) -> int)
    requires Distinct(inp) && Merging(inp, c, out, live, goal, stop, cmp)
    requires c.qi < c.qe && (c.pi == c.qs || cmp(inp[c.pi], inp[c.qi]) > 0)
    requires c' == c.(qi := c.qi + 1)
    ensures inp[c.qi].next == if c.qi + 1 < |inp| then inp[c.qi + 1] else stop
    ensures Merging(inp, c', out + [inp[c.qi]], live - {inp[c.qi]}, goal, stop, cmp)
  {
    var l, r := inp[c.pi..c.qs], inp[c.qi..c.qe];
    assert r[1..] == inp[c'.qi..c.qe] && r == [r[0]] + r[1..];
    assert Merge(l, r, cmp) == [r[0]] + Merge(l, r[1..], cmp);
  }

  lemma StartMerge(inp: seq<Node>, c: Cursor, at: nat, out: seq<Node>, live: set<Node>, goal: seq<Node>,
                   stop: Node?, cmp: (Node, Node) -> int)
    requires c.pi == at && c.qs == c.qi && InRange(inp, c) && goal == out + Rest(inp, c, cmp)
    requires Feed(inp, at, stop) && Unread(live, out, inp, at, at, at)
    ensures Merging(inp, c, out, live, goal, stop, cmp)
  {
  }

  lemma EndMerge(inp: seq<Node>, c: Cursor, out: seq<Node>, live: set<Node>, goal: seq<Node>,
                 stop: Node?, cmp: (Node, Node) -> int)
    requires Merging(inp, c, out, live, goal, stop, cmp) && c.pi == c.qs && c.qi == c.qe
    ensures out == goal && Feed(inp, c.qe, stop) && Unread(live, out, inp, c.qe, c.qe, c.qe)
  {
  }

  // The two runs that start at index at, for run length k
  function RunsAt(n: nat, at: nat, k: nat): (c: Cursor)
    requires at <= n
    ensures c.pi <= c.qs <= c.qi <= c.qe <= n
  {
    var qs := at + Min(k, n - at);
    Cursor(at, qs, qs, Min(qs + k, n))
  }

  lemma PassUnfold(out: seq<Node>, s: seq<Node>, at: nat, k: nat, cmp: (Node, Node) -> int)
    requires at < |s| && k > 0
    ensures var c := RunsAt(|s|, at, k);
      out + Pass(s[at..], k, cmp) == (out + Rest(s, c, cmp)) + Pass(s[c.qe..], k, cmp)
  {
    hide Merge, Pass;
    var c := RunsAt(|s|, at, k);
    PassStep(s[at..], k, cmp);
    Windows(s, at, c.qs, c.qe);
    assert out + (Rest(s, c, cmp) + Pass(s[c.qe..], k, cmp)) == (out + Rest(s, c, cmp)) + Pass(s[c.qe..], k, cmp);
  }

  lemma Windows(s: seq<Node>, at: nat, m: nat, e: nat)
    requires at <= m <= e <= |s|
    ensures var r := s[at..];
      r[..m - at] == s[at..m] && r[m - at..e - at] == s[m..e] && r[e - at..] == s[e..]
  {
  }

  lemma StartPass(inp: seq<Node>, live: set<Node>)
    requires live == Elements(inp)
    ensures Unread(live, [], inp, 0, 0, 0) && Built([], null, null) && Back([], null)
  {
  }

  // After the last merge of a pass everything has been emitted.
  lemma PassDone(out: seq<Node>, inp: seq<Node>, live: set<Node>, k: nat, cmp: (Node, Node) -> int)
    requires inp != [] && k > 0 && Unread(live, out, inp, |inp|, |inp|, |inp|)
    requires out + Pass(inp[|inp|..], k, cmp) == Pass(inp, k, cmp)
    ensures out == Pass(inp, k, cmp)
    ensures Distinct(out) && forall x | x in out :: x in inp
  {
    PassPermutes(inp, k, cmp);
  }

  lemma PassKeepsNodes(s: seq<Node>, k: nat, cmp: (Node, Node) -> int)
    requires k > 0 && Distinct(s)
    ensures Distinct(Pass(s, k, cmp)) && Elements(Pass(s, k, cmp)) == Elements(s)
  {
    var t := Pass(s, k, cmp);
    PassPermutes(s, k, cmp);
    PermutationMembers(s, t);
    if i, j :| 0 <= i < j < |t| && t[i] == t[j] {
      PermutationDistinct(s, t, i, j);
    }
  }

  lemma PermutationDistinct(s: seq<Node>, t: seq<Node>, i: nat, j: nat)
    requires Distinct(s) && multiset(s) == multiset(t) && i < j < |t|
    ensures t[i] != t[j]
  {
    var x := t[i];
    assert t == t[..j] + [t[j]] + t[j + 1..];
    assert x in t[..j];
    assert x == t[j] ==> multiset(t)[x] >= 2;
    AtMostOnce(s, x);
  }

  lemma {:induction false} AtMostOnce(s: seq<Node>, x: Node)
    requires Distinct(s)
    ensures multiset(s)[x] <= 1
  {
    if s != [] {
      assert s == [s[0]] + s[1..];
      AtMostOnce(s[1..], x);
      if s[0] == x {
        assert x !in s[1..];
      }
    }
  }

  // ----- Code shared by LL_SORT, DL_SORT and HASH_SRT

  // for-loop of the sort: step up to insize nodes ahead of p
  method Skip(p: Node, insize: nat, ghost inp: seq<Node>, ghost at: nat) returns (q: Node?, psize: nat)
    requires insize > 0 && at < |inp| && p == inp[at] && Feed(inp, at, null)
    ensures psize == Min(insize, |inp| - at)
    ensures q == At(inp, at + psize)
  {
    q := p;
    psize := 0;
    var i := 0;
    while i < insize
      invariant 0 <= i <= insize && psize == i && at + i < |inp| && q == inp[at + i]
    {
      psize := psize + 1;
      q := q.next;
      if q == null {
        break;
      }
      i := i + 1;
    }
  }

  // Where the loop variables p, psize, q, qsize stand
  ghost predicate Cursors(inp: seq<Node>, c: Cursor, insize: nat, p: Node?, psize: nat, q: Node?, qsize: nat) {
    && InRange(inp, c) && c.qe == Min(c.qs + insize, |inp|)
    && psize == c.qs - c.pi && (psize > 0 ==> p == inp[c.pi])
    && q == At(inp, c.qi) && qsize == insize - (c.qi - c.qs)
  }

  // Choose the node e that is emitted next and step past it.
  method Take(p0: Node?, psize0: nat, q0: Node?, qsize0: nat, cmp: (Node, Node) -> int,
                ghost inp: seq<Node>, ghost c0: Cursor, ghost insize: nat, ghost out: seq<Node>,
                ghost live0: set<Node>, ghost goal: seq<Node>)
    returns (e: Node, p: Node?, psize: nat, q: Node?, qsize: nat, ghost c: Cursor, ghost live: set<Node>)
    requires psize0 > 0 || (qsize0 > 0 && q0 != null)
    requires Distinct(inp) && Cursors(inp, c0, insize, p0, psize0, q0, qsize0)
    requires Merging(inp, c0, out, live0, goal, null, cmp)
    ensures Cursors(inp, c, insize, p, psize, q, qsize) && c.qe == c0.qe
    ensures psize + c.qe - c.qi < psize0 + c.qe - c0.qi
    ensures Merging(inp, c, out + [e], live, goal, null, cmp)
  {
    hide Merge, Rest, Merging, Distinct;
    p, psize, q, qsize := p0, psize0, q0, qsize0;
    if psize == 0 {
      c := c0.(qi := c0.qi + 1);
      TakeRight(inp, c0, c, out, live0, goal, null, cmp);
      e, q, qsize := q, q.next, qsize - 1;
    } else if qsize == 0 || q == null {
      c := c0.(pi := c0.pi + 1);
      TakeLeft(inp, c0, c, out, live0, goal, null, cmp);
      e, p, psize := p, p.next, psize - 1;
    } else if cmp(p, q) <= 0 {
      c := c0.(pi := c0.pi + 1);
      TakeLeft(inp, c0, c, out, live0, goal, null, cmp);
      e, p, psize := p, p.next, psize - 1;
    } else {
      c := c0.(qi := c0.qi + 1);
      TakeRight(inp, c0, c, out, live0, goal, null, cmp);
      e, q, qsize := q, q.next, qsize - 1;
    }
    live := live0 - {e};
  }

  lemma BuiltFirst(out: seq<Node>, list: Node?, tail: Node?)
    requires Built(out, list, tail) && out != []
    ensures list == out[0] && tail != null
  {
  }

  // ----- LL_SORT

  // if (tail) tail->next = e; else list = e;  tail = e
  method LLEmit(e: Node, list0: Node?, tail0: Node?, ghost inp: seq<Node>, ghost c: Cursor, ghost out: seq<Node>,
                ghost live: set<Node>, ghost goal: seq<Node>, cmp: (Node, Node) -> int)
    returns (list: Node?, tail: Node)
    requires Built(out, list0, tail0) && Merging(inp, c, out + [e], live, goal, null, cmp)
    modifies Elements(inp)`next
    ensures Built(out + [e], list, tail) && Merging(inp, c, out + [e], live, goal, null, cmp)
  {
    hide Merge, Rest;
    list := list0;
    if tail0 != null {
      assert tail0 == (out + [e])[|out| - 1];
      assert forall i | 0 <= i < |out| :: out[i] == (out + [e])[i];
      assert tail0 in out + [e];
      tail0.next := e;
    } else {
      list := e;
    }
    tail := e;
  }

  method LLMergeRuns(p0: Node, psize0: nat, q0: Node?, insize: nat, list0: Node?, tail0: Node?,
                     cmp: (Node, Node) -> int, ghost inp: seq<Node>, ghost at: nat, ghost done: seq<Node>,
                     ghost live0: set<Node>)
    returns (q: Node?, list: Node?, tail: Node?, ghost out: seq<Node>, ghost live: set<Node>)
    requires at < |inp| && p0 == inp[at] && insize > 0
    requires psize0 == Min(insize, |inp| - at) && q0 == At(inp, at + psize0)
    requires Distinct(inp) && Feed(inp, at, null)
    requires Built(done, list0, tail0) && Unread(live0, done, inp, at, at, at)
    modifies Elements(inp)`next
    ensures var c := RunsAt(|inp|, at, insize);
      && out == done + Rest(inp, c, cmp)
      && q == At(inp, c.qe)
      && Feed(inp, c.qe, null)
      && Built(out, list, tail) && Unread(live, out, inp, c.qe, c.qe, c.qe)
  {
    hide Merge, Rest, Merging, Built, Distinct, Feed, Unread;
    ghost var c := RunsAt(|inp|, at, insize);
    ghost var goal := done + Rest(inp, c, cmp);
    StartMerge(inp, c, at, done, live0, goal, null, cmp);
    var p: Node?, psize: nat, qsize: nat := p0, psize0, insize;
    q, list, tail, out, live := q0, list0, tail0, done, live0;
    while psize > 0 || (qsize > 0 && q != null)
      invariant Cursors(inp, c, insize, p, psize, q, qsize) && c.qe == RunsAt(|inp|, at, insize).qe
      invariant Merging(inp, c, out, live, goal, null, cmp)
      invariant Built(out, list, tail)
      decreases psize + c.qe - c.qi
    {
      var e: Node;
      e, p, psize, q, qsize, c, live := Take(p, psize, q, qsize, cmp, inp, c, insize, out, live, goal);
      list, tail := LLEmit(e, list, tail, inp, c, out, live, goal, cmp);
      out := out + [e];
    }
    EndMerge(inp, c, out, live, goal, null, cmp);
  }

  // tail->next = NULL
  method LLClose(tail: Node, list: Node, ghost out: seq<Node>)
    requires Built(out, list, tail) && Distinct(out) && out != []
    modifies Elements(out)`next
    ensures Feed(out, 0, null) && list == At(out, 0)
  {
    tail.next := null;
  }

  // The merges of one pass
  method LLMerges(list0: Node, insize: nat, cmp: (Node, Node) -> int, ghost inp: seq<Node>)
    returns (list: Node, tail: Node, nmerges: nat)
    requires insize > 0 && list0 == At(inp, 0) && Distinct(inp) && Feed(inp, 0, null)
    modifies Elements(inp)`next
    ensures Built(Pass(inp, insize, cmp), list, tail)
    ensures nmerges <= 1 <==> |inp| <= 2 * insize
  {
    hide Merge, Rest, Pass, Distinct, Feed, Built, Unread;
    var p: Node?, l: Node?, t: Node?;
    p, l, t, nmerges := list0, null, null, 0;
    ghost var at, out: seq<Node>, live := 0, [], Elements(inp);
    StartPass(inp, live);
    while p != null
      invariant at <= |inp| && p == At(inp, at)
      invariant Feed(inp, at, null)
      invariant Built(out, l, t) && Unread(live, out, inp, at, at, at)
      invariant out + Pass(inp[at..], insize, cmp) == Pass(inp, insize, cmp)
      invariant (nmerges == 0 ==> at == 0) && (nmerges == 1 ==> at == Min(2 * insize, |inp|))
      invariant nmerges > 1 ==> at > 2 * insize
      decreases |inp| - at
    {
      nmerges := nmerges + 1;
      var q, psize := Skip(p, insize, inp, at);
      PassUnfold(out, inp, at, insize, cmp);
      q, l, t, out, live := LLMergeRuns(p, psize, q, insize, l, t, cmp, inp, at, out, live);
      p := q;
      at := RunsAt(|inp|, at, insize).qe;
    }
    PassDone(out, inp, live, insize, cmp);
    BuiltFirst(out, l, t);
    list, tail := l, t;
  }

  // LL_SORT leaves a null-ended list of the same nodes, stably sorted.
  method LLSort(list0: Node?, cmp: (Node, Node) -> int, ghost inp: seq<Node>)
    returns (list: Node?, ghost out: seq<Node>)
    requires list0 == At(inp, 0) && Distinct(inp) && Feed(inp, 0, null)
    requires Preorder(cmp, Elements(inp))
    modifies Elements(inp)`next
    ensures StableSortOf(out, inp, cmp)
    ensures list == At(out, 0) && Distinct(out) && Feed(out, 0, null)
  {
    list, out := list0, inp;
    if list != null {
      var insize, looping := 1, true;
      SortCorrect(inp, cmp);
      hide Pass, Merge, Preorder, StableSortOf, Built, Distinct, Feed;
      while looping
        invariant insize > 0 && out != [] && list == At(out, 0) && Distinct(out) && Feed(out, 0, null)
        invariant Elements(out) == Elements(inp) && |out| == |inp|
        invariant (if looping then SortFrom(out, insize, cmp) else out) == SortFrom(inp, 1, cmp)
        decreases looping, |inp| - insize
      {
        var nmerges, tail;
        PassKeepsNodes(out, insize, cmp);
        list, tail, nmerges := LLMerges(list, insize, cmp, out);
        out := Pass(out, insize, cmp);
        LLClose(tail, list, out);
        if nmerges <= 1 {
          looping := false;
        }
        insize := insize * 2;
      }
    }
  }

  // ----- DL_SORT

  // if (tail) tail->next = e; else list = e;  e->prev = tail;  tail = e
  method DLEmit(e: Node, list0: Node?, tail0: Node?, ghost inp: seq<Node>, ghost c: Cursor, ghost out: seq<Node>,
                ghost live: set<Node>, ghost goal: seq<Node>, ghost stop: Node?, cmp: (Node, Node) -> int)
    returns (list: Node?, tail: Node)
    requires Built(out, list0, tail0) && Back(out, null) && Merging(inp, c, out + [e], live, goal, stop, cmp)
    modifies Elements(inp)`next, Elements(inp)`prev
    ensures Built(out + [e], list, tail) && Back(out + [e], null)
    ensures Merging(inp, c, out + [e], live, goal, stop, cmp)
  {
    hide Merge, Rest;
    ghost var out' := out + [e];
    assert e == out'[|out|];
    assert forall i | 0 <= i < |out| :: out[i] == out'[i];
    list := list0;
    if tail0 != null {
      assert tail0 == out'[|out| - 1];
      assert tail0 in out';
      tail0.next := e;
    } else {
      list := e;
    }
    assert e in out';
    e.prev := tail0;
    tail := e;
  }

  method DLMergeRuns(p0: Node, psize0: nat, q0: Node?, insize: nat, list0: Node?, tail0: Node?,
                     cmp: (Node, Node) -> int, ghost inp: seq<Node>, ghost at: nat, ghost done: seq<Node>,
                     ghost live0: set<Node>)
    returns (q: Node?, list: Node?, tail: Node?, ghost out: seq<Node>, ghost live: set<Node>)
    requires at < |inp| && p0 == inp[at] && insize > 0
    requires psize0 == Min(insize, |inp| - at) && q0 == At(inp, at + psize0)
    requires Distinct(inp) && Feed(inp, at, null)
    requires Built(done, list0, tail0) && Back(done, null) && Unread(live0, done, inp, at, at, at)
    modifies Elements(inp)`next, Elements(inp)`prev
    ensures var c := RunsAt(|inp|, at, insize);
      && out == done + Rest(inp, c, cmp)
      && q == At(inp, c.qe)
      && Feed(inp, c.qe, null)
      && Built(out, list, tail) && Back(out, null) && Unread(live, out, inp, c.qe, c.qe, c.qe)
  {
    hide Merge, Rest, Merging, Built, Back, Distinct, Feed, Unread;
    ghost var c := RunsAt(|inp|, at, insize);
    ghost var goal := done + Rest(inp, c, cmp);
    StartMerge(inp, c, at, done, live0, goal, null, cmp);
    var p: Node?, psize: nat, qsize: nat := p0, psize0, insize;
    q, list, tail, out, live := q0, list0, tail0, done, live0;
    while psize > 0 || (qsize > 0 && q != null)
      invariant Cursors(inp, c, insize, p, psize, q, qsize) && c.qe == RunsAt(|inp|, at, insize).qe
      invariant Merging(inp, c, out, live, goal, null, cmp)
      invariant Built(out, list, tail) && Back(out, null)
      decreases psize + c.qe - c.qi
    {
      var e: Node;
      e, p, psize, q, qsize, c, live := Take(p, psize, q, qsize, cmp, inp, c, insize, out, live, goal);
      list, tail := DLEmit(e, list, tail, inp, c, out, live, goal, null, cmp);
      out := out + [e];
    }
    EndMerge(inp, c, out, live, goal, null, cmp);
  }

  // The merges of one pass, up to the closing assignments; the same code in DL_SORT and HASH_SRT.
  method DLMerges(list0: Node, insize: nat, cmp: (Node, Node) -> int, ghost inp: seq<Node>)
    returns (list: Node, tail: Node, nmerges: nat)
    requires insize > 0 && list0 == At(inp, 0) && Distinct(inp) && Feed(inp, 0, null)
    modifies Elements(inp)`next, Elements(inp)`prev
    ensures Built(Pass(inp, insize, cmp), list, tail) && Back(Pass(inp, insize, cmp), null)
    ensures nmerges <= 1 <==> |inp| <= 2 * insize
  {
    hide Merge, Rest, Pass, Distinct, Feed, Built, Back, Unread;
    var p: Node?, l: Node?, t: Node?;
    p, l, t, nmerges := list0, null, null, 0;
    ghost var at, out: seq<Node>, live := 0, [], Elements(inp);
    StartPass(inp, live);
    while p != null
      invariant at <= |inp| && p == At(inp, at)
      invariant Feed(inp, at, null)
      invariant Built(out, l, t) && Back(out, null) && Unread(live, out, inp, at, at, at)
      invariant out + Pass(inp[at..], insize, cmp) == Pass(inp, insize, cmp)
      invariant (nmerges == 0 ==> at == 0) && (nmerges == 1 ==> at == Min(2 * insize, |inp|))
      invariant nmerges > 1 ==> at > 2 * insize
      decreases |inp| - at
    {
      nmerges := nmerges + 1;
      var q, psize := Skip(p, insize, inp, at);
      PassUnfold(out, inp, at, insize, cmp);
      q, l, t, out, live := DLMergeRuns(p, psize, q, insize, l, t, cmp, inp, at, out, live);
      p := q;
      at := RunsAt(|inp|, at, insize).qe;
    }
    PassDone(out, inp, live, insize, cmp);
    BuiltFirst(out, l, t);
    list, tail := l, t;
  }

  // list->prev = tail;  tail->next = NULL
  method DLClose(list: Node, tail: Node, ghost out: seq<Node>)
    requires Built(out, list, tail) && Back(out, null) && Distinct(out) && out != []
    modifies Elements(out)`next, Elements(out)`prev
    ensures DoublyLinked(out, list, null)
  {
    list.prev := tail;
    tail.next := null;
  }

  // DL_SORT leaves a doubly linked list of the same nodes, stably sorted.
  method DLSort(list0: Node?, cmp: (Node, Node) -> int, ghost inp: seq<Node>)
    returns (list: Node?, ghost out: seq<Node>)
    requires list0 == At(inp, 0) && Distinct(inp) && Feed(inp, 0, null)
    requires Preorder(cmp, Elements(inp))
    modifies Elements(inp)`next, Elements(inp)`prev
    ensures StableSortOf(out, inp, cmp)
    ensures DoublyLinked(out, list, null)
  {
    list, out := list0, inp;
    if list != null {
      var insize, looping := 1, true;
      SortCorrect(inp, cmp);
      hide Pass, Merge, Preorder, StableSortOf, Built, Distinct, Back, Feed;
      while looping
        invariant insize > 0 && out != [] && list == At(out, 0) && Distinct(out) && Feed(out, 0, null)
        invariant looping || DoublyLinked(out, list, null)
        invariant Elements(out) == Elements(inp) && |out| == |inp|
        invariant (if looping then SortFrom(out, insize, cmp) else out) == SortFrom(inp, 1, cmp)
        decreases looping, |inp| - insize
      {
        var nmerges, tail;
        PassKeepsNodes(out, insize, cmp);
        list, tail, nmerges := DLMerges(list, insize, cmp, out);
        out := Pass(out, insize, cmp);
        DLClose(list, tail, out);
        if nmerges <= 1 {
          looping := false;
        }
        insize := insize * 2;
      }
    }
  }

  // ----- CDL_SORT: the list is a ring, whose end shows as a next equal to the old head

  method CDLSkip(p: Node, oldhead: Node, insize: nat, ghost inp: seq<Node>, ghost at: nat)
    returns (q: Node?, psize: nat)
    requires insize > 0 && at < |inp| && p == inp[at] && Distinct(inp) && oldhead == inp[0] && Feed(inp, at, oldhead)
    ensures psize == Min(insize, |inp| - at)
    ensures q == At(inp, at + psize)
  {
    q := p;
    psize := 0;
    var i := 0;
    while i < insize
      invariant 0 <= i <= insize && psize == i && at + i < |inp| && q == inp[at + i]
    {
      psize := psize + 1;
      if q.next == oldhead {
        q := null;
      } else {
        q := q.next;
      }
      if q == null {
        break;
      }
      i := i + 1;
    }
  }

  method CDLTake(p0: Node?, psize0: nat, q0: Node?, qsize0: nat, oldhead: Node, cmp: (Node, Node) -> int,
                 ghost inp: seq<Node>, ghost c0: Cursor, ghost insize: nat, ghost out: seq<Node>,
                 ghost live0: set<Node>, ghost goal: seq<Node>)
    returns (e: Node, p: Node?, psize: nat, q: Node?, qsize: nat, ghost c: Cursor, ghost live: set<Node>)
    requires psize0 > 0 || (qsize0 > 0 && q0 != null)
    requires Distinct(inp) && Cursors(inp, c0, insize, p0, psize0, q0, qsize0) && oldhead == At(inp, 0)
    requires Merging(inp, c0, out, live0, goal, oldhead, cmp)
    ensures Cursors(inp, c, insize, p, psize, q, qsize) && c.qe == c0.qe
    ensures psize + c.qe - c.qi < psize0 + c.qe - c0.qi
    ensures Merging(inp, c, out + [e], live, goal, oldhead, cmp)
  {
    hide Merge, Rest, Merging;
    p, psize, q, qsize := p0, psize0, q0, qsize0;
    if psize == 0 {
      c := c0.(qi := c0.qi + 1);
      TakeRight(inp, c0, c, out, live0, goal, oldhead, cmp);
      e, q, qsize := q, q.next, qsize - 1;
      if q == oldhead { q := null; }
    } else if qsize == 0 || q == null {
      c := c0.(pi := c0.pi + 1);
      TakeLeft(inp, c0, c, out, live0, goal, oldhead, cmp);
      e, p, psize := p, p.next, psize - 1;
      if p == oldhead { p := null; }
    } else if cmp(p, q) <= 0 {
      c := c0.(pi := c0.pi + 1);
      TakeLeft(inp, c0, c, out, live0, goal, oldhead, cmp);
      e, p, psize := p, p.next, psize - 1;
      if p == oldhead { p := null; }
    } else {
      c := c0.(qi := c0.qi + 1);
      TakeRight(inp, c0, c, out, live0, goal, oldhead, cmp);
      e, q, qsize := q, q.next, qsize - 1;
      if q == oldhead { q := null; }
    }
    live := live0 - {e};
  }

  method CDLMergeRuns(p0: Node, psize0: nat, q0: Node?, insize: nat, oldhead: Node, list0: Node?, tail0: Node?,
                      cmp: (Node, Node) -> int, ghost inp: seq<Node>, ghost at: nat, ghost done: seq<Node>,
                      ghost live0: set<Node>)
    returns (q: Node?, list: Node?, tail: Node?, ghost out: seq<Node>, ghost live: set<Node>)
    requires at < |inp| && p0 == inp[at] && insize > 0 && oldhead == At(inp, 0)
    requires psize0 == Min(insize, |inp| - at) && q0 == At(inp, at + psize0)
    requires Distinct(inp) && Feed(inp, at, oldhead)
    requires Built(done, list0, tail0) && Back(done, null) && Unread(live0, done, inp, at, at, at)
    modifies Elements(inp)`next, Elements(inp)`prev
    ensures var c := RunsAt(|inp|, at, insize);
      && out == done + Rest(inp, c, cmp)
      && q == At(inp, c.qe)
      && Feed(inp, c.qe, oldhead)
      && Built(out, list, tail) && Back(out, null) && Unread(live, out, inp, c.qe, c.qe, c.qe)
  {
    hide Merge, Rest, Merging, Built, Back, Distinct, Feed, Unread;
    ghost var c := RunsAt(|inp|, at, insize);
    ghost var goal := done + Rest(inp, c, cmp);
    StartMerge(inp, c, at, done, live0, goal, oldhead, cmp);
    var p: Node?, psize: nat, qsize: nat := p0, psize0, insize;
    q, list, tail, out, live := q0, list0, tail0, done, live0;
    while psize > 0 || (qsize > 0 && q != null)
      invariant Cursors(inp, c, insize, p, psize, q, qsize) && c.qe == RunsAt(|inp|, at, insize).qe
      invariant Merging(inp, c, out, live, goal, oldhead, cmp)
      invariant Built(out, list, tail) && Back(out, null)
      decreases psize + c.qe - c.qi
    {
      var e: Node;
      e, p, psize, q, qsize, c, live := CDLTake(p, psize, q, qsize, oldhead, cmp, inp, c, insize, out, live, goal);
      list, tail := DLEmit(e, list, tail, inp, c, out, live, goal, oldhead, cmp);
      out := out + [e];
    }
    EndMerge(inp, c, out, live, goal, oldhead, cmp);
  }

  method CDLMerges(list0: Node, insize: nat, cmp: (Node, Node) -> int, ghost inp: seq<Node>)
    returns (list: Node, tail: Node, nmerges: nat)
    requires insize > 0 && list0 == At(inp, 0) && Distinct(inp) && Feed(inp, 0, list0)
    modifies Elements(inp)`next, Elements(inp)`prev
    ensures Built(Pass(inp, insize, cmp), list, tail) && Back(Pass(inp, insize, cmp), null)
    ensures nmerges <= 1 <==> |inp| <= 2 * insize
  {
    hide Merge, Rest, Pass, Distinct, Feed, Built, Back, Unread;
    var p: Node?, l: Node?, t: Node?;
    var oldhead := list0;
    p, l, t, nmerges := list0, null, null, 0;
    ghost var at, out: seq<Node>, live := 0, [], Elements(inp);
    StartPass(inp, live);
    while p != null
      invariant at <= |inp| && p == At(inp, at)
      invariant Feed(inp, at, oldhead)
      invariant Built(out, l, t) && Back(out, null) && Unread(live, out, inp, at, at, at)
      invariant out + Pass(inp[at..], insize, cmp) == Pass(inp, insize, cmp)
      invariant (nmerges == 0 ==> at == 0) && (nmerges == 1 ==> at == Min(2 * insize, |inp|))
      invariant nmerges > 1 ==> at > 2 * insize
      decreases |inp| - at
    {
      nmerges := nmerges + 1;
      var q, psize := CDLSkip(p, oldhead, insize, inp, at);
      PassUnfold(out, inp, at, insize, cmp);
      q, l, t, out, live := CDLMergeRuns(p, psize, q, insize, oldhead, l, t, cmp, inp, at, out, live);
      p := q;
      at := RunsAt(|inp|, at, insize).qe;
    }
    PassDone(out, inp, live, insize, cmp);
    BuiltFirst(out, l, t);
    list, tail := l, t;
  }

  // list->prev = tail;  tail->next = list
  method CDLClose(list: Node, tail: Node, ghost out: seq<Node>)
    requires Built(out, list, tail) && Back(out, null) && Distinct(out) && out != []
    modifies Elements(out)`next, Elements(out)`prev
    ensures DoublyLinked(out, list, list)
  {
    list.prev := tail;
    tail.next := list;
  }

  // CDL_SORT leaves a closed ring of the same nodes, stably sorted from its head.
  method CDLSort(list0: Node?, cmp: (Node, Node) -> int, ghost inp: seq<Node>)
    returns (list: Node?, ghost out: seq<Node>)
    requires list0 == At(inp, 0) && Distinct(inp) && Feed(inp, 0, list0)
    requires Preorder(cmp, Elements(inp))
    modifies Elements(inp)`next, Elements(inp)`prev
    ensures StableSortOf(out, inp, cmp)
    ensures DoublyLinked(out, list, list)
  {
    list, out := list0, inp;
    if list != null {
      var insize, looping := 1, true;
      SortCorrect(inp, cmp);
      hide Pass, Merge, Preorder, StableSortOf, Built, Distinct, Back, Feed;
      while looping
        invariant insize > 0 && out != [] && list == At(out, 0) && Distinct(out) && Feed(out, 0, list)
        invariant looping || DoublyLinked(out, list, list)
        invariant Elements(out) == Elements(inp) && |out| == |inp|
        invariant (if looping then SortFrom(out, insize, cmp) else out) == SortFrom(inp, 1, cmp)
        decreases looping, |inp| - insize
      {
        var nmerges, tail;
        PassKeepsNodes(out, insize, cmp);
        list, tail, nmerges := CDLMerges(list, insize, cmp, out);
        out := Pass(out, insize, cmp);
        CDLClose(list, tail, out);
        if nmerges <= 1 {
          looping := false;
        }
        insize := insize * 2;
      }
    }
  }
}
