/** The bottom-up mergesort of Simon Tatham as a function on sequences, and what it
    guarantees.  The list sorts of `utlist.h` and `hash.h` are proved to compute it. */
module MergeTheory {
  import opened Common
  import opened Seqs

  // ----- Orders and what "sorted" and "stable" mean

  // The sign of cmp is a total preorder on the elements of s.
  ghost predicate Preorder<T>(cmp: (T, T) -> int, s: set<T>) {
    && (forall x, y | x in s && y in s :: cmp(x, y) <= 0 || cmp(y, x) <= 0)
    && (forall x, y, z | x in s && y in s && z in s && cmp(x, y) <= 0 && cmp(y, z) <= 0 :: cmp(x, z) <= 0)
  }

  ghost predicate Sorted<T>(s: seq<T>, cmp: (T, T) -> int) {
    forall i, j | 0 <= i < j < |s| :: cmp(s[i], s[j]) <= 0
  }

  predicate Equivalent<T>(x: T, y: T, cmp: (T, T) -> int) {
    cmp(x, y) <= 0 && cmp(y, x) <= 0
  }

  // The elements of s that compare equal to g, in their order in s.
  ghost function Class<T>(s: seq<T>, g: T, cmp: (T, T) -> int): seq<T> {
    if s == [] then []
    else (if Equivalent(s[0], g, cmp) then [s[0]] else []) + Class(s[1..], g, cmp)
  }

  // t keeps the relative order that elements comparing equal have in s.
  ghost predicate Stable<T>(s: seq<T>, t: seq<T>, cmp: (T, T) -> int) {
    forall g | g in s :: Class(t, g, cmp) == Class(s, g, cmp)
  }

  ghost predicate StableSortOf<T>(t: seq<T>, s: seq<T>, cmp: (T, T) -> int) {
    Sorted(t, cmp) && multiset(t) == multiset(s) && Stable(s, t, cmp)
  }

  // ----- The algorithm

  ghost function Merge<T>(a: seq<T>, b: seq<T>, cmp: (T, T) -> int): (m: seq<T>)
    ensures |m| == |a| + |b|
  {
    if a == [] then b
    else if b == [] then a
    else if cmp(a[0], b[0]) <= 0 then [a[0]] + Merge(a[1..], b, cmp)
    else [b[0]] + Merge(a, b[1..], cmp)
  }

  // One pass: neighbouring runs of length k are merged into runs of length 2k.
  ghost function Pass<T>(s: seq<T>, k: nat, cmp: (T, T) -> int): (t: seq<T>)
    requires k > 0
    ensures |t| == |s|
    decreases |s|
  {
    if s == [] then []
    else
      var m, e := Min(k, |s|), Min(2 * k, |s|);
      Merge(s[..m], s[m..e], cmp) + Pass(s[e..], k, cmp)
  }

  // Passes with doubled run length, until a pass needed at most one merge.
  ghost function SortFrom<T>(s: seq<T>, k: nat, cmp: (T, T) -> int): seq<T>
    requires k > 0
    decreases |s| - k
  {
    var t := Pass(s, k, cmp);
    if |s| <= 2 * k then t else SortFrom(t, 2 * k, cmp)
  }

  lemma SortFromStep<T>(s: seq<T>, k: nat, cmp: (T, T) -> int)
    requires k > 0
    ensures SortFrom(s, k, cmp) == if |s| <= 2 * k then Pass(s, k, cmp) else SortFrom(Pass(s, k, cmp), 2 * k, cmp)
  {
  }

  // s is a concatenation of sorted runs of length k, the last one possibly shorter.
  ghost predicate Runs<T>(s: seq<T>, k: nat, cmp: (T, T) -> int)
    requires k > 0
    decreases |s|
  {
    s == [] || (Sorted(s[..Min(k, |s|)], cmp) && Runs(s[Min(k, |s|)..], k, cmp))
  }

  // ----- Merge

  lemma PassStep<T>(s: seq<T>, k: nat, cmp: (T, T) -> int)
    requires k > 0 && s != []
    ensures var m, e := Min(k, |s|), Min(2 * k, |s|);
      Pass(s, k, cmp) == Merge(s[..m], s[m..e], cmp) + Pass(s[e..], k, cmp)
  {
  }

  lemma {:induction false} MergePermutes<T>(a: seq<T>, b: seq<T>, cmp: (T, T) -> int)
    ensures multiset(Merge(a, b, cmp)) == multiset(a) + multiset(b)
    decreases |a| + |b|
  {
    hide Merge;
    MergeUnfold(a, b, cmp);
    if a != [] && b != [] {
      HeadAndTail(a);
      HeadAndTail(b);
      if cmp(a[0], b[0]) <= 0 {
        MergePermutes(a[1..], b, cmp);
        HeadJoins(a[0], Merge(a[1..], b, cmp));
      } else {
        MergePermutes(a, b[1..], cmp);
        HeadJoins(b[0], Merge(a, b[1..], cmp));
      }
    }
  }

  lemma MergeUnfold<T>(a: seq<T>, b: seq<T>, cmp: (T, T) -> int)
    ensures a == [] ==> Merge(a, b, cmp) == b
    ensures b == [] ==> Merge(a, b, cmp) == a
    ensures a != [] && b != [] && cmp(a[0], b[0]) <= 0 ==> Merge(a, b, cmp) == [a[0]] + Merge(a[1..], b, cmp)
    ensures a != [] && b != [] && cmp(a[0], b[0]) > 0 ==> Merge(a, b, cmp) == [b[0]] + Merge(a, b[1..], cmp)
  {
  }

  lemma HeadJoins<T>(x: T, s: seq<T>)
    ensures multiset([x] + s) == multiset{x} + multiset(s)
  {
  }

  lemma HeadAndTail<T>(s: seq<T>)
    requires s != []
    ensures multiset(s) == multiset{s[0]} + multiset(s[1..])
  {
    assert s == [s[0]] + s[1..];
  }

  lemma PermutationMembers<T>(s: seq<T>, t: seq<T>)
    requires multiset(s) == multiset(t)
    ensures forall x :: x in s <==> x in t
    ensures Elements(s) == Elements(t) && |s| == |t|
  {
    forall x
      ensures x in s <==> x in t
    {
      assert x in multiset(s) <==> x in multiset(t);
    }
    assert |multiset(s)| == |s| && |multiset(t)| == |t|;
  }

  lemma SortedCons<T>(x: T, s: seq<T>, cmp: (T, T) -> int)
    requires Sorted(s, cmp)
    requires forall y | y in s :: cmp(x, y) <= 0
    ensures Sorted([x] + s, cmp)
  {
  }

  lemma MergeMembers<T>(a: seq<T>, b: seq<T>, m: seq<T>, cmp: (T, T) -> int)
    requires m == Merge(a, b, cmp)
    ensures forall x | x in m :: x in a || x in b
  {
    MergePermutes(a, b, cmp);
    forall x | x in m
      ensures x in a || x in b
    {
      assert x in multiset(m);
    }
  }

  lemma {:induction false} MergeSorted<T>(a: seq<T>, b: seq<T>, cmp: (T, T) -> int, u: set<T>)
    requires Preorder(cmp, u) && Elements(a) <= u && Elements(b) <= u
    requires Sorted(a, cmp) && Sorted(b, cmp)
    ensures Sorted(Merge(a, b, cmp), cmp)
    decreases |a| + |b|
  {
    hide Merge, Sorted, Preorder, Elements;
    MergeUnfold(a, b, cmp);
    if a != [] && b != [] {
      TailWithin(a, u);
      TailWithin(b, u);
      if cmp(a[0], b[0]) <= 0 {
        TailSorted(a, cmp);
        MergeSorted(a[1..], b, cmp, u);
        Itself(a[0], cmp, u);
        LeastInFront(a[0], a, b, a[1..], b, cmp, u);
      } else {
        TailSorted(b, cmp);
        MergeSorted(a, b[1..], cmp, u);
        Itself(b[0], cmp, u);
        Otherwise(a[0], b[0], cmp, u);
        LeastInFront(b[0], a, b, a, b[1..], cmp, u);
      }
    }
  }

  lemma Itself<T>(x: T, cmp: (T, T) -> int, u: set<T>)
    requires Preorder(cmp, u) && x in u
    ensures cmp(x, x) <= 0
  {
  }

  lemma Otherwise<T>(x: T, y: T, cmp: (T, T) -> int, u: set<T>)
    requires Preorder(cmp, u) && x in u && y in u && cmp(x, y) > 0
    ensures cmp(y, x) <= 0
  {
  }

  // The least element x of two sorted runs goes in front of the merge of what follows.
  lemma LeastInFront<T>(x: T, a: seq<T>, b: seq<T>, a': seq<T>, b': seq<T>, cmp: (T, T) -> int, u: set<T>)
    requires Preorder(cmp, u) && Elements(a) <= u && Elements(b) <= u && x in u
    requires Sorted(a, cmp) && Sorted(b, cmp) && a != [] && b != []
    requires cmp(x, a[0]) <= 0 && cmp(x, b[0]) <= 0
    requires (a' == a || a' == a[1..]) && (b' == b || b' == b[1..]) && Sorted(Merge(a', b', cmp), cmp)
    ensures Sorted([x] + Merge(a', b', cmp), cmp)
  {
    hide Merge, Sorted, Preorder, Elements;
    LeastOfBoth(x, a, b, cmp, u);
    MergeMembers(a', b', Merge(a', b', cmp), cmp);
    SortedCons(x, Merge(a', b', cmp), cmp);
  }

  lemma LeastOfBoth<T>(x: T, a: seq<T>, b: seq<T>, cmp: (T, T) -> int, u: set<T>)
    requires Preorder(cmp, u) && Elements(a) <= u && Elements(b) <= u && x in u
    requires Sorted(a, cmp) && Sorted(b, cmp) && a != [] && b != []
    requires cmp(x, a[0]) <= 0 && cmp(x, b[0]) <= 0
    ensures forall y | y in a || y in b :: cmp(x, y) <= 0
  {
    FirstIsLeast(a, cmp, u);
    FirstIsLeast(b, cmp, u);
    assert a[0] in Elements(a) && b[0] in Elements(b);
    forall y | y in a || y in b
      ensures cmp(x, y) <= 0
    {
      assert y in Elements(a) || y in Elements(b);
    }
  }

  lemma FirstIsLeast<T>(s: seq<T>, cmp: (T, T) -> int, u: set<T>)
    requires Preorder(cmp, u) && Elements(s) <= u && Sorted(s, cmp) && s != []
    ensures forall y | y in s :: cmp(s[0], y) <= 0
  {
    assert s[0] in Elements(s);
  }

  lemma {:induction false} ClassConcat<T>(a: seq<T>, b: seq<T>, g: T, cmp: (T, T) -> int)
    ensures Class(a + b, g, cmp) == Class(a, g, cmp) + Class(b, g, cmp)
    decreases |a|
  {
    hide Equivalent, Class;
    if a == [] {
      assert a + b == b;
      NoClass(g, cmp);
    } else {
      assert a == [a[0]] + a[1..] && a + b == [a[0]] + (a[1..] + b);
      ClassConcat(a[1..], b, g, cmp);
      ClassHead(a[0], a[1..], g, cmp);
      ClassHead(a[0], a[1..] + b, g, cmp);
    }
  }

  lemma ClassHead<T>(x: T, s: seq<T>, g: T, cmp: (T, T) -> int)
    ensures Class([x] + s, g, cmp) == (if Equivalent(x, g, cmp) then [x] else []) + Class(s, g, cmp)
  {
    hide Equivalent;
    assert ([x] + s)[1..] == s;
  }

  lemma {:induction false} ClassEmpty<T>(s: seq<T>, g: T, cmp: (T, T) -> int)
    requires forall x | x in s :: !Equivalent(x, g, cmp)
    ensures Class(s, g, cmp) == []
  {
    if s != [] {
      assert s[0] in s;
      ClassEmpty(s[1..], g, cmp);
    }
  }

  lemma {:induction false} MergeStable<T>(a: seq<T>, b: seq<T>, g: T, cmp: (T, T) -> int, u: set<T>)
    requires Preorder(cmp, u) && Elements(a) <= u && Elements(b) <= u && g in u
    requires Sorted(a, cmp)
    ensures Class(Merge(a, b, cmp), g, cmp) == Class(a, g, cmp) + Class(b, g, cmp)
    decreases |a| + |b|
  {
    hide Merge, Class, Equivalent, Preorder, Sorted;
    MergeUnfold(a, b, cmp);
    NoClass(g, cmp);
    if a != [] && b != [] {
      TailWithin(a, u);
      TailWithin(b, u);
      assert a == [a[0]] + a[1..] && b == [b[0]] + b[1..];
      if cmp(a[0], b[0]) <= 0 {
        TailSorted(a, cmp);
        MergeStable(a[1..], b, g, cmp, u);
        ClassHead(a[0], Merge(a[1..], b, cmp), g, cmp);
        ClassHead(a[0], a[1..], g, cmp);
      } else {
        MergeStable(a, b[1..], g, cmp, u);
        ClassHead(b[0], Merge(a, b[1..], cmp), g, cmp);
        ClassHead(b[0], b[1..], g, cmp);
        if Equivalent(b[0], g, cmp) {
          AllLarger(a, b[0], g, cmp, u);
        }
      }
    }
  }

  lemma NoClass<T>(g: T, cmp: (T, T) -> int)
    ensures Class([], g, cmp) == []
  {
  }

  lemma TailSorted<T>(s: seq<T>, cmp: (T, T) -> int)
    requires Sorted(s, cmp) && s != []
    ensures Sorted(s[1..], cmp)
  {
  }

  // If the first of a is larger than y then no element of a is equivalent to what y is.
  lemma AllLarger<T>(a: seq<T>, y: T, g: T, cmp: (T, T) -> int, u: set<T>)
    requires Preorder(cmp, u) && Elements(a) <= u && y in u && g in u && Sorted(a, cmp)
    requires a != [] && cmp(a[0], y) > 0 && Equivalent(y, g, cmp)
    ensures Class(a, g, cmp) == []
  {
    hide Class;
    FirstIsLeast(a, cmp, u);
    assert a[0] in Elements(a);
    forall x | x in a
      ensures !Equivalent(x, g, cmp)
    {
      assert x in Elements(a);
      assert cmp(x, y) > 0;
    }
    ClassEmpty(a, g, cmp);
  }

  // ----- One pass

  lemma {:induction false} PassPermutes<T>(s: seq<T>, k: nat, cmp: (T, T) -> int)
    requires k > 0
    ensures multiset(Pass(s, k, cmp)) == multiset(s)
    decreases |s|
  {
    if s != [] {
      var m, e := Min(k, |s|), Min(2 * k, |s|);
      MergePermutes(s[..m], s[m..e], cmp);
      PassPermutes(s[e..], k, cmp);
      MultisetParts(s, m, e);
    }
  }

  lemma MultisetParts<T>(s: seq<T>, m: nat, e: nat)
    requires m <= e <= |s|
    ensures multiset(s) == multiset(s[..m]) + multiset(s[m..e]) + multiset(s[e..])
  {
    assert s[..e] == s[..m] + s[m..e];
    assert s == s[..e] + s[e..];
  }

  lemma {:induction false} PassStable<T>(s: seq<T>, k: nat, g: T, cmp: (T, T) -> int, u: set<T>)
    requires k > 0
    requires Preorder(cmp, u) && Elements(s) <= u && g in u
    requires Runs(s, k, cmp)
    ensures Class(Pass(s, k, cmp), g, cmp) == Class(s, g, cmp)
    decreases |s|
  {
    if s != [] {
      var m, e := Min(k, |s|), Min(2 * k, |s|);
      PartsWithin(s, m, e, u);
      RunsSecond(s, k, cmp);
      MergeStable(s[..m], s[m..e], g, cmp, u);
      PassStable(s[e..], k, g, cmp, u);
      ClassConcat(Merge(s[..m], s[m..e], cmp), Pass(s[e..], k, cmp), g, cmp);
      ClassParts(s, m, e, g, cmp);
    }
  }

  lemma ClassParts<T>(s: seq<T>, m: nat, e: nat, g: T, cmp: (T, T) -> int)
    requires m <= e <= |s|
    ensures Class(s, g, cmp) == Class(s[..m], g, cmp) + Class(s[m..e], g, cmp) + Class(s[e..], g, cmp)
  {
    JoinParts(s, m, e);
    ClassConcat(s[..m], s[m..e], g, cmp);
    ClassConcat(s[..m] + s[m..e], s[e..], g, cmp);
  }

  lemma JoinParts<T>(s: seq<T>, m: nat, e: nat)
    requires m <= e <= |s|
    ensures s == (s[..m] + s[m..e]) + s[e..]
  {
  }

  lemma PartsWithin<T>(s: seq<T>, m: nat, e: nat, u: set<T>)
    requires m <= e <= |s| && Elements(s) <= u
    ensures Elements(s[..m]) <= u && Elements(s[m..e]) <= u && Elements(s[e..]) <= u
  {
    forall x | x in s
      ensures x in u
    {
      assert x in Elements(s);
    }
  }

  // The second run of length k is sorted, and runs of length k remain after it.
  lemma RunsSecond<T>(s: seq<T>, k: nat, cmp: (T, T) -> int)
    requires k > 0 && s != [] && Runs(s, k, cmp)
    ensures Sorted(s[Min(k, |s|)..Min(2 * k, |s|)], cmp)
    ensures Runs(s[Min(2 * k, |s|)..], k, cmp)
  {
    var m, e := Min(k, |s|), Min(2 * k, |s|);
    var r := s[m..];
    SliceOfSuffix(s, m, e);
    assert Runs(r, k, cmp);
    if r != [] {
      assert Min(k, |r|) == e - m;
    }
  }

  lemma SliceOfSuffix<T>(s: seq<T>, m: nat, e: nat)
    requires m <= e <= |s|
    ensures s[m..][..e - m] == s[m..e]
    ensures s[m..][e - m..] == s[e..]
  {
  }

  // A pass turns sorted runs of length k into sorted runs of length 2k.
  lemma {:induction false} PassDoublesRuns<T>(s: seq<T>, k: nat, cmp: (T, T) -> int, u: set<T>)
    requires k > 0
    requires Preorder(cmp, u) && Elements(s) <= u
    requires Runs(s, k, cmp)
    ensures Runs(Pass(s, k, cmp), 2 * k, cmp)
    decreases |s|
  {
    if s != [] {
      var m, e := Min(k, |s|), Min(2 * k, |s|);
      PartsWithin(s, m, e, u);
      RunsSecond(s, k, cmp);
      MergeSorted(s[..m], s[m..e], cmp, u);
      MergePermutes(s[..m], s[m..e], cmp);
      PassDoublesRuns(s[e..], k, cmp, u);
      PassPermutes(s, k, cmp);
      var t := Pass(s, k, cmp);
      assert t[..e] == Merge(s[..m], s[m..e], cmp);
      assert t[e..] == Pass(s[e..], k, cmp);
    }
  }

  lemma {:induction false} SingletonRuns<T>(s: seq<T>, cmp: (T, T) -> int)
    ensures Runs(s, 1, cmp)
    decreases |s|
  {
    if s != [] {
      SingletonRuns(s[1..], cmp);
    }
  }

  lemma OneRun<T>(s: seq<T>, k: nat, cmp: (T, T) -> int)
    requires k > 0 && Runs(s, k, cmp) && |s| <= k
    ensures Sorted(s, cmp)
  {
    if s != [] {
      assert s[..Min(k, |s|)] == s;
    }
  }

  // ----- The whole sort

  lemma {:induction false} SortFromCorrect<T>(s: seq<T>, k: nat, cmp: (T, T) -> int)
    requires k > 0
    requires Preorder(cmp, Elements(s))
    requires Runs(s, k, cmp)
    ensures StableSortOf(SortFrom(s, k, cmp), s, cmp)
    decreases |s| - k
  {
    var t := Pass(s, k, cmp);
    PassPermutes(s, k, cmp);
    PermutationMembers(s, t);
    PassDoublesRuns(s, k, cmp, Elements(s));
    forall g | g in s
      ensures Class(t, g, cmp) == Class(s, g, cmp)
    {
      assert g in Elements(s);
      PassStable(s, k, g, cmp, Elements(s));
    }
    if |s| <= 2 * k {
      OneRun(t, 2 * k, cmp);
    } else {
      SortFromCorrect(t, 2 * k, cmp);
      var r := SortFrom(t, 2 * k, cmp);
      forall g | g in s
        ensures Class(r, g, cmp) == Class(s, g, cmp)
      {
        assert g in t;
      }
    }
  }

  // The mergesort returns a stable sorted permutation of any sequence.
  lemma SortCorrect<T>(s: seq<T>, cmp: (T, T) -> int)
    requires Preorder(cmp, Elements(s))
    ensures StableSortOf(SortFrom(s, 1, cmp), s, cmp)
  {
    SingletonRuns(s, cmp);
    SortFromCorrect(s, 1, cmp);
  }

  // A stable sorted permutation is unique, so StableSortOf fixes the result completely.
  lemma StableSortUnique<T>(s: seq<T>, t: seq<T>, t': seq<T>, cmp: (T, T) -> int)
    requires Preorder(cmp, Elements(s))
    requires StableSortOf(t, s, cmp) && StableSortOf(t', s, cmp)
    ensures t == t'
  {
    PermutationMembers(s, t);
    PermutationMembers(s, t');
    SameClasses(t, t', cmp, Elements(s));
  }

  lemma {:induction false} SameClasses<T>(t: seq<T>, t': seq<T>, cmp: (T, T) -> int, u: set<T>)
    requires Preorder(cmp, u) && Elements(t) <= u && |t| == |t'|
    requires Elements(t') <= u
    requires Sorted(t, cmp) && Sorted(t', cmp)
    requires forall g | g in u :: Class(t, g, cmp) == Class(t', g, cmp)
    ensures t == t'
    decreases |t|
  {
    if t != [] {
      SameFirst(t, t', cmp, u);
      forall x | x in u
        ensures Class(t[1..], x, cmp) == Class(t'[1..], x, cmp)
      {
        ClassTail(t, t', x, cmp);
      }
      TailWithin(t, u);
      TailWithin(t', u);
      SameClasses(t[1..], t'[1..], cmp, u);
      assert t == [t[0]] + t[1..] && t' == [t'[0]] + t'[1..];
    }
  }

  lemma TailWithin<T>(t: seq<T>, u: set<T>)
    requires t != [] && Elements(t) <= u
    ensures Elements(t[1..]) <= u && t[0] in u
  {
    assert t[0] in Elements(t);
    forall x | x in t[1..]
      ensures x in u
    {
      assert x in Elements(t);
    }
  }

  lemma ClassTail<T>(t: seq<T>, t': seq<T>, x: T, cmp: (T, T) -> int)
    requires t != [] && t' != [] && t[0] == t'[0]
    requires Class(t, x, cmp) == Class(t', x, cmp)
    ensures Class(t[1..], x, cmp) == Class(t'[1..], x, cmp)
  {
    var h := if Equivalent(t[0], x, cmp) then [t[0]] else [];
    assert Class(t, x, cmp)[|h|..] == Class(t[1..], x, cmp);
    assert Class(t', x, cmp)[|h|..] == Class(t'[1..], x, cmp);
  }

  lemma SameFirst<T>(t: seq<T>, t': seq<T>, cmp: (T, T) -> int, u: set<T>)
    requires Preorder(cmp, u) && Elements(t) <= u && Elements(t') <= u && |t| == |t'| > 0
    requires Sorted(t, cmp) && Sorted(t', cmp)
    requires forall g | g in u :: Class(t, g, cmp) == Class(t', g, cmp)
    ensures t[0] == t'[0]
  {
    var g, h := t[0], t'[0];
    assert g in Elements(t) && h in Elements(t');
    assert Class(t, g, cmp)[0] == g && Class(t', h, cmp)[0] == h;
    ClassMembers(t', g, cmp);
    ClassMembers(t, h, cmp);
    FirstIsLeast(t, cmp, u);
    FirstIsLeast(t', cmp, u);
    assert g in t' && h in t;
    assert Equivalent(h, g, cmp);
    assert Class(t', g, cmp)[0] == h;
  }

  lemma {:induction false} ClassMembers<T>(s: seq<T>, g: T, cmp: (T, T) -> int)
    ensures forall x | x in Class(s, g, cmp) :: x in s
  {
    if s != [] {
      ClassMembers(s[1..], g, cmp);
    }
  }
}
