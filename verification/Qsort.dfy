/** The iterative quicksort of `qsort.c`: middle pivot, an explicit stack onto which the larger
    side is pushed first, and insertion sort for sides of at most four elements. */
module Qsort {
  import opened Bits
  import opened Seqs
  import opened MergeTheory
  import opened QsortTheory

  // INSERTION_SORT_THRESHOLD_SHIFT is 2
  const THRESHOLD: int := 4

  // ----- The pivot position, computed on byte offsets

  // ((right - left) >> 1) & ~(size - 1), with right - left == span * size
  function PivotOffset(span: nat, size: nat): nat
    requires size > 0
  {
    AndNot(span * size / 2, size - 1)
  }

  // For a power of two the mask rounds down to the middle element's offset.
  lemma PivotIsMiddle(span: nat, size: nat)
    requires IsPow2(size)
    ensures PivotOffset(span, size) == (span / 2) * size
  {
    var k: nat :| size == Pow2(k);
    AndNotMask(span * size / 2, k);
    hide AndNot, Pow2;
    HalfProduct(span, size);
  }

  lemma HalfProduct(span: nat, size: nat)
    requires size > 0 && (size == 1 || size % 2 == 0)
    ensures span * size / 2 - span * size / 2 % size == (span / 2) * size
  {
    var h, r := span / 2, span % 2;
    assert span * size == 2 * (h * size) + r * size by {
      assert span == 2 * h + r;
    }
    var x := span * size / 2;
    var rest := r * size / 2;
    assert x == size * h + rest;
    assert 0 <= rest < size;
    ModUnique(x, size, h, rest);
  }

  // The pivot is an element for every span exactly when the element size is a power of two:
  // otherwise three elements are enough to miss.
  lemma PivotAlignedIff(size: nat)
    requires size > 0
    ensures (forall span: nat :: PivotOffset(span, size) % size == 0) <==> IsPow2(size)
    ensures !IsPow2(size) ==> PivotOffset(2, size) % size != 0
  {
    if IsPow2(size) {
      forall span: nat
        ensures PivotOffset(span, size) % size == 0
      {
        PivotIsMiddle(span, size);
        ModUnique((span / 2) * size, size, span / 2, 0);
      }
    } else {
      LowestBit(size);
      assert 2 * size / 2 == size;
      ModUnique(PivotOffset(2, size), size, 0, PivotOffset(2, size));
    }
  }

  // ----- Partition and insertion sort

  // SWAP of two elements between l and r, as one step of a rearrangement of s0
  method Swap<T>(a: array<T>, i: int, j: int, ghost s0: seq<T>, ghost l: int, ghost r: int)
    requires 0 <= l <= i <= r < a.Length && l <= j <= r && PermutedInside(s0, a[..], l, r)
    modifies a
    ensures PermutedInside(s0, a[..], l, r) && a[..] == Swapped(old(a[..]), i, j)
    ensures a[i] == old(a[j]) && a[j] == old(a[i])
    ensures forall k | 0 <= k < a.Length && k != i && k != j :: a[k] == old(a[k])
  {
    hide PermutedInside;
    ghost var s := a[..];
    SwapInside(s, i, j, l, r);
    var x := a[i];
    a[i] := a[j];
    a[j] := x;
    assert a[..] == Swapped(s, i, j);
    PermutedTwice(s0, s, a[..], l, r);
  }

  // The pivot ends at the returned position, nothing larger left of it, nothing smaller right.
  method Partition<T>(a: array<T>, left: int, right: int, cmp: (T, T) -> int, ghost u: set<T>) returns (store: int)
    requires 0 <= left <= right < a.Length
    requires Preorder(cmp, u) && Elements(a[..]) <= u
    modifies a
    ensures left <= store <= right
    ensures PermutedInside(old(a[..]), a[..], left, right)
    ensures a[store] == old(a[left + (right - left) / 2])
    ensures forall i | left <= i < store :: cmp(a[store], a[i]) > 0 && cmp(a[i], a[store]) <= 0
    ensures forall j | store < j <= right :: cmp(a[store], a[j]) <= 0
  {
    hide PermutedInside, Preorder, Elements;
    ghost var s0 := a[..];
    NothingMoved(s0, left, right);
    Swap(a, left + (right - left) / 2, right, s0, left, right);
    store := left;
    var index := left;
    while index < right
      invariant left <= store <= index <= right
      invariant PermutedInside(s0, a[..], left, right)
      invariant a[right] == old(a[left + (right - left) / 2])
      invariant forall i | left <= i < store :: cmp(a[right], a[i]) > 0
      invariant forall i | store <= i < index :: cmp(a[right], a[i]) <= 0
    {
      if cmp(a[right], a[index]) > 0 {
        Swap(a, index, store, s0, left, right);
        store := store + 1;
      }
      index := index + 1;
    }
    Swap(a, right, store, s0, left, right);
    StillWithin(s0, a[..], left, right, u);
    forall i | left <= i < store
      ensures cmp(a[i], a[store]) <= 0
    {
      Total(cmp, u, a[i], a[store]);
    }
  }

  lemma NothingMoved<T>(s: seq<T>, l: int, r: int)
    requires 0 <= l <= r + 1 && r < |s|
    ensures PermutedInside(s, s, l, r)
  {
  }

  lemma StillWithin<T>(s: seq<T>, s': seq<T>, l: int, r: int, u: set<T>)
    requires PermutedInside(s, s', l, r) && Elements(s) <= u
    ensures Elements(s') <= u
    ensures forall i | 0 <= i < |s'| :: s'[i] in u
  {
    PermutedWhole(s, s', l, r);
    PermutationMembers(s, s');
    ItemsAreElements(s');
  }

  lemma Total<T>(cmp: (T, T) -> int, u: set<T>, x: T, y: T)
    requires Preorder(cmp, u) && x in u && y in u
    ensures cmp(x, y) <= 0 || cmp(y, x) <= 0
  {
  }

  // for (index = lo + 1; index <= hi; index++) INSERTION_SORT_LOOP(lo)
  method InsertionSort<T>(a: array<T>, lo: int, hi: int, cmp: (T, T) -> int, ghost u: set<T>)
    requires 0 <= lo <= hi + 1 && hi < a.Length
    requires Preorder(cmp, u) && Elements(a[..]) <= u
    modifies a
    ensures PermutedInside(old(a[..]), a[..], lo, hi)
    ensures forall i, j | lo <= i < j <= hi :: cmp(a[i], a[j]) <= 0
  {
    hide PermutedInside, Preorder, Elements;
    ghost var s0 := a[..];
    NothingMoved(s0, lo, hi);
    var index := lo + 1;
    while index <= hi
      invariant lo + 1 <= index
      invariant index <= hi + 1 || index == lo + 1
      invariant PermutedInside(s0, a[..], lo, hi)
      invariant forall i, j | lo <= i < j < index && j <= hi :: cmp(a[i], a[j]) <= 0
    {
      SiftDown(a, lo, index, cmp, s0, hi, u);
      index := index + 1;
    }
  }

  // INSERTION_SORT_LOOP: sink element index into the sorted part before it
  method SiftDown<T>(a: array<T>, lo: int, index: int, cmp: (T, T) -> int, ghost s0: seq<T>, ghost hi: int,
                     ghost u: set<T>)
    requires 0 <= lo < index <= hi < a.Length
    requires Preorder(cmp, u) && Elements(s0) <= u && PermutedInside(s0, a[..], lo, hi)
    requires forall i, j | lo <= i < j < index :: cmp(a[i], a[j]) <= 0
    modifies a
    ensures PermutedInside(s0, a[..], lo, hi)
    ensures forall i, j | lo <= i < j <= index :: cmp(a[i], a[j]) <= 0
  {
    hide PermutedInside, Preorder, Elements, Sinking, Swapped;
    var trail := index - 1;
    StartsSinking(a[..], lo, index, cmp);
    while trail >= lo && cmp(a[trail], a[trail + 1]) > 0
      invariant lo - 1 <= trail < index
      invariant PermutedInside(s0, a[..], lo, hi) && Sinking(a[..], lo, trail + 1, index, cmp)
    {
      StillWithin(s0, a[..], lo, hi, u);
      SinksOn(a[..], lo, trail + 1, index, cmp, u);
      Swap(a, trail, trail + 1, s0, lo, hi);
      trail := trail - 1;
    }
    StillWithin(s0, a[..], lo, hi, u);
    Sunk(a[..], lo, trail + 1, index, cmp, u);
  }

  // The part from lo to index is in order but for the element at t, which nothing after it precedes.
  ghost predicate Sinking<T>(s: seq<T>, lo: int, t: int, index: int, cmp: (T, T) -> int) {
    && 0 <= lo <= t <= index < |s|
    && (forall i, j | lo <= i < j <= index && i != t && j != t :: cmp(s[i], s[j]) <= 0)
    && (forall j | t < j <= index :: cmp(s[t], s[j]) <= 0)
  }

  lemma StartsSinking<T>(s: seq<T>, lo: int, index: int, cmp: (T, T) -> int)
    requires 0 <= lo < index < |s| && forall i, j | lo <= i < j < index :: cmp(s[i], s[j]) <= 0
    ensures Sinking(s, lo, index, index, cmp)
  {
  }

  lemma SinksOn<T>(s: seq<T>, lo: int, t: int, index: int, cmp: (T, T) -> int, u: set<T>)
    requires Sinking(s, lo, t, index, cmp) && lo < t && cmp(s[t - 1], s[t]) > 0
    requires Preorder(cmp, u) && forall i | 0 <= i < |s| :: s[i] in u
    ensures Sinking(Swapped(s, t - 1, t), lo, t - 1, index, cmp)
  {
    hide Preorder;
    Total(cmp, u, s[t - 1], s[t]);
  }

  lemma Sunk<T>(s: seq<T>, lo: int, t: int, index: int, cmp: (T, T) -> int, u: set<T>)
    requires Sinking(s, lo, t, index, cmp) && (t == lo || cmp(s[t - 1], s[t]) <= 0)
    requires Preorder(cmp, u) && forall i | 0 <= i < |s| :: s[i] in u
    ensures forall i, j | lo <= i < j <= index :: cmp(s[i], s[j]) <= 0
  {
    hide Preorder;
    if t > lo {
      forall i | lo <= i < t - 1
        ensures cmp(s[i], s[t]) <= 0
      {
        Transitive(cmp, u, s[i], s[t - 1], s[t]);
      }
    }
  }

  lemma Transitive<T>(cmp: (T, T) -> int, u: set<T>, x: T, y: T, z: T)
    requires Preorder(cmp, u) && x in u && y in u && z in u && cmp(x, y) <= 0 && cmp(y, z) <= 0
    ensures cmp(x, z) <= 0
  {
  }

  // ----- The explicit stack

  function Size(f: Frame): int {
    f.right - f.left + 1
  }

  ghost predicate FitsAt(f: Frame, k: nat, n: nat) {
    Size(f) * Pow2(k) <= n
  }

  // The frame at depth k spans at most n / 2^k elements, and more than the insertion threshold
  // unless it is the first; frames do not overlap.
  ghost predicate StackOk(fr: seq<Frame>, n: nat) {
    && (forall k {:trigger fr[k]} | 0 <= k < |fr| ::
         0 <= fr[k].left <= fr[k].right < n && FitsAt(fr[k], k, n) && (k > 0 ==> Size(fr[k]) > THRESHOLD))
    && (forall j, k | 0 <= j < k < |fr| :: fr[j].right < fr[k].left || fr[k].right < fr[j].left)
  }

  // Pending elements, the termination measure of the outer loop
  ghost function Work(fr: seq<Frame>): int {
    if fr == [] then 0 else Work(fr[..|fr| - 1]) + Size(fr[|fr| - 1])
  }

  lemma {:induction false} WorkNonNegative(fr: seq<Frame>, n: nat)
    requires StackOk(fr, n)
    ensures Work(fr) >= 0
    decreases |fr|
  {
    if fr != [] {
      assert StackOk(fr[..|fr| - 1], n);
      WorkNonNegative(fr[..|fr| - 1], n);
      assert fr[|fr| - 1].left <= fr[|fr| - 1].right;
    }
  }

  lemma FramesDisjoint(fr: seq<Frame>, n: nat, lo: int, hi: int)
    requires StackOk(fr, n) && Apart(fr, lo, hi)
    ensures Disjoint(Elements(fr) + {Frame(lo, hi)})
  {
  }

  // The part from lo to hi overlaps no frame.
  ghost predicate Apart(fr: seq<Frame>, lo: int, hi: int) {
    forall k {:trigger fr[k]} | 0 <= k < |fr| :: fr[k].right < lo || hi < fr[k].left
  }

  // A depth whose power of two the length reaches fits into a stack the length does not reach.
  lemma DepthFits(k: nat, n: nat, slots: nat)
    requires Pow2(k) <= n < Pow2(slots)
    ensures k < slots
  {
    if slots <= k {
      Pow2Monotone(slots, k);
    }
  }

  // SORT_LEFT and SORT_RIGHT: sort a small side at once, push a larger one.
  method SortSide<T>(a: array<T>, stack: array<Frame>, sp0: int, lo: int, hi: int, cmp: (T, T) -> int,
                     ghost fs: set<Frame>, ghost u: set<T>)
    returns (sp: int)
    requires 0 <= lo <= hi + 1 && hi < a.Length && -1 <= sp0 < stack.Length && a as object != stack
    requires Size(Frame(lo, hi)) > THRESHOLD ==> sp0 + 1 < stack.Length
    requires Preorder(cmp, u) && Elements(a[..]) <= u
    requires Disjoint(fs + {Frame(lo, hi)}) && Pending(a[..], fs + {Frame(lo, hi)}, cmp)
    modifies a, stack
    ensures PermutedInside(old(a[..]), a[..], lo, hi)
    ensures hi - lo + 1 <= 4 ==>
      sp == sp0 && stack[..] == old(stack[..]) && Pending(a[..], fs, cmp)
    ensures hi - lo + 1 > 4 ==>
      sp == sp0 + 1 && stack[..sp + 1] == old(stack[..sp0 + 1]) + [Frame(lo, hi)] &&
        Pending(a[..], fs + {Frame(lo, hi)}, cmp)
  {
    hide PermutedInside, Preorder, Elements, Pending, Disjoint;
    sp := sp0;
    ghost var s := a[..];
    NothingMoved(s, lo, hi);
    if hi - lo + 1 <= THRESHOLD {
      InsertionSort(a, lo, hi, cmp, u);
      PermuteFrame(s, a[..], fs + {Frame(lo, hi)}, Frame(lo, hi), cmp);
      DropFrame(a[..], fs, Frame(lo, hi), cmp);
    } else if lo < hi {
      sp := sp + 1;
      stack[sp] := Frame(lo, hi);
    }
  }

  // Order of the two sides of a partitioned frame: the larger first, as the source pushes them
  function Larger(f: Frame, store: int): Frame {
    if store - f.left < f.right - store then Frame(store + 1, f.right) else Frame(f.left, store - 1)
  }

  function Smaller(f: Frame, store: int): Frame {
    if store - f.left < f.right - store then Frame(f.left, store - 1) else Frame(store + 1, f.right)
  }

  ghost function PushIfLarge(fr: seq<Frame>, f: Frame): seq<Frame> {
    if Size(f) > THRESHOLD then fr + [f] else fr
  }

  lemma PopFits(fr: seq<Frame>, f: Frame, n: nat)
    requires StackOk(fr + [f], n)
    ensures StackOk(fr, n) && Apart(fr, f.left, f.right)
    ensures 0 <= f.left <= f.right < n && FitsAt(f, |fr|, n)
    ensures Work(fr + [f]) == Work(fr) + Size(f)
  {
    hide FitsAt;
    var s := fr + [f];
    assert s[|fr|] == f && forall k | 0 <= k < |fr| :: s[k] == fr[k];
    assert s[..|fr|] == fr;
  }

  lemma PushFits(fr: seq<Frame>, f: Frame, n: nat)
    requires StackOk(fr, n) && Apart(fr, f.left, f.right) && 0 <= f.left && f.right < n
    requires Size(f) > THRESHOLD ==> FitsAt(f, |fr|, n)
    ensures StackOk(PushIfLarge(fr, f), n)
    ensures Work(PushIfLarge(fr, f)) == Work(fr) + if Size(f) > THRESHOLD then Size(f) else 0
  {
    hide FitsAt;
    var s := fr + [f];
    assert s[|fr|] == f && forall k | 0 <= k < |fr| :: s[k] == fr[k];
    assert s[..|fr|] == fr;
  }

  // Replacing the top frame by its larger and then its smaller side keeps the stack in bounds.
  lemma SidesFit(fr: seq<Frame>, f: Frame, store: int, n: nat)
    requires StackOk(fr + [f], n) && f.left <= store <= f.right
    ensures StackOk(fr, n) && StackOk(PushIfLarge(fr, Larger(f, store)), n)
    ensures StackOk(PushIfLarge(PushIfLarge(fr, Larger(f, store)), Smaller(f, store)), n)
    ensures Work(PushIfLarge(PushIfLarge(fr, Larger(f, store)), Smaller(f, store))) < Work(fr + [f])
    ensures Apart(PushIfLarge(fr, Larger(f, store)), Smaller(f, store).left, Smaller(f, store).right)
    ensures Apart(fr, Larger(f, store).left, Larger(f, store).right)
  {
    hide StackOk, Work, Pow2;
    var d, l, m := |fr|, Larger(f, store), Smaller(f, store);
    PopFits(fr, f, n);
    SidesSmaller(Size(f), Size(l), Size(m), Pow2(d), n);
    PushFits(fr, l, n);
    var fr' := PushIfLarge(fr, l);
    assert Apart(fr', m.left, m.right) by {
      assert forall k | 0 <= k < d :: fr'[k] == fr[k];
    }
    DoublePow2(d);
    PushFits(fr', m, n);
  }

  lemma DoublePow2(d: nat)
    ensures Pow2(d + 1) == 2 * Pow2(d)
  {
  }

  lemma SidesSmaller(x: int, l: int, m: int, p: nat, n: nat)
    requires 0 <= m <= l && l + m == x - 1 && x * p <= n
    ensures l * p <= n && m * (2 * p) <= n
  {
    assert l * p <= x * p;
    assert 2 * m <= x;
    assert m * (2 * p) == (2 * m) * p <= x * p;
  }

  // A stack of d frames needs 2^(d-1) elements, and five times as many once it has two.
  lemma StackBound(fr: seq<Frame>, n: nat, slots: nat)
    requires StackOk(fr, n) && fr != []
    ensures Pow2(|fr| - 1) <= n
    ensures |fr| > 1 ==> 5 * Pow2(|fr| - 1) <= n
    ensures n < Pow2(slots) ==> |fr| <= slots
  {
    var d := |fr| - 1;
    assert fr[d].left <= fr[d].right && FitsAt(fr[d], d, n);
    AtLeast(Size(fr[d]), if d > 0 then THRESHOLD + 1 else 1, Pow2(d), n);
    if n < Pow2(slots) {
      DepthFits(d, n, slots);
    }
  }

  lemma AtLeast(x: int, y: int, p: nat, n: nat)
    requires y <= x && x * p <= n
    ensures y * p <= n
  {
  }

  lemma SplitPending<T>(s0: seq<T>, s1: seq<T>, fr: seq<Frame>, f: Frame, store: int, n: nat, cmp: (T, T) -> int,
                        u: set<T>)
    requires StackOk(fr + [f], n) && n == |s0| && f.left <= store <= f.right
    requires Preorder(cmp, u) && Elements(s1) <= u
    requires Pending(s0, Elements(fr + [f]), cmp) && PermutedInside(s0, s1, f.left, f.right)
    requires forall i | f.left <= i < store :: cmp(s1[i], s1[store]) <= 0
    requires forall j | store < j <= f.right :: cmp(s1[store], s1[j]) <= 0
    ensures Pending(s1, Elements(fr) + {Smaller(f, store)} + {Larger(f, store)}, cmp)
    ensures Disjoint(Elements(fr) + {Smaller(f, store)} + {Larger(f, store)})
  {
    hide Pending, PermutedInside, Preorder, StackOk, Elements, Disjoint;
    PopFits(fr, f, n);
    ElementsAdd(fr, f);
    FramesDisjoint(fr, n, f.left, f.right);
    PermutedWhole(s0, s1, f.left, f.right);
    assert |multiset(s0)| == |s0| && |multiset(s1)| == |s1|;
    PermuteFrame(s0, s1, Elements(fr + [f]), f, cmp);
    SplitFrame(s1, Elements(fr), f, store, cmp, u);
    assert {Smaller(f, store)} + {Larger(f, store)} == {Frame(f.left, store - 1), Frame(store + 1, f.right)};
    assert Elements(fr) + {Smaller(f, store)} + {Larger(f, store)}
        == Elements(fr) + ({Smaller(f, store)} + {Larger(f, store)});
    SidesDisjoint(fr, n, f, store);
  }

  lemma SidesDisjoint(fr: seq<Frame>, n: nat, f: Frame, store: int)
    requires StackOk(fr, n) && Apart(fr, f.left, f.right) && f.left <= store <= f.right
    ensures Disjoint(Elements(fr) + {Smaller(f, store)} + {Larger(f, store)})
  {
    hide FitsAt;
    FramesDisjoint(fr, n, f.left, f.right);
    DisjointParts(Elements(fr), f, Smaller(f, store), Larger(f, store));
  }

  lemma DisjointParts(fs: set<Frame>, f: Frame, a: Frame, b: Frame)
    requires Disjoint(fs + {f}) && f !in fs
    requires f.left <= a.left && a.right <= f.right && f.left <= b.left && b.right <= f.right
    requires a.right < b.left || b.right < a.left
    ensures Disjoint(fs + {a} + {b})
  {
    forall g | g in fs
      ensures g.right < f.left || f.right < g.left
    {
      assert g in fs + {f} && f in fs + {f};
    }
    forall g, h | g in fs && h in fs && g != h
      ensures g.right < h.left || h.right < g.left
    {
      assert g in fs + {f} && h in fs + {f};
    }
  }

  // Sort or push the larger side l, then the smaller side m.
  method SortBoth<T>(a: array<T>, stack: array<Frame>, sp0: int, l: Frame, m: Frame, cmp: (T, T) -> int,
                     ghost fr: seq<Frame>, ghost u: set<T>)
    returns (sp: int)
    requires -1 <= sp0 < stack.Length && stack[..sp0 + 1] == fr && a as object != stack
    requires 0 <= l.left <= l.right + 1 && l.right < a.Length && 0 <= m.left <= m.right + 1 && m.right < a.Length
    requires |PushIfLarge(fr, l)| <= stack.Length && |PushIfLarge(PushIfLarge(fr, l), m)| <= stack.Length
    requires Preorder(cmp, u) && Elements(a[..]) <= u
    requires Pending(a[..], Elements(fr) + {m} + {l}, cmp) && Disjoint(Elements(fr) + {m} + {l})
    requires Disjoint(Elements(PushIfLarge(fr, l)) + {m})
    modifies a, stack
    ensures multiset(a[..]) == old(multiset(a[..]))
    ensures -1 <= sp < stack.Length && stack[..sp + 1] == PushIfLarge(PushIfLarge(fr, l), m)
    ensures Pending(a[..], Elements(stack[..sp + 1]), cmp)
  {
    hide PermutedInside, Preorder, Pending, Disjoint, Elements;
    ElementsAdd(fr, l);
    ElementsAdd(PushIfLarge(fr, l), m);
    ghost var s := a[..];
    sp := SortSide(a, stack, sp0, l.left, l.right, cmp, Elements(fr) + {m}, u);
    StillWithin(s, a[..], l.left, l.right, u);
    PermutedWhole(s, a[..], l.left, l.right);
    assert Elements(fr) + {m} + {l} == Elements(fr) + {l} + {m};
    s := a[..];
    sp := SortSide(a, stack, sp, m.left, m.right, cmp, Elements(PushIfLarge(fr, l)), u);
    PermutedWhole(s, a[..], m.left, m.right);
  }

  // The two sides of a partition, larger first
  method SortSides<T>(a: array<T>, stack: array<Frame>, sp0: int, f: Frame, store: int, cmp: (T, T) -> int,
                      ghost fr: seq<Frame>, ghost u: set<T>)
    returns (sp: int)
    requires -1 <= sp0 < stack.Length && stack[..sp0 + 1] == fr && a as object != stack && a.Length < Pow2(stack.Length)
    requires StackOk(fr + [f], a.Length) && f.left <= store <= f.right
    requires Preorder(cmp, u) && Elements(a[..]) <= u
    requires Pending(a[..], Elements(fr) + {Smaller(f, store)} + {Larger(f, store)}, cmp)
    requires Disjoint(Elements(fr) + {Smaller(f, store)} + {Larger(f, store)})
    modifies a, stack
    ensures multiset(a[..]) == old(multiset(a[..]))
    ensures -1 <= sp < stack.Length && StackOk(stack[..sp + 1], a.Length) && Work(stack[..sp + 1]) < Work(fr + [f])
    ensures stack[..sp + 1] == PushIfLarge(PushIfLarge(fr, Larger(f, store)), Smaller(f, store))
    ensures Pending(a[..], Elements(stack[..sp + 1]), cmp)
  {
    hide Preorder, Pending, Disjoint, StackOk, Work, Pow2, Elements, FitsAt, PushIfLarge, Apart;
    ghost var n, l, m := a.Length, Larger(f, store), Smaller(f, store);
    PopFits(fr, f, n);
    SidesFit(fr, f, store, n);
    Room(PushIfLarge(fr, l), PushIfLarge(PushIfLarge(fr, l), m), n, stack.Length);
    FramesDisjoint(PushIfLarge(fr, l), n, m.left, m.right);
    if store - f.left < f.right - store {
      sp := SortBoth(a, stack, sp0, Frame(store + 1, f.right), Frame(f.left, store - 1), cmp, fr, u);
    } else {
      sp := SortBoth(a, stack, sp0, Frame(f.left, store - 1), Frame(store + 1, f.right), cmp, fr, u);
    }
  }

  lemma Room(fr1: seq<Frame>, fr2: seq<Frame>, n: nat, slots: nat)
    requires StackOk(fr1, n) && StackOk(fr2, n) && n < Pow2(slots)
    ensures |fr1| <= slots && |fr2| <= slots
  {
    hide StackOk;
    if fr1 != [] {
      StackBound(fr1, n, slots);
    }
    if fr2 != [] {
      StackBound(fr2, n, slots);
    }
  }

  // One round makes fr' of the stack fr: the top frame gives way to its sides that are not small.
  ghost predicate RoundOf(fr: seq<Frame>, fr': seq<Frame>) {
    fr != [] && SomeSplit(fr[|fr| - 1], fr[..|fr| - 1], fr')
  }

  ghost predicate SomeSplit(f: Frame, rest: seq<Frame>, fr': seq<Frame>) {
    exists store :: SplitAt(f, store, rest, fr')
  }

  ghost predicate SplitAt(f: Frame, store: int, rest: seq<Frame>, fr': seq<Frame>) {
    && f.left <= store <= f.right
    && fr' == PushIfLarge(PushIfLarge(rest, Larger(f, store)), Smaller(f, store))
  }

  lemma RoundIs(fr: seq<Frame>, f: Frame, store: int, fr': seq<Frame>)
    requires SplitAt(f, store, fr, fr')
    ensures RoundOf(fr + [f], fr')
  {
    assert SomeSplit(f, fr, fr');
    assert (fr + [f])[..|fr|] == fr;
  }

  // The body of the outer loop: pop a frame, partition it, deal with both sides.
  method Round<T>(a: array<T>, stack: array<Frame>, sp0: int, cmp: (T, T) -> int, ghost u: set<T>) returns (sp: int)
    requires 0 <= sp0 < stack.Length && a as object != stack && a.Length < Pow2(stack.Length)
    requires StackOk(stack[..sp0 + 1], a.Length)
    requires Preorder(cmp, u) && Elements(a[..]) <= u
    requires Pending(a[..], Elements(stack[..sp0 + 1]), cmp)
    modifies a, stack
    ensures multiset(a[..]) == old(multiset(a[..]))
    ensures -1 <= sp < stack.Length && StackOk(stack[..sp + 1], a.Length)
    ensures Work(stack[..sp + 1]) < Work(old(stack[..sp0 + 1]))
    ensures Pending(a[..], Elements(stack[..sp + 1]), cmp)
    ensures RoundOf(old(stack[..sp0 + 1]), stack[..sp + 1])
  {
    hide Preorder, Pending, Disjoint, StackOk, Work, Pow2, Elements, FitsAt, PermutedInside, Apart;
    hide PushIfLarge, Larger, Smaller;
    ghost var s, fr := a[..], stack[..sp0];
    var f := stack[sp0];
    assert stack[..sp0 + 1] == fr + [f];
    PopFits(fr, f, a.Length);
    sp := sp0 - 1;
    var store := Partition(a, f.left, f.right, cmp, u);
    StillWithin(s, a[..], f.left, f.right, u);
    PermutedWhole(s, a[..], f.left, f.right);
    SplitPending(s, a[..], fr, f, store, a.Length, cmp, u);
    sp := SortSides(a, stack, sp, f, store, cmp, fr, u);
    RoundIs(fr, f, store, stack[..sp + 1]);
  }

  // Every stack of frames in the run of a sort: from the whole array round by round to nothing
  ghost predicate StackRun(stacks: seq<seq<Frame>>, n: nat) {
    && stacks != [] && stacks[0] == [Frame(0, n - 1)]
    && forall k | 0 <= k < |stacks| - 1 :: RoundOf(stacks[k], stacks[k + 1])
  }

  // d frames need 2^(d-1) elements, and five times as many from two frames on.
  ghost predicate Shallow(fr: seq<Frame>, n: nat, slots: nat) {
    && |fr| <= slots
    && (fr != [] ==> Pow2(|fr| - 1) <= n)
    && (|fr| > 1 ==> (THRESHOLD + 1) * Pow2(|fr| - 1) <= n)
  }

  lemma StackIsShallow(fr: seq<Frame>, n: nat, slots: nat)
    requires StackOk(fr, n) && n < Pow2(slots)
    ensures Shallow(fr, n, slots)
  {
    hide StackOk;
    if fr != [] {
      StackBound(fr, n, slots);
    }
  }

  // So the frames never outnumber the slots, nor log2(length) + 1.
  lemma ShallowMeans(fr: seq<Frame>, n: nat, slots: nat)
    requires Shallow(fr, n, slots)
    ensures |fr| <= slots && forall k: nat | n < Pow2(k) :: |fr| <= k
  {
    forall k: nat | n < Pow2(k)
      ensures |fr| <= k
    {
      if fr != [] {
        DepthFits(|fr| - 1, n, k);
      }
    }
  }

  lemma NextStack(stacks: seq<seq<Frame>>, n: nat, fr: seq<Frame>)
    requires StackRun(stacks, n) && RoundOf(stacks[|stacks| - 1], fr)
    ensures StackRun(stacks + [fr], n)
  {
    hide RoundOf;
    var t := stacks + [fr];
    forall k | 0 <= k < |t| - 1
      ensures RoundOf(t[k], t[k + 1])
    {
      if k < |stacks| - 1 {
        assert RoundOf(stacks[k], stacks[k + 1]);
      }
    }
  }

  // qsort: for length >= 1 and stack[8 * sizeof(void *)] larger than its logarithm; stacks are the
  // contents of the stack before the first round and after each round.
  method Sort<T(==)>(a: array<T>, slots: nat, cmp: (T, T) -> int) returns (ghost stacks: seq<seq<Frame>>)
    requires 1 <= a.Length < Pow2(slots)
    requires Preorder(cmp, Elements(a[..]))
    modifies a
    ensures Sorted(a[..], cmp) && multiset(a[..]) == old(multiset(a[..]))
    ensures StackRun(stacks, a.Length) && stacks[|stacks| - 1] == []
    ensures forall k | 0 <= k < |stacks| :: Shallow(stacks[k], a.Length, slots)
  {
    hide Pending, StackOk, Work, Pow2, Elements, FitsAt, Preorder, Sorted, RoundOf, Shallow;
    ghost var u := Elements(a[..]);
    var stack := new Frame[slots];
    var sp := 0;
    FirstFrame(a.Length, slots);
    stack[sp] := Frame(0, a.Length - 1);
    assert stack[..sp + 1] == [Frame(0, a.Length - 1)];
    WholePending(a[..], cmp);
    stacks := [stack[..sp + 1]];
    StackIsShallow(stack[..sp + 1], a.Length, slots);
    while sp >= 0
      invariant -1 <= sp < stack.Length && StackOk(stack[..sp + 1], a.Length)
      invariant Pending(a[..], Elements(stack[..sp + 1]), cmp)
      invariant multiset(a[..]) == old(multiset(a[..]))
      invariant StackRun(stacks, a.Length) && stacks[|stacks| - 1] == stack[..sp + 1]
      invariant forall k | 0 <= k < |stacks| :: Shallow(stacks[k], a.Length, slots)
      decreases Work(stack[..sp + 1]), sp
    {
      PermutationMembers(old(a[..]), a[..]);
      sp := Round(a, stack, sp, cmp, u);
      WorkNonNegative(stack[..sp + 1], a.Length);
      StackIsShallow(stack[..sp + 1], a.Length, slots);
      NextStack(stacks, a.Length, stack[..sp + 1]);
      stacks := stacks + [stack[..sp + 1]];
    }
    assert stack[..sp + 1] == [];
    NoFrames();
    NothingPending(a[..], cmp);
  }

  lemma FirstFrame(n: nat, slots: nat)
    requires 1 <= n < Pow2(slots)
    ensures StackOk([Frame(0, n - 1)], n) && Elements([Frame(0, n - 1)]) == {Frame(0, n - 1)}
    ensures slots >= 1 && Pow2(0) == 1
  {
    var f := Frame(0, n - 1);
    assert FitsAt(f, 0, n);
    assert [f] == [] + [f];
    ElementsAdd([], f);
  }

  lemma NoFrames()
    ensures Elements<Frame>([]) == {}
  {
  }
}
