/** What the pending frames of the iterative quicksort of `qsort.c` mean: the array is sorted
    up to the order inside each frame. */
module QsortTheory {
  import opened Seqs
  import opened MergeTheory

  // Boundaries of a part still to be sorted, both inclusive
  datatype Frame = Frame(left: int, right: int)

  ghost predicate Covered(fs: set<Frame>, i: int, j: int) {
    exists f :: f in fs && f.left <= i && j <= f.right
  }

  // Any two elements are in order unless one pending frame holds both.
  ghost predicate Pending<T>(s: seq<T>, fs: set<Frame>, cmp: (T, T) -> int) {
    forall i, j {:trigger s[i], s[j]} | 0 <= i < j < |s| :: cmp(s[i], s[j]) <= 0 || Covered(fs, i, j)
  }

  ghost predicate Disjoint(fs: set<Frame>) {
    forall f, g | f in fs && g in fs && f != g :: f.right < g.left || g.right < f.left
  }

  // Only the part from l to r has changed, and it has been permuted.
  ghost predicate PermutedInside<T>(s: seq<T>, s': seq<T>, l: int, r: int) {
    && |s| == |s'| && 0 <= l && r < |s| && l <= r + 1
    && s'[..l] == s[..l] && s'[r + 1..] == s[r + 1..]
    && multiset(s'[l..r + 1]) == multiset(s[l..r + 1])
  }

  lemma InsideMember<T>(s: seq<T>, s': seq<T>, l: int, r: int, i: int) returns (k: int)
    requires PermutedInside(s, s', l, r) && l <= i <= r
    ensures l <= k <= r && s'[i] == s[k]
  {
    var p, p' := s[l..r + 1], s'[l..r + 1];
    assert p'[i - l] in multiset(p');
    assert p'[i - l] in multiset(p);
    var q :| 0 <= q < |p| && p[q] == p'[i - l];
    k := l + q;
  }

  lemma OutsideSame<T>(s: seq<T>, s': seq<T>, l: int, r: int, i: int)
    requires PermutedInside(s, s', l, r) && 0 <= i < |s| && (i < l || r < i)
    ensures s'[i] == s[i]
  {
    if i < l {
      assert s'[..l][i] == s[..l][i];
    } else {
      assert s'[r + 1..][i - (r + 1)] == s[r + 1..][i - (r + 1)];
    }
  }

  // Rearranging a frame's part keeps everything else in order relative to it.
  lemma PermuteFrame<T>(s: seq<T>, s': seq<T>, fs: set<Frame>, f: Frame, cmp: (T, T) -> int)
    requires f in fs && Disjoint(fs) && PermutedInside(s, s', f.left, f.right) && Pending(s, fs, cmp)
    ensures Pending(s', fs, cmp)
  {
    forall i, j {:trigger s'[i], s'[j]} | 0 <= i < j < |s'| && !Covered(fs, i, j)
      ensures cmp(s'[i], s'[j]) <= 0
    {
      var i', j' := i, j;
      if f.left <= i <= f.right {
        i' := InsideMember(s, s', f.left, f.right, i);
      } else {
        OutsideSame(s, s', f.left, f.right, i);
      }
      if f.left <= j <= f.right {
        j' := InsideMember(s, s', f.left, f.right, j);
      } else {
        OutsideSame(s, s', f.left, f.right, j);
      }
      assert i' < j' && !Covered(fs, i', j') by {
        NotCovered(fs, f, i, j, i', j');
      }
      assert cmp(s[i'], s[j']) <= 0;
    }
  }

  lemma NotCovered(fs: set<Frame>, f: Frame, i: int, j: int, i': int, j': int)
    requires f in fs && Disjoint(fs) && i < j && !Covered(fs, i, j)
    requires if f.left <= i <= f.right then f.left <= i' <= f.right else i' == i
    requires if f.left <= j <= f.right then f.left <= j' <= f.right else j' == j
    ensures i' < j' && !Covered(fs, i', j')
  {
    assert !(f.left <= i && j <= f.right);
    forall g | g in fs
      ensures !(g.left <= i' && j' <= g.right)
    {
      assert g == f || g.right < f.left || f.right < g.left;
      assert !(g.left <= i && j <= g.right);
    }
  }

  // Splitting a partitioned frame at the pivot
  lemma SplitFrame<T>(s: seq<T>, fs: set<Frame>, f: Frame, p: int, cmp: (T, T) -> int, u: set<T>)
    requires Preorder(cmp, u) && Elements(s) <= u
    requires Pending(s, fs + {f}, cmp) && 0 <= f.left <= p <= f.right < |s|
    requires forall i | f.left <= i < p :: cmp(s[i], s[p]) <= 0
    requires forall j | p < j <= f.right :: cmp(s[p], s[j]) <= 0
    ensures Pending(s, fs + {Frame(f.left, p - 1), Frame(p + 1, f.right)}, cmp)
  {
    hide Preorder, Elements;
    var gs := fs + SidesOf(f, p);
    forall i, j {:trigger s[i], s[j]} | 0 <= i < j < |s| && !Covered(gs, i, j)
      ensures cmp(s[i], s[j]) <= 0
    {
      if f.left <= i && j <= f.right {
        BothSides(fs, f, p, i, j);
        if i < p < j {
          ThroughPivot(s, i, p, j, cmp, u);
        }
      } else {
        StillUncovered(fs, f, p, i, j);
      }
    }
  }

  function SidesOf(f: Frame, p: int): set<Frame> {
    {Frame(f.left, p - 1), Frame(p + 1, f.right)}
  }

  // Positions of f that no side covers have the pivot between them.
  lemma BothSides(fs: set<Frame>, f: Frame, p: int, i: int, j: int)
    requires f.left <= i < j <= f.right && !Covered(fs + SidesOf(f, p), i, j)
    ensures i <= p <= j
  {
    assert Frame(f.left, p - 1) in fs + SidesOf(f, p) && Frame(p + 1, f.right) in fs + SidesOf(f, p);
  }

  lemma StillUncovered(fs: set<Frame>, f: Frame, p: int, i: int, j: int)
    requires !Covered(fs + SidesOf(f, p), i, j) && !(f.left <= i && j <= f.right)
    ensures !Covered(fs + {f}, i, j)
  {
    forall g | g in fs + {f}
      ensures !(g.left <= i && j <= g.right)
    {
      assert g == f || g in fs + SidesOf(f, p);
    }
  }

  lemma ThroughPivot<T>(s: seq<T>, i: int, p: int, j: int, cmp: (T, T) -> int, u: set<T>)
    requires Preorder(cmp, u) && Elements(s) <= u
    requires 0 <= i < |s| && 0 <= p < |s| && 0 <= j < |s| && cmp(s[i], s[p]) <= 0 && cmp(s[p], s[j]) <= 0
    ensures cmp(s[i], s[j]) <= 0
  {
    ItemsAreElements(s);
    assert s[i] in u && s[p] in u && s[j] in u;
  }

  // A sorted part is no longer pending.
  lemma DropFrame<T>(s: seq<T>, fs: set<Frame>, f: Frame, cmp: (T, T) -> int)
    requires Pending(s, fs + {f}, cmp)
    requires forall i, j | f.left <= i < j <= f.right && 0 <= i && j < |s| :: cmp(s[i], s[j]) <= 0
    ensures Pending(s, fs, cmp)
  {
    forall i, j {:trigger s[i], s[j]} | 0 <= i < j < |s| && !Covered(fs, i, j)
      ensures cmp(s[i], s[j]) <= 0
    {
      if Covered(fs + {f}, i, j) {
        var g :| g in fs + {f} && g.left <= i && j <= g.right;
        assert g == f;
      }
    }
  }

  lemma NothingPending<T>(s: seq<T>, cmp: (T, T) -> int)
    requires Pending(s, {}, cmp)
    ensures Sorted(s, cmp)
  {
    forall i, j | 0 <= i < j < |s|
      ensures cmp(s[i], s[j]) <= 0
    {
      assert !Covered({}, i, j);
    }
  }

  lemma WholePending<T>(s: seq<T>, cmp: (T, T) -> int)
    ensures Pending(s, {Frame(0, |s| - 1)}, cmp)
  {
    forall i, j {:trigger s[i], s[j]} | 0 <= i < j < |s|
      ensures Covered({Frame(0, |s| - 1)}, i, j)
    {
      assert Frame(0, |s| - 1) in {Frame(0, |s| - 1)};
    }
  }

  lemma PermutedWhole<T>(s: seq<T>, s': seq<T>, l: int, r: int)
    requires PermutedInside(s, s', l, r)
    ensures multiset(s') == multiset(s)
  {
    assert s == s[..l] + s[l..r + 1] + s[r + 1..];
    assert s' == s'[..l] + s'[l..r + 1] + s'[r + 1..];
  }

  lemma PermutedTwice<T>(s: seq<T>, s': seq<T>, s'': seq<T>, l: int, r: int)
    requires PermutedInside(s, s', l, r) && PermutedInside(s', s'', l, r)
    ensures PermutedInside(s, s'', l, r)
  {
  }

  function Swapped<T>(s: seq<T>, i: int, j: int): seq<T>
    requires 0 <= i < |s| && 0 <= j < |s|
  {
    s[i := s[j]][j := s[i]]
  }

  lemma SwapInside<T>(s: seq<T>, i: int, j: int, l: int, r: int)
    requires 0 <= l <= i <= r && l <= j <= r < |s|
    ensures PermutedInside(s, Swapped(s, i, j), l, r)
  {
    var s' := Swapped(s, i, j);
    var p, p' := s[l..r + 1], s'[l..r + 1];
    assert p' == Swapped(p, i - l, j - l);
    SwapPermutes(p, i - l, j - l);
  }

  lemma SwapPermutes<T>(p: seq<T>, i: int, j: int)
    requires 0 <= i < |p| && 0 <= j < |p|
    ensures multiset(Swapped(p, i, j)) == multiset(p)
  {
  }
}
