/** The copy routines of `string.c` on one byte array: `memmove`, which always copies upwards
    from the low end, and `bbcopy` (behind `memcpy`), which chooses its direction. */
module MemCopy {

  // What a move of n bytes from src to dest should leave.
  function Moved(s: seq<bv8>, dest: nat, src: nat, n: nat): (r: seq<bv8>)
    requires dest + n <= |s| && src + n <= |s|
    ensures |r| == |s|
  {
    s[..dest] + s[src..src + n] + s[dest + n..]
  }

  // What byte-by-byte copying in ascending order does leave.
  function CopiedUp(s: seq<bv8>, dest: nat, src: nat, n: nat): (r: seq<bv8>)
    requires dest + n <= |s| && src + n <= |s|
    ensures |r| == |s|
    decreases n
  {
    if n == 0 then s else CopiedUp(s[dest := s[src]], dest + 1, src + 1, n - 1)
  }

  // ... and in descending order.
  function CopiedDown(s: seq<bv8>, dest: nat, src: nat, n: nat): (r: seq<bv8>)
    requires dest + n <= |s| && src + n <= |s|
    ensures |r| == |s|
    decreases n
  {
    if n == 0 then s else CopiedDown(s[dest + n - 1 := s[src + n - 1]], dest, src, n - 1)
  }

  // ----- memmove and bbcopy

  method MemMove(a: array<bv8>, dest: nat, src: nat, n: nat)
    requires dest + n <= a.Length && src + n <= a.Length
    modifies a
    ensures a[..] == CopiedUp(old(a[..]), dest, src, n)
  {
    var d, s, m: nat := dest, src, n;
    while m > 0
      invariant m <= n && d == dest + (n - m) && s == src + (n - m)
      invariant CopiedUp(a[..], d, s, m) == CopiedUp(old(a[..]), dest, src, n)
    {
      a[d] := a[s];
      d, s, m := d + 1, s + 1, m - 1;
    }
  }

  method BbCopy(a: array<bv8>, src: nat, dest: nat, len: nat)
    requires dest + len <= a.Length && src + len <= a.Length
    modifies a
    ensures a[..] == Moved(old(a[..]), dest, src, len)
  {
    var n: nat := len;
    if dest < src {
      var d, s := dest, src;
      while n > 0
        invariant n <= len && d == dest + (len - n) && s == src + (len - n)
        invariant CopiedUp(a[..], d, s, n) == CopiedUp(old(a[..]), dest, src, len)
      {
        a[d] := a[s];
        d, s, n := d + 1, s + 1, n - 1;
      }
      CopiedUpMoves(old(a[..]), dest, src, len);
    } else {
      var lasts, lastd := src + len - 1, dest + len - 1;
      while n > 0
        invariant n <= len && lasts == src + n - 1 && lastd == dest + n - 1
        invariant CopiedDown(a[..], dest, src, n) == CopiedDown(old(a[..]), dest, src, len)
      {
        a[lastd] := a[lasts];
        lastd, lasts, n := lastd - 1, lasts - 1, n - 1;
      }
      CopiedDownMoves(old(a[..]), dest, src, len);
    }
  }

  // ----- When the results are what a move should leave

  lemma {:induction false} CopiedUpMoves(s: seq<bv8>, dest: nat, src: nat, n: nat)
    requires dest + n <= |s| && src + n <= |s|
    requires dest <= src || src + n <= dest
    ensures CopiedUp(s, dest, src, n) == Moved(s, dest, src, n)
    decreases n
  {
    if n > 0 {
      var s' := s[dest := s[src]];
      CopiedUpMoves(s', dest + 1, src + 1, n - 1);
      assert s'[src + 1..src + n] == s[src + 1..src + n];
      assert s[src..src + n] == [s[src]] + s[src + 1..src + n];
    }
  }

  lemma {:induction false} CopiedDownMoves(s: seq<bv8>, dest: nat, src: nat, n: nat)
    requires dest + n <= |s| && src + n <= |s|
    requires src <= dest || dest + n <= src
    ensures CopiedDown(s, dest, src, n) == Moved(s, dest, src, n)
    decreases n
  {
    if n > 0 {
      var s' := s[dest + n - 1 := s[src + n - 1]];
      CopiedDownMoves(s', dest, src, n - 1);
      assert s'[src..src + n - 1] == s[src..src + n - 1];
      assert s[src..src + n] == s[src..src + n - 1] + [s[src + n - 1]];
    }
  }

  // Copying upwards into an overlap above the source repeats what was copied first.
  lemma {:induction false} CopiedUpRepeats(s: seq<bv8>, dest: nat, src: nat, n: nat)
    requires src < dest && dest + n <= |s|
    ensures forall i | 0 <= i < dest :: CopiedUp(s, dest, src, n)[i] == s[i]
    ensures forall i | dest <= i < dest + n ::
      CopiedUp(s, dest, src, n)[i] == CopiedUp(s, dest, src, n)[i - (dest - src)]
    decreases n
  {
    if n > 0 {
      CopiedUpRepeats(s[dest := s[src]], dest + 1, src + 1, n - 1);
    }
  }

  // memmove moves every content correctly exactly when dest is not inside the source above its start.
  lemma MemMoveCorrectIff(len: nat, dest: nat, src: nat, n: nat)
    requires dest + n <= len && src + n <= len
    ensures (forall s: seq<bv8> | |s| == len :: CopiedUp(s, dest, src, n) == Moved(s, dest, src, n))
       <==> !(src < dest < src + n)
  {
    if src < dest < src + n {
      var s: seq<bv8> := seq(len, i => if i == src then 1 else 0);
      CopiedUpRepeats(s, dest, src, n);
      var r, i := CopiedUp(s, dest, src, n), dest + (dest - src);
      assert r[i] == r[dest] == r[src] == 1;
      assert Moved(s, dest, src, n)[i] == s[dest] == 0;
    } else {
      forall s: seq<bv8> | |s| == len
        ensures CopiedUp(s, dest, src, n) == Moved(s, dest, src, n)
      {
        CopiedUpMoves(s, dest, src, n);
      }
    }
  }
}
