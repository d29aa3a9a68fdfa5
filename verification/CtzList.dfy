/**
 A file's blocks as a backwards skip list (lfs_ctz_find, lfs_ctz_extend, lfs_ctz_traverse).

 Block n of a file points to block n - 2^k for every k up to ctz(n).
 */
module CtzList {
  import opened Commit
  import opened CtzIndex
  import opened TagWord

  /** A device: block addresses to block contents. */
  type Disk = map<Word, seq<bv8>>

  /** The contents of block `c`. */
  function At(disk: Disk, c: Word): seq<bv8> { if c in disk then disk[c] else [] }

  /** Pointer `k` at the front of a block, little-endian. */
  function Pointer(b: seq<bv8>, k: nat): Word
  {
    if 4 * k + 4 <= |b| then Word(LeWord(b[4 * k..4 * k + 4])) else Word(0)
  }

  // ---------------------------------------------------------------- powers and trailing zeros

  /** The exponent of the largest power of two not above `n`. */
  function Log2(n: nat): nat
    requires n > 0
  {
    if n == 1 then 0 else 1 + Log2(n / 2)
  }

  lemma {:induction false} Log2Bounds(n: nat)
    requires n > 0
    ensures Pow2(Log2(n)) <= n < 2 * Pow2(Log2(n))
  {
    if n > 1 { Log2Bounds(n / 2); }
  }

  lemma {:induction false} Log2Monotone(m: nat, n: nat)
    requires 0 < m <= n
    ensures Log2(m) <= Log2(n)
  {
    if m > 1 { Log2Monotone(m / 2, n / 2); }
  }

  lemma {:induction false} Log2Below(n: nat, k: nat)
    requires 0 < n < Pow2(k)
    ensures Log2(n) < k
    decreases k
  {
    if n > 1 { Log2Below(n / 2, k - 1); }
  }

  /** A block's pointers reach back no further than block 0. */
  lemma {:induction false} PowerFits(n: nat, k: nat)
    requires n > 0 && k <= Ctz(n)
    ensures Pow2(k) <= n
    decreases k
  {
    if k > 0 { PowerFits(n / 2, k - 1); }
  }

  lemma {:induction false} PowerExceeds(n: nat, k: nat)
    requires n > 0 && Ctz(n) > k
    ensures Pow2(k) < n
    decreases k
  {
    if k > 0 { PowerExceeds(n / 2, k - 1); }
  }

  /** Taking off the lowest set bit leaves more trailing zeros. */
  lemma {:induction false} CtzGrows(n: nat)
    requires n > 0 && Pow2(Ctz(n)) < n
    ensures Ctz(n - Pow2(Ctz(n))) > Ctz(n)
  {
    if n % 2 == 0 {
      CtzGrows(n / 2);
      assert (n - Pow2(Ctz(n))) / 2 == n / 2 - Pow2(Ctz(n / 2));
    }
  }

  /** Taking off a power at or below the trailing zeros keeps them. */
  lemma {:induction false} CtzKeeps(n: nat, k: nat)
    requires n > 0 && k <= Ctz(n) && Pow2(k) < n
    ensures Ctz(n - Pow2(k)) >= k
    decreases k
  {
    if k > 0 {
      CtzKeeps(n / 2, k - 1);
      assert (n - Pow2(k)) / 2 == n / 2 - Pow2(k - 1);
    }
  }

  /** Taking off a power strictly below the trailing zeros leaves exactly that many. */
  lemma {:induction false} CtzBecomes(n: nat, k: nat)
    requires n > 0 && k < Ctz(n)
    ensures Pow2(k) < n && Ctz(n - Pow2(k)) == k
    decreases k
  {
    PowerExceeds(n, k);
    if k > 0 {
      CtzBecomes(n / 2, k - 1);
      assert (n - Pow2(k)) / 2 == n / 2 - Pow2(k - 1);
    }
  }

  // ---------------------------------------------------------------- the list

  /** The pointers of block `n` of `chain`. */
  ghost predicate Linked(disk: Disk, chain: seq<Word>, n: nat)
    requires n < |chain|
  {
    forall k :: 0 <= k && n > 0 && k <= Ctz(n) ==>
      Pow2(k) <= n && Pointer(At(disk, chain[n]), k) == chain[n - Pow2(k)]
  }

  /** `chain` lists a file's blocks in order, each reachable from the last. */
  ghost predicate SkipList(disk: Disk, chain: seq<Word>)
  {
    |chain| > 0 && forall n :: 0 <= n < |chain| ==> Linked(disk, chain, n)
  }

  /** How far one hop of the search goes. */
  function Skip(current: nat, target: nat): nat
    requires current > target
  {
    var far := Log2(current - target);
    if far <= Ctz(current) then far else Ctz(current)
  }

  /** Hops still needed, at most: climbing to a well-aligned block, then halving the distance. */
  function HopsLeft(current: nat, target: nat): nat
    requires current >= target
  {
    if current == target then 0
    else
      var far, z := Log2(current - target), Ctz(current);
      if z < far then (far - z) + far + 1 else far + 1
  }

  lemma HopShortens(current: nat, target: nat)
    requires current > target
    ensures Pow2(Skip(current, target)) <= current - target
    ensures HopsLeft(current - Pow2(Skip(current, target)), target) < HopsLeft(current, target)
  {
    var d, z := current - target, Ctz(current);
    var far := Log2(d);
    Log2Bounds(d);
    if z < far { ClimbShortens(current, target); } else { DescentShortens(current, target); }
  }

  lemma ClimbShortens(current: nat, target: nat)
    requires current > target && Ctz(current) < Log2(current - target)
    ensures Pow2(Ctz(current)) <= current - target
    ensures HopsLeft(current - Pow2(Ctz(current)), target) < HopsLeft(current, target)
  {
    hide Ctz, Pow2, Log2;
    var d, z := current - target, Ctz(current);
    Log2Bounds(d);
    PowMonotone(z, Log2(d));
    var next := current - Pow2(z);
    if next > target {
      CtzGrows(current);
      Log2Monotone(next - target, d);
    }
  }

  lemma {:induction false} PowMonotone(a: nat, b: nat)
    requires a <= b
    ensures Pow2(a) <= Pow2(b)
    decreases b - a
  {
    if a < b { PowMonotone(a, b - 1); }
  }

  lemma DescentShortens(current: nat, target: nat)
    requires current > target && Log2(current - target) <= Ctz(current)
    ensures Pow2(Log2(current - target)) <= current - target
    ensures HopsLeft(current - Pow2(Log2(current - target)), target) < HopsLeft(current, target)
  {
    hide Ctz, Pow2, Log2;
    var d := current - target;
    var far := Log2(d);
    Log2Bounds(d);
    var next := current - Pow2(far);
    if next > target {
      CtzKeeps(current, far);
      Log2Below(next - target, far);
    }
  }

  /** The search: from the newest block back to block `target`, never past it. */
  method CtzFind(disk: Disk, ghost chain: seq<Word>, head0: Word, last: nat, target: nat)
      returns (head: Word, ghost hops: nat)
    requires SkipList(disk, chain) && |chain| == last + 1 && head0 == chain[last] && target <= last
    ensures head == chain[target]
    ensures last > target ==> hops <= 2 * Log2(last - target) + 1
    ensures last == target ==> hops == 0
  {
    hide Ctz, Pow2, Log2, Pointer;
    head, hops := head0, 0;
    var current := last;
    while current > target
      invariant target <= current <= last && head == chain[current]
      invariant hops + HopsLeft(current, target) <= HopsLeft(last, target)
      decreases current
    {
      HopShortens(current, target);
      var skip := Skip(current, target);
      assert Linked(disk, chain, current);
      head := Pointer(At(disk, head), skip);
      current := current - Pow2(skip);
      hops := hops + 1;
    }
  }

  function Reversed<T>(s: seq<T>): (r: seq<T>)
    ensures |r| == |s|
    ensures forall i :: 0 <= i < |s| ==> r[i] == s[|s| - 1 - i]
  {
    if s == [] then [] else [s[|s| - 1]] + Reversed(s[..|s| - 1])
  }

  /** The traversal reports every block once, newest first, reading one or two pointers a block. */
  method CtzTraverse(disk: Disk, ghost chain: seq<Word>, head0: Word, last: nat) returns (visited: seq<Word>)
    requires SkipList(disk, chain) && |chain| == last + 1 && head0 == chain[last]
    ensures visited == Reversed(chain)
  {
    hide Pointer;
    visited := [];
    var head, index: nat := head0, last;
    while true
      invariant index <= last && head == chain[index]
      invariant |visited| == last - index
      invariant forall i :: 0 <= i < |visited| ==> visited[i] == chain[last - i]
      decreases index
    {
      visited := visited + [head];
      if index == 0 { return; }
      assert Linked(disk, chain, index);
      assert Pow2(0) == 1 && Pow2(1) == 2;
      var count := 2 - index % 2;
      var first, second := Pointer(At(disk, head), 0), Pointer(At(disk, head), 1);
      if count == 2 {
        assert 1 <= Ctz(index);
        visited := visited + [first];
        head := second;
      } else {
        head := first;
      }
      index := index - count;
    }
  }
}
