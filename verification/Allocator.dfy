/**
 The block allocator (lfs_alloc, lfs_alloc_lookahead, lfs_alloc_ack, lfs_alloc_drop).

 Blocks are handed out along a ring. A window of the ring is marked from a traversal of everything
 in use; `ack` counts how far the ring may be followed before it comes round to blocks handed out
 since the last acknowledgement, which a traversal may not see yet.
 */
module Allocator {
  import opened Arith
  import opened Bitmap
  import opened Common
  import opened TagWord

  const LIMIT: nat := 0x1_0000_0000

  // ---------------------------------------------------------------- the ring

  /** The block `k` places behind `off` on a ring of `n`. */
  function Ring(off: nat, k: nat, n: nat): (b: nat)
    requires n > 0
    ensures b < n
  {
    (off + k) % n
  }

  /** How far `block` is behind `off`. */
  function Distance(off: nat, block: nat, n: nat): (d: nat)
    requires off < n && block < n
    ensures d < n && Ring(off, d, n) == block
  {
    if block >= off then RingIs(block, n, 0); block - off else RingIs(block, n, 1); block - off + n
  }

  lemma RingIs(block: nat, n: nat, turns: nat)
    requires block < n
    ensures (block + n * turns) % n == block
  {
    DivModUnique(block + n * turns, n, turns, block);
  }

  /** The distance as computed in 32-bit unsigned arithmetic. */
  function UnsignedDistance(off: nat, block: nat, n: nat): nat
    requires off < n && block < n
  {
    ((block - off) % LIMIT + n) % LIMIT % n
  }

  /** The unsigned computation is right except where adding the block count overflows. */
  lemma UnsignedDistanceExact(off: nat, block: nat, n: nat)
    requires off < n && block < n < LIMIT
    ensures UnsignedDistance(off, block, n) == Distance(off, block, n) <==> block < off || block - off + n < LIMIT
  {
    hide Ring, UnsignedDistance;
    UnsignedDistanceIs(off, block, n);
  }

  lemma UnsignedDistanceIs(off: nat, block: nat, n: nat)
    requires off < n && block < n < LIMIT
    ensures var d := block - off;
            UnsignedDistance(off, block, n) == if d < 0 then d + n else if d + n < LIMIT then d else d + n - LIMIT
  {
    var d := block - off;
    var sum := d % LIMIT + n;
    if d < 0 {
      DivModUnique(d, LIMIT, -1, d + LIMIT);
      DivModUnique(sum, LIMIT, 1, d + n);
      RingIs(d + n, n, 0);
    } else {
      RingIs(d, LIMIT, 0);
      if d + n < LIMIT {
        RingIs(sum, LIMIT, 0);
        RingIs(d, n, 1);
      } else {
        DivModUnique(sum, LIMIT, 1, sum - LIMIT);
        RingIs(sum - LIMIT, n, 0);
      }
    }
  }

  /** Places less than a full turn apart are different blocks. */
  lemma RingApart(off: nat, j: nat, k: nat, n: nat)
    requires n > 0 && j < k < j + n
    ensures Ring(off, j, n) != Ring(off, k, n)
  {
    if (off + j) % n == (off + k) % n {
      var q, q' := (off + j) / n, (off + k) / n;
      assert n * (q' - q) == k - j;
      if q' - q >= 1 { MulMonotone(n, 1, q' - q); } else { MulMonotone(n, q' - q, 0); }
    }
  }

  /** Walking on from a place reached is walking on. */
  lemma RingOn(off: nat, j: nat, k: nat, n: nat)
    requires n > 0
    ensures Ring(Ring(off, j, n), k, n) == Ring(off, j + k, n)
  {
    var a := off + j;
    var q := (a % n + k) / n;
    DivModUnique(a + k, n, a / n + q, (a % n + k) % n);
  }

  /** A full turn reaches every block. */
  lemma RingCovers(off: nat, b: nat, n: nat)
    requires b < n
    ensures exists c :: 0 <= c < n && Ring(off, c, n) == b
  {
    var d := Distance(off % n, b, n);
    RingOn(off, 0, d, n);
    assert Ring(off, d, n) == b;
  }

  // ---------------------------------------------------------------- the allocator

  /** lfs->free, and what of the file system it must not hand out. */
  class Allocator {
    const blockCount: nat
    const buffer: array<Word>
    var off: nat
    var size: nat
    var i: nat
    var ack: nat

    /** Blocks a traversal reports: in the committed tree or in a file open for writing. */
    ghost var live: set<nat>
    /** Blocks handed out since the last acknowledgement. */
    ghost var handed: set<nat>
    /** Where the ring stood at the last acknowledgement. */
    ghost var start: nat
    /** What was live when the window was marked. */
    ghost var scanned: set<nat>
    /** Blocks passed over since the last acknowledgement, with what was live when their window was marked. */
    ghost var skipped: map<nat, set<nat>>

    /** Is place `k` of the window marked? */
    predicate Marked(k: nat)
      requires k / 32 < buffer.Length
      reads buffer
    {
      Has(buffer[k / 32], k % 32)
    }

    /** The counters: what is left of the window never exceeds what is left of the turn. */
    ghost predicate Counters()
      reads this
    {
      && 0 < blockCount && 2 * blockCount <= LIMIT && 0 < buffer.Length
      && off < blockCount && i <= size <= blockCount && size <= 32 * buffer.Length
      && size - i <= ack <= blockCount
      && Ring(off, i, blockCount) == Ring(start, blockCount - ack, blockCount)
    }

    /** The marks are the traversal's, and every unmarked place ahead is neither live nor handed out. */
    ghost predicate Window()
      reads this, buffer
      requires Counters()
    {
      && (forall k :: 0 <= k < size ==> (Marked(k) <==> Ring(off, k, blockCount) in scanned))
      && (forall k :: i <= k < size && Ring(off, k, blockCount) !in scanned ==>
            Ring(off, k, blockCount) !in live && Ring(off, k, blockCount) !in handed)
    }

    /** Everything passed since the acknowledgement was handed out or seen in use, and nothing else. */
    ghost predicate Turn()
      reads this`start, this`ack, this`handed, this`skipped
      requires 0 < blockCount
    {
      && (forall c :: 0 <= c < blockCount - ack ==>
            Ring(start, c, blockCount) in handed || Ring(start, c, blockCount) in skipped)
      && (forall b :: b in handed ==> exists c :: 0 <= c < blockCount - ack && Ring(start, c, blockCount) == b)
      && (forall b :: b in skipped ==> b in skipped[b])
    }

    ghost predicate Valid()
      reads this, buffer
    {
      Counters() && Window() && Turn() && forall b :: b in live ==> b < blockCount
    }

    /** A mounted allocator: nothing looked at yet, starting somewhere on the ring. */
    constructor (blocks: nat, lookahead: nat, seed: nat, ghost used: set<nat>)
      requires 0 < blocks && 2 * blocks <= LIMIT && 0 < lookahead && lookahead % 8 == 0
      requires forall b :: b in used ==> b < blocks
      ensures Valid() && fresh(buffer) && blockCount == blocks && live == used && handed == {} && skipped == map[]
              && i == size == 0 && off == seed % blocks && ack == blocks && buffer.Length == lookahead / 4
    {
      blockCount := blocks;
      buffer := new Word[lookahead / 4];
      off, size, i, ack := seed % blocks, 0, 0, blocks;
      live, handed, start, scanned, skipped := used, {}, seed % blocks, {}, map[];
    }

    /** lfs_alloc_ack: what has been handed out is committed, or abandoned. */
    method Ack()
      requires Valid()
      modifies this`ack, this`handed, this`start, this`skipped
      ensures Valid() && handed == {} && skipped == map[] && ack == blockCount
    {
      ack := blockCount;
      handed, skipped, start := {}, map[], off + i;
    }

    /** lfs_alloc_drop: the window is forgotten. */
    method Drop()
      requires Valid()
      modifies this`ack, this`handed, this`start, this`skipped, this`size, this`i
      ensures Valid() && handed == {} && skipped == map[] && i == size
    {
      Forget();
    }

    /** Blocks handed out become reachable. */
    ghost method Publish(bs: set<nat>)
      requires Valid() && bs <= handed
      modifies this`live
      ensures Valid() && live == old(live) + bs
    {
      live := live + bs;
    }

    /** Blocks stop being reachable. */
    ghost method Release(bs: set<nat>)
      requires Valid()
      modifies this`live
      ensures Valid() && live == old(live) - bs
    {
      live := live - bs;
    }

    /** Moves past a place of the window, handing it out unless it is marked. */
    method Advance()
      requires Valid() && i < size
      modifies this`i, this`ack, this`handed, this`skipped
      ensures Valid() && i == old(i) + 1 && ack == old(ack) - 1
      ensures var b := Ring(off, old(i), blockCount);
              if b in scanned then handed == old(handed) && skipped == old(skipped)[b := scanned]
              else b !in old(handed) && b !in live && handed == old(handed) + {b} && skipped == old(skipped)
    {
      ghost var b, c := Ring(off, i, blockCount), blockCount - ack;
      RingStep(off, i, start, c, blockCount);
      i, ack := i + 1, ack - 1;
      if b in scanned { skipped := skipped[b := scanned]; } else { handed := handed + {b}; }
      WindowApart(b);
      assert Ring(start, c, blockCount) == b;
    }

    /** lfs_alloc_lookahead: marks a block if the window reaches it. */
    method Mark(block: nat)
      requires Counters() && block < blockCount
      modifies buffer
      ensures forall k :: 0 <= k < size ==> (Marked(k) <==> old(Marked(k)) || Ring(off, k, blockCount) == block)
    {
      hide Ring, Has, Or, Bit, UnsignedDistance, Distance;
      UnsignedDistanceExact(off, block, blockCount);
      var d := UnsignedDistance(off, block, blockCount);
      forall k | 0 <= k < size ensures Ring(off, k, blockCount) == block <==> k == d {
        OnlyPlace(off, block, k, d, blockCount);
      }
      if d < size {
        ghost var was := buffer[d / 32];
        buffer[d / 32] := Or(buffer[d / 32], Bit(d % 32));
        forall k | 0 <= k < size ensures Marked(k) <==> old(Marked(k)) || k == d {
          if k / 32 == d / 32 { WithHas(was, d % 32, k % 32); }
        }
      }
    }

    /** Clears the window and marks it from a traversal. */
    method Scan(tree: seq<nat>)
      requires Counters() && forall b :: b in tree ==> b < blockCount
      modifies buffer
      ensures forall k :: 0 <= k < size ==> (Marked(k) <==> Ring(off, k, blockCount) in tree)
    {
      hide Ring, Has, Or, Bit;
      for n := 0 to buffer.Length
        invariant forall m :: 0 <= m < n ==> buffer[m] == Word(0)
      {
        buffer[n] := Word(0);
      }
      forall k | 0 <= k < size ensures !Marked(k) { NothingSet(k % 32); }
      for n := 0 to |tree|
        invariant forall k :: 0 <= k < size ==> (Marked(k) <==> Ring(off, k, blockCount) in tree[..n])
      {
        assert tree[n] in tree;
        Mark(tree[n]);
        assert tree[..n + 1] == tree[..n] + [tree[n]];
      }
    }

    /** The next window, marked from a traversal of everything live, or none if that fails. */
    method Refill(tree: seq<nat>, readable: bool) returns (ok: bool)
      requires Valid() && i == size && ack > 0 && forall b :: b in tree <==> b in live
      modifies this`off, this`size, this`i, this`scanned, this`ack, this`handed, this`start, this`skipped, buffer
      ensures Valid() && ok == readable
      ensures ok ==>
                off == (old(off) + old(size)) % blockCount
                && size == if 32 * buffer.Length <= ack then 32 * buffer.Length else ack
      ensures ok ==>
                i == 0 < size && scanned == live && handed == old(handed) && skipped == old(skipped) && ack == old(ack)
      ensures !ok ==> handed == {} && skipped == map[] && i == size
    {
      hide Ring, Has, Turn;
      NextOff(off, size, blockCount);
      ghost var off', size' := off, size;
      off := (off + size) % blockCount;
      size := if 32 * buffer.Length <= ack then 32 * buffer.Length else ack;
      i := 0;
      PassedInTurn();
      NextWindow(off', size');
      if !readable {
        Forget();
        return false;
      }
      Scan(tree);
      scanned := live;
      return true;
    }

    /** lfs_alloc_drop where the window is half made. */
    method Forget()
      requires 0 < blockCount && 2 * blockCount <= LIMIT && 0 < buffer.Length && off < blockCount
      requires forall b :: b in live ==> b < blockCount
      modifies this`ack, this`handed, this`start, this`skipped, this`size, this`i
      ensures Valid() && handed == {} && skipped == map[] && i == size
    {
      size, i := 0, 0;
      handed, skipped, start := {}, map[], off;
      ack := blockCount;
    }

    lemma PassedInTurn()
      requires 0 < blockCount && Turn()
      ensures forall b :: b in handed ==> exists c :: 0 <= c < blockCount - ack && Ring(start, c, blockCount) == b
    {
      hide Ring;
    }

    lemma NextOff(o: nat, k: nat, n: nat)
      requires n > 0
      ensures Ring(o, k, n) == (o + k) % n
    {
    }

    /** A window that starts where the turn has got to meets nothing handed out in this turn. */
    lemma NextWindow(off': nat, size': nat)
      requires 0 < blockCount && off' < blockCount && ack <= blockCount && size <= ack
      requires Ring(off', size', blockCount) == Ring(start, blockCount - ack, blockCount) == off
      requires forall b :: b in handed ==> exists c :: 0 <= c < blockCount - ack && Ring(start, c, blockCount) == b
      ensures Ring(off, 0, blockCount) == off
      ensures forall k :: 0 <= k < size ==> Ring(off, k, blockCount) !in handed
    {
      hide Ring, Turn;
      RingOn(start, blockCount - ack, 0, blockCount);
      forall k | 0 <= k < size ensures Ring(off, k, blockCount) !in handed {
        var b := Ring(off, k, blockCount);
        RingOn(start, blockCount - ack, k, blockCount);
        if b in handed {
          var c :| 0 <= c < blockCount - ack && Ring(start, c, blockCount) == b;
          RingApart(start, c, blockCount - ack + k, blockCount);
        }
      }
    }

    /** At the end of a turn every block has been passed. */
    lemma TurnOver()
      requires Counters() && Turn() && ack == 0
      ensures forall b :: 0 <= b < blockCount ==> b in handed || (b in skipped && b in skipped[b])
    {
      hide Ring;
      forall b | 0 <= b < blockCount ensures b in handed || (b in skipped && b in skipped[b]) {
        RingCovers(start, b, blockCount);
      }
    }

    /** Passes over the marked places at the front of the window. */
    method SkipMarked()
      requires Valid()
      modifies this`i, this`ack, this`handed, this`skipped
      ensures Valid() && handed == old(handed) && i - old(i) == old(ack) - ack >= 0
      ensures i < size ==> !Marked(i)
      ensures i == old(i) ==> skipped == old(skipped)
      ensures forall b :: b in skipped ==> (b in old(skipped) && skipped[b] == old(skipped)[b]) || skipped[b] == scanned
    {
      hide Ring, Has;
      while i != size && Marked(i)
        invariant Valid() && handed == old(handed) && i - old(i) == old(ack) - ack >= 0
        invariant i == old(i) ==> skipped == old(skipped)
        invariant forall b :: b in skipped ==>
                    (b in old(skipped) && skipped[b] == old(skipped)[b]) || skipped[b] == scanned
        decreases size - i
      {
        Advance();
      }
    }

    /**
     lfs_alloc, `tree` being what a traversal would report and `readable` whether it would succeed.
     A block handed out is neither live nor handed out since the last acknowledgement. There is no
     space only when every block was handed out or seen in use; from a fresh start, only when every
     block is live.
     */
    method Alloc(tree: seq<nat>, readable: bool) returns (r: Result<nat>)
      requires Valid() && forall b :: b in tree <==> b in live
      modifies this, buffer
      ensures Valid() && live == old(live)
      ensures r.Ok? ==>
                r.value < blockCount && r.value !in live && r.value !in old(handed) && handed == old(handed) + {r.value}
      ensures r.Ok? && i < size ==> !Marked(i)
      ensures r == Err(NoSpc) ==>
                handed == old(handed)
                && (forall b :: 0 <= b < blockCount ==> b in handed || (b in skipped && b in skipped[b]))
      ensures r == Err(NoSpc) && old(handed == {} && skipped == map[] && i == size) ==>
                forall b :: 0 <= b < blockCount ==> b in live
      ensures r.Err? ==> r == Err(NoSpc) || (r == Err(Corrupt) && !readable && handed == {} && i == size)
    {
      hide Ring, Has, Window, Turn;
      ghost var clean := handed == {} && skipped == map[] && i == size;
      while true
        invariant Valid() && live == old(live) && handed == old(handed)
        invariant clean ==> (i == size || scanned == live) && forall b :: b in skipped ==> skipped[b] == live
        decreases ack, if i == size then 1 else 0
      {
        SkipMarked();
        if i != size {
          var block := Take();
          return Ok(block);
        }
        if ack == 0 {
          TurnOver();
          if clean {
            forall b | 0 <= b < blockCount ensures b in live { assert b in skipped && skipped[b] == live; }
          }
          return Err(NoSpc);
        }
        var ok := Refill(tree, readable);
        if !ok { return Err(Corrupt); }
      }
    }

    /** Hands out the unmarked place at the front of the window and passes over the marked ones behind it. */
    method Take() returns (block: nat)
      requires Valid() && i < size && !Marked(i)
      modifies this`i, this`ack, this`handed, this`skipped
      ensures Valid() && block < blockCount && block !in live && block !in old(handed)
              && handed == old(handed) + {block}
      ensures i < size ==> !Marked(i)
    {
      hide Ring, Has;
      NextOff(off, i, blockCount);
      block := (off + i) % blockCount;
      Advance();
      SkipMarked();
    }

    /** The places ahead are other blocks than the one just passed. */
    lemma WindowApart(b: nat)
      requires Counters() && 0 < i && b == Ring(off, i - 1, blockCount)
      ensures forall k :: i <= k < size ==> Ring(off, k, blockCount) != b
    {
      hide Ring;
      forall k | i <= k < size ensures Ring(off, k, blockCount) != b { RingApart(off, i - 1, k, blockCount); }
    }
  }

  lemma OnlyPlace(off: nat, block: nat, k: nat, d: nat, n: nat)
    requires off < n && block < n && k < n && d == Distance(off, block, n)
    ensures Ring(off, k, n) == block <==> k == d
  {
    hide Ring;
    if k < d { RingApart(off, k, d, n); }
    if d < k { RingApart(off, d, k, n); }
  }

  lemma RingStep(off: nat, j: nat, off': nat, k: nat, n: nat)
    requires n > 0 && Ring(off, j, n) == Ring(off', k, n)
    ensures Ring(off, j + 1, n) == Ring(off', k + 1, n)
  {
    hide Ring;
    RingOn(off, j, 1, n);
    RingOn(off', k, 1, n);
  }
}
