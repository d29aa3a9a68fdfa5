/**
 Read and program caches over the raw device (lfs_bd_read, lfs_bd_cmp, lfs_bd_flush, lfs_bd_sync,
 lfs_bd_prog).

 A read sees the device with the pending program cache laid over it, whatever the read cache
 holds. Programs that follow each other leave the device as if each had gone straight to it.
 */
module BlockCache {
  import opened Arith
  import opened Common

  type Bytes = seq<bv8>

  // ---------------------------------------------------------------- bytes of a block

  /** `data` written over `content` at `off`. */
  function Put(content: Bytes, off: nat, data: Bytes): (r: Bytes)
    requires off + |data| <= |content|
    ensures |r| == |content|
  {
    content[..off] + data + content[off + |data|..]
  }

  const ERASED: bv8 := 0xff

  predicate ErasedFrom(content: Bytes, off: nat) { forall k :: off <= k < |content| ==> content[k] == ERASED }

  /** Programming flash clears bits. */
  function Cleared(content: Bytes, off: nat, data: Bytes): (r: Bytes)
    requires off + |data| <= |content|
    ensures |r| == |content|
  {
    seq(|content|, k requires 0 <= k < |content| =>
      if off <= k < off + |data| then content[k] & data[k - off] else content[k])
  }

  lemma AndErased(b: bv8)
    ensures ERASED & b == b
  {
  }

  /** On an erased place programming writes. */
  lemma ClearedIsPut(content: Bytes, off: nat, data: Bytes)
    requires off + |data| <= |content| && ErasedFrom(content, off)
    ensures Cleared(content, off, data) == Put(content, off, data)
  {
    forall k | 0 <= k < |content| ensures Cleared(content, off, data)[k] == Put(content, off, data)[k] {
      if off <= k < off + |data| { AndErased(data[k - off]); }
    }
  }

  lemma PutPut(content: Bytes, off: nat, a: Bytes, b: Bytes)
    requires off + |a| + |b| <= |content|
    ensures Put(Put(content, off, a), off + |a|, b) == Put(content, off, a + b)
  {
  }

  /** Padding with the erased value changes nothing. */
  lemma PutPadding(content: Bytes, off: nat, data: Bytes, n: nat)
    requires n <= |data| && off + |data| <= |content| && ErasedFrom(content, off)
    requires forall k :: n <= k < |data| ==> data[k] == ERASED
    ensures Put(content, off, data) == Put(content, off, data[..n])
  {
  }

  /** The first difference decides, as memcmp has it. */
  datatype Order = Less | Same | Greater

  function Compare(a: Bytes, b: Bytes): Order
    requires |a| == |b|
  {
    if a == [] then Same
    else if a[0] < b[0] then Less
    else if a[0] > b[0] then Greater
    else Compare(a[1..], b[1..])
  }

  lemma {:induction false} CompareSame(a: Bytes, b: Bytes)
    requires |a| == |b|
    ensures Compare(a, b) == Same <==> a == b
  {
    if a != [] {
      CompareSame(a[1..], b[1..]);
      assert a == [a[0]] + a[1..] && b == [b[0]] + b[1..];
    }
  }

  /** At `k` the first byte differs. */
  predicate DifferAt(a: Bytes, b: Bytes, k: nat)
    requires |a| == |b|
  {
    k < |a| && a[..k] == b[..k] && a[k] != b[k]
  }

  /** The first byte that differs decides, and the smaller byte makes the smaller sequence. */
  lemma {:induction false} CompareDiffer(a: Bytes, b: Bytes, k: nat)
    requires |a| == |b| && DifferAt(a, b, k)
    ensures Compare(a, b) == if a[k] < b[k] then Less else Greater
  {
    if k > 0 {
      assert a[0] == a[..k][0] == b[..k][0] == b[0];
      assert a[1..][..k - 1] == a[..k][1..] && b[1..][..k - 1] == b[..k][1..];
      CompareDiffer(a[1..], b[1..], k - 1);
    }
  }

  /** Comparing piece by piece, up to the first piece that differs. */
  lemma {:induction false} CompareParts(a: Bytes, b: Bytes, n: nat)
    requires |a| == |b| && n <= |a|
    ensures Compare(a, b) == if a[..n] == b[..n] then Compare(a[n..], b[n..]) else Compare(a[..n], b[..n])
  {
    if n > 0 {
      CompareParts(a[1..], b[1..], n - 1);
      assert a[..n] == [a[0]] + a[1..][..n - 1] && b[..n] == [b[0]] + b[1..][..n - 1];
      assert a[n..] == a[1..][n - 1..] && b[n..] == b[1..][n - 1..];
      assert a[..n][1..] == a[1..][..n - 1] && b[..n][1..] == b[1..][..n - 1];
    } else {
      assert a[0..] == a && b[0..] == b;
    }
  }

  /** Where everything up to `i` agrees, the next piece decides unless it agrees as well. */
  lemma NextPiece(a: Bytes, b: Bytes, i: nat, n: nat)
    requires |a| == |b| && i + n <= |a| && a[..i] == b[..i]
    ensures a[i..i + n] == b[i..i + n] ==> a[..i + n] == b[..i + n]
    ensures a[i..i + n] != b[i..i + n] ==> Compare(a, b) == Compare(a[i..i + n], b[i..i + n])
  {
    hide Compare;
    CompareParts(a, b, i);
    CompareParts(a[i..], b[i..], n);
    assert a[i..][..n] == a[i..i + n] && b[i..][..n] == b[i..i + n];
    assert a[..i + n] == a[..i] + a[i..i + n] && b[..i + n] == b[..i] + b[i..i + n];
  }

  // ---------------------------------------------------------------- when the read loop gets on

  /** A direct read at `off` up to a pending program at `pending` would be of no bytes at all. */
  predicate Stuck(readSize: nat, progSize: nat, off: nat, pending: nat)
    requires readSize > 0 && progSize > 0
  {
    off < pending && off % readSize == 0 && pending % progSize == 0 && AlignDown(pending - off, readSize) == 0
  }

  /** No direct read is of no bytes exactly when program units are whole read units. */
  lemma BypassGetsOn(readSize: nat, progSize: nat)
    requires readSize > 0 && progSize > 0
    ensures progSize % readSize == 0 <==> forall off: nat, pending: nat :: !Stuck(readSize, progSize, off, pending)
  {
    hide AlignDown;
    if progSize % readSize == 0 {
      forall off: nat, pending: nat ensures !Stuck(readSize, progSize, off, pending) {
        if off < pending && off % readSize == 0 && pending % progSize == 0 {
          GapIsWhole(readSize, progSize, off, pending);
        }
      }
    } else {
      var off := AlignDown(progSize, readSize);
      SmallGap(progSize - off, readSize);
      assert Stuck(readSize, progSize, off, progSize);
    }
  }

  lemma SmallGap(n: nat, size: nat)
    requires n < size
    ensures AlignDown(n, size) == 0
  {
  }

  /** From a read boundary to a later program boundary is a whole number of read units. */
  lemma GapIsWhole(readSize: nat, progSize: nat, off: nat, pending: nat)
    requires 0 < readSize && 0 < progSize && progSize % readSize == 0
    requires off < pending && off % readSize == 0 && pending % progSize == 0
    ensures pending % readSize == 0 && AlignDown(pending - off, readSize) == pending - off
  {
    var u, v, w := progSize / readSize, pending / progSize, off / readSize;
    assert pending == readSize * u * v == readSize * (u * v);
    MultipleMod(readSize, u * v);
    assert pending - off == readSize * (u * v - w);
    MultipleMod(readSize, u * v - w);
  }

  /** Bytes the read cache is loaded with for a read at `off`. */
  function Loaded(off: nat, hint: nat, readSize: nat, blockSize: nat, cacheSize: nat): int
    requires readSize > 0
  {
    var end := AlignUp(off + hint, readSize);
    var n := (if end <= blockSize then end else blockSize) - AlignDown(off, readSize);
    if n <= cacheSize then n else cacheSize
  }

  /** Loading brings the wanted byte into the cache exactly unless nothing is asked for at a read boundary. */
  lemma LoadGetsOn(off: nat, hint: nat, readSize: nat, blockSize: nat, cacheSize: nat)
    requires 0 < readSize <= cacheSize && off < blockSize
    ensures off < AlignDown(off, readSize) + Loaded(off, hint, readSize, blockSize, cacheSize) <==>
              hint > 0 || off % readSize != 0
  {
    hide AlignDown, AlignUp;
    var end := AlignUp(off + hint, readSize);
    if hint == 0 && off % readSize == 0 {
      AlignedUp(off, readSize);
    } else if hint == 0 {
      assert end >= off && end % readSize == 0;
    }
  }

  lemma AlignedUp(n: nat, size: nat)
    requires size > 0 && n % size == 0
    ensures AlignUp(n, size) == n
  {
    DivModUnique(n + size - 1, size, n / size, size - 1);
  }

  // ---------------------------------------------------------------- the caches

  lemma PutInside(content: Bytes, off: nat, data: Bytes, from: nat, to: nat)
    requires off <= from <= to <= off + |data| <= |content|
    ensures Put(content, off, data)[from..to] == data[from - off..to - off]
  {
    forall k | from <= k < to ensures Put(content, off, data)[k] == data[k - off] {
    }
  }

  lemma PutOutside(content: Bytes, off: nat, data: Bytes, from: nat, to: nat)
    requires off + |data| <= |content| && from <= to <= |content| && (to <= off || off + |data| <= from)
    ensures Put(content, off, data)[from..to] == content[from..to]
  {
  }

  lemma Joined(s: Bytes, a: nat, b: nat, c: nat)
    requires a <= b <= c <= |s|
    ensures s[a..b] + s[b..c] == s[a..c]
  {
  }

  lemma Part(s: Bytes, lo: nat, hi: nat, from: nat, to: nat)
    requires lo <= from <= to <= hi <= |s|
    ensures s[lo..hi][from - lo..to - lo] == s[from..to]
  {
    var part := s[lo..hi];
    assert |part[from - lo..to - lo]| == to - from;
    forall k | 0 <= k < to - from ensures part[from - lo..to - lo][k] == s[from..to][k] {
      assert part[from - lo + k] == s[from + k];
    }
  }

  function Max(a: nat, b: nat): nat { if a > b then a else b }

  /** Is place `k` either not programmed or programmed to what it was? */
  predicate LeftErased(off: nat, data: Bytes, k: nat) { off <= k < off + |data| ==> data[k - off] == ERASED }

  /**
   A read cache not dropped over a program, as in a flush that does not validate, goes stale
   exactly when a byte it holds is programmed to something else than the erased value.
   */
  lemma StaleAfterProgram(content: Bytes, at: nat, cached: Bytes, off: nat, data: Bytes)
    requires at + |cached| <= |content| && off + |data| <= |content|
    requires cached == content[at..at + |cached|] && ErasedFrom(content, off)
    ensures Put(content, off, data)[at..at + |cached|] == cached <==>
            forall k: nat :: at <= k < at + |cached| ==> LeftErased(off, data, k)
  {
    var after := Put(content, off, data);
    forall k: nat | at <= k < at + |cached|
      ensures after[at..at + |cached|][k - at] == after[k]
      ensures after[k] == cached[k - at] <==> LeftErased(off, data, k)
    {
      assert cached[k - at] == content[k];
    }
    if forall k: nat :: at <= k < at + |cached| ==> LeftErased(off, data, k) {
      forall i | 0 <= i < |cached| ensures after[at..at + |cached|][i] == cached[i] {
        assert LeftErased(off, data, at + i);
      }
    }
  }

  lemma PutNothing(content: Bytes, off: nat)
    requires off <= |content|
    ensures Put(content, off, []) == content
  {
  }

  /** Copying behind the used part of a cleared buffer. */
  lemma CopiedInto(buffer: Bytes, at: nat, data: Bytes)
    requires at + |data| <= |buffer| && ErasedFrom(buffer, at)
    ensures Put(buffer, at, data)[..at + |data|] == buffer[..at] + data
            && ErasedFrom(Put(buffer, at, data), at + |data|)
  {
  }

  lemma AlignedDown(n: nat, size: nat)
    requires size > 0 && n % size == 0
    ensures AlignDown(n, size) == n
  {
  }

  /** Pieces put together. */
  function Flat(pieces: seq<Bytes>): Bytes
  {
    if pieces == [] then [] else Flat(pieces[..|pieces| - 1]) + pieces[|pieces| - 1]
  }

  lemma {:induction false} FlatFront(pieces: seq<Bytes>, n: nat)
    requires n <= |pieces|
    ensures |Flat(pieces[..n])| <= |Flat(pieces)|
    decreases |pieces|
  {
    if n < |pieces| {
      FlatFront(pieces[..|pieces| - 1], n);
      assert pieces[..|pieces| - 1][..n] == pieces[..n];
    } else {
      assert pieces[..n] == pieces;
    }
  }

  lemma FlatNext(pieces: seq<Bytes>, n: nat)
    requires n < |pieces|
    ensures Flat(pieces[..n + 1]) == Flat(pieces[..n]) + pieces[n] && |Flat(pieces[..n + 1])| <= |Flat(pieces)|
  {
    assert pieces[..n + 1][..n] == pieces[..n];
    FlatFront(pieces, n + 1);
  }

  /** `dat`, the next piece of `whole`, against the same piece of `data`. */
  lemma PieceDecides(view: Bytes, off: nat, whole: Bytes, data: Bytes, i: nat, dat: Bytes)
    requires off + |data| <= |view| && view[off..off + |data|] == whole
    requires i + |dat| <= |data| && whole[..i] == data[..i] && dat == view[off + i..off + i + |dat|]
    ensures var res := Compare(dat, data[i..i + |dat|]);
            if res == Same then whole[..i + |dat|] == data[..i + |dat|] else Compare(whole, data) == res
  {
    hide Compare;
    var n := |dat|;
    Part(view, off, off + |data|, off + i, off + i + n);
    assert whole[i..i + n] == dat;
    CompareSame(dat, data[i..i + n]);
    NextPiece(whole, data, i, n);
  }

  /** From a program boundary to the end of the block is a whole number of program units. */
  lemma UnitsLeft(off: nat, block: nat, cache: nat, unit: nat)
    requires 0 < unit && 0 < cache && off <= block && off % unit == 0 && cache % unit == 0 && block % cache == 0
    ensures (block - off) % unit == 0
  {
    var a, c, n := off / unit, cache / unit, block / cache;
    assert off == unit * a && cache == unit * c && block == cache * n;
    assert block == unit * (c * n);
    assert unit * (c * n) - unit * a == unit * (c * n - a);
    MultipleMod(unit, c * n - a);
  }

  /** lfs_cache_t. */
  class Cache {
    var block: Option<nat>
    var off: nat
    var size: nat
    var buffer: Bytes

    /** lfs_cache_drop: the contents stay. */
    method Drop()
      modifies this`block
      ensures block == None
    {
      block := None;
    }
  }

  /** A program operation the device was asked for. */
  datatype Written = Written(block: nat, off: nat, size: nat)

  /** A raw flash device. */
  class Device {
    const readSize: nat
    const progSize: nat
    const cacheSize: nat
    const blockSize: nat
    const blockCount: nat
    var blocks: seq<Bytes>
    ghost var programs: seq<Written>

    /** What littlefs asserts of its configuration, and that program units are whole read units. */
    predicate Geometry()
      reads this
    {
      && 0 < readSize && 0 < progSize && 0 < cacheSize && progSize % readSize == 0
      && cacheSize % readSize == 0 && cacheSize % progSize == 0 && blockSize % cacheSize == 0
      && |blocks| == blockCount && forall b :: 0 <= b < blockCount ==> |blocks[b]| == blockSize
    }

    /** What the read cache holds is on the device. */
    predicate Coherent(r: Cache)
      reads this, r
    {
      r.block.Some? ==>
        && r.block.value < |blocks| && readSize > 0 && r.off % readSize == 0 && r.size <= |r.buffer|
        && r.off + r.size <= |blocks[r.block.value]|
        && r.buffer[..r.size] == blocks[r.block.value][r.off..r.off + r.size]
    }

    /** What the program cache holds can go to an erased place. */
    predicate Held(p: Cache)
      reads this, p
    {
      && |p.buffer| == cacheSize && progSize > 0
      && (p.block.None? ==> ErasedFrom(p.buffer, 0))
      && (p.block.Some? ==>
            && p.block.value < |blocks| && p.off % progSize == 0 && p.size <= cacheSize
               && p.off + p.size <= |blocks[p.block.value]|
            && ErasedFrom(blocks[p.block.value], p.off) && ErasedFrom(p.buffer, p.size))
    }

    /** Block `b` with what is pending laid over it. */
    function View(p: Cache?, b: nat): (r: Bytes)
      reads this, p
      requires b < |blocks| && (p != null ==> Held(p))
      ensures |r| == |blocks[b]|
    {
      if p != null && p.block == Some(b) then Put(blocks[b], p.off, p.buffer[..p.size]) else blocks[b]
    }

    /** What can be had at `at` without going to the device. */
    function InCache(c: Cache?, b: nat, at: nat): bool
      reads c
    {
      c != null && c.block == Some(b) && c.off <= at < c.off + c.size
    }

    /** Bytes of `b` from `at`, at most `most`, that `c` does not hold: up to where it begins. */
    function Before(c: Cache?, b: nat, at: nat, most: nat): (n: nat)
      reads c
      requires !InCache(c, b, at)
      ensures n <= most && (most > 0 ==> n > 0)
    {
      if c != null && c.block == Some(b) && at < c.off && c.off - at < most then c.off - at else most
    }

    /**
     lfs_bd_read: `size` bytes of a block as if what is pending had been programmed, or Corrupt for
     a place the device does not have.
     */
    method Read(pcache: Cache?, rcache: Cache, hint: nat, block: nat, off: nat, size: nat) returns (r: Result<Bytes>)
      requires Geometry() && hint >= 1 && pcache != rcache && Coherent(rcache) && (pcache != null ==> Held(pcache))
      modifies rcache
      ensures Coherent(rcache)
      ensures r.Err? <==> block >= blockCount || off + size > blockSize
      ensures r.Err? ==> r == Err(Corrupt)
      ensures r.Ok? ==> off + size <= |View(pcache, block)| && r.value == View(pcache, block)[off..off + size]
    {
      hide View, Put, InCache, Held, Coherent;
      if block >= blockCount || off + size > blockSize { return Err(Corrupt); }
      ghost var view := View(pcache, block);
      var data: Bytes, at, left := [], off, size;
      while left > 0
        invariant at + left == off + size && off <= at <= off + size <= blockSize && Coherent(rcache)
                  && View(pcache, block) == view
        invariant pcache != null ==> Held(pcache)
        invariant |view| == blockSize && data == view[off..at]
        decreases left, if InCache(rcache, block, at) then 0 else 1
      {
        var more := ReadSome(pcache, rcache, hint, block, at, left);
        Joined(view, off, at, at + |more|);
        data, at, left := data + more, at + |more|, left - |more|;
      }
      return Ok(data);
    }

    /** One turn of the read loop: from a cache, from the device, or nothing but the cache loaded. */
    method ReadSome(pcache: Cache?, rcache: Cache, hint: nat, block: nat, at: nat, left: nat) returns (data: Bytes)
      requires Geometry() && hint >= 1 && pcache != rcache && Coherent(rcache) && (pcache != null ==> Held(pcache))
      requires block < blockCount && 0 < left && at + left <= blockSize
      modifies rcache
      ensures Coherent(rcache) && |data| <= left
      ensures at + |data| <= |View(pcache, block)| && data == View(pcache, block)[at..at + |data|]
      ensures data == [] ==> InCache(rcache, block, at) && !old(InCache(rcache, block, at))
    {
      hide View, Put, AlignDown, AlignUp, Loaded, Held;
      ViewSize(pcache, block);
      var diff := left;
      if InCache(pcache, block, at) {
        if pcache.size - (at - pcache.off) < diff { diff := pcache.size - (at - pcache.off); }
        InPending(pcache, block, at, diff);
        return pcache.buffer[at - pcache.off..][..diff];
      }
      diff := Before(pcache, block, at, diff);
      if InCache(rcache, block, at) {
        if rcache.size - (at - rcache.off) < diff { diff := rcache.size - (at - rcache.off); }
        InLoaded(pcache, rcache, block, at, diff);
        return rcache.buffer[at - rcache.off..][..diff];
      }
      diff := Before(rcache, block, at, diff);
      if left >= hint && at % readSize == 0 && left >= readSize {
        DirectGetsOn(pcache, rcache, block, at, left, diff);
        diff := AlignDown(diff, readSize);
        NotPending(pcache, block, at, diff);
        return blocks[block][at..at + diff];
      }
      Load(rcache, hint, block, at);
      return [];
    }

    lemma ViewSize(p: Cache?, b: nat)
      requires Geometry() && (p != null ==> Held(p)) && b < blockCount
      ensures |View(p, b)| == blockSize && (p != null && p.block == Some(b) ==> p.size <= |p.buffer|)
    {
    }

    /** Loads the read cache around `at`. */
    method Load(rcache: Cache, hint: nat, block: nat, at: nat)
      requires Geometry() && hint >= 1 && block < blockCount && at < blockSize
      modifies rcache
      ensures Coherent(rcache) && InCache(rcache, block, at)
    {
      hide AlignDown, AlignUp;
      CacheWhole();
      LoadGetsOn(at, hint, readSize, blockSize, cacheSize);
      rcache.block := Some(block);
      rcache.off := AlignDown(at, readSize);
      rcache.size := Loaded(at, hint, readSize, blockSize, cacheSize);
      rcache.buffer := blocks[block][rcache.off..rcache.off + rcache.size];
    }

    lemma CacheWhole()
      requires Geometry()
      ensures readSize <= cacheSize && progSize <= cacheSize
    {
      MultiplesApart(0, cacheSize, readSize);
      MultiplesApart(0, cacheSize, progSize);
    }

    lemma InPending(p: Cache, b: nat, at: nat, n: nat)
      requires Geometry() && Held(p) && b < blockCount && InCache(p, b, at) && at + n <= p.off + p.size
      ensures View(p, b)[at..at + n] == p.buffer[at - p.off..][..n]
    {
      hide Put;
      PutInside(blocks[b], p.off, p.buffer[..p.size], at, at + n);
      assert p.buffer[..p.size][at - p.off..at + n - p.off] == p.buffer[at - p.off..][..n];
    }

    lemma NotPending(p: Cache?, b: nat, at: nat, n: nat)
      requires Geometry() && (p != null ==> Held(p)) && b < blockCount && at + n <= blockSize
      requires !InCache(p, b, at) && n <= Before(p, b, at, blockSize)
      ensures View(p, b)[at..at + n] == blocks[b][at..at + n]
    {
      hide Put;
      if p != null && p.block == Some(b) { PutOutside(blocks[b], p.off, p.buffer[..p.size], at, at + n); }
    }

    lemma InLoaded(p: Cache?, r: Cache, b: nat, at: nat, n: nat)
      requires Geometry() && (p != null ==> Held(p)) && Coherent(r) && b < blockCount && at + n <= blockSize
      requires !InCache(p, b, at) && n <= Before(p, b, at, blockSize) && InCache(r, b, at) && at + n <= r.off + r.size
      ensures View(p, b)[at..at + n] == r.buffer[at - r.off..][..n]
    {
      hide Put;
      NotPending(p, b, at, n);
      Part(blocks[b], r.off, r.off + r.size, at, at + n);
      assert r.buffer[at - r.off..][..n] == r.buffer[..r.size][at - r.off..at + n - r.off];
    }

    /** A direct read is of at least one read unit. */
    lemma DirectGetsOn(p: Cache?, r: Cache, b: nat, at: nat, left: nat, diff: nat)
      requires Geometry() && (p != null ==> Held(p)) && Coherent(r) && !InCache(p, b, at) && !InCache(r, b, at)
      requires diff == Before(r, b, at, Before(p, b, at, left))
      requires left >= readSize && at % readSize == 0
      ensures AlignDown(diff, readSize) > 0 && AlignDown(diff, readSize) <= diff
    {
      hide AlignDown;
      if diff < readSize {
        if p != null && p.block == Some(b) && at + diff == p.off {
          GapIsWhole(readSize, progSize, at, p.off);
          MultiplesApart(at, p.off, readSize);
        } else {
          MultiplesApart(at, r.off, readSize);
        }
      }
    }

    /** lfs_bd_cmp: eight bytes at a time, up to the first difference. */
    method Cmp(pcache: Cache?, rcache: Cache, hint: nat, block: nat, off: nat, data: Bytes) returns (r: Result<Order>)
      requires Geometry() && hint >= |data| && pcache != rcache && Coherent(rcache) && (pcache != null ==> Held(pcache))
      modifies rcache
      ensures Coherent(rcache)
      ensures block < blockCount && off + |data| <= blockSize ==>
                off + |data| <= |View(pcache, block)| && r == Ok(Compare(View(pcache, block)[off..off + |data|], data))
    {
      hide View, Put, Coherent, Held, Compare;
      ghost var there := block < blockCount && off + |data| <= blockSize;
      if there { ViewSize(pcache, block); }
      ghost var whole := if there then View(pcache, block)[off..off + |data|] else data;
      var i := 0;
      while i < |data|
        invariant 0 <= i <= |data| && Coherent(rcache) && (pcache != null ==> Held(pcache))
        invariant there ==> |View(pcache, block)| == blockSize && View(pcache, block)[off..off + |data|] == whole
        invariant there ==> whole[..i] == data[..i]
      {
        var diff := if |data| - i < 8 then |data| - i else 8;
        var dat := Read(pcache, rcache, hint - i, block, off + i, diff);
        if dat.Err? { return Err(dat.error); }
        var res := Compare(dat.value, data[i..i + diff]);
        if there {
          PieceDecides(View(pcache, block), off, whole, data, i, dat.value);
        }
        if res != Same { return Ok(res); }
        i := i + diff;
      }
      assert whole[..|data|] == whole && data[..|data|] == data;
      CompareSame(data, data);
      return Ok(Same);
    }

    // -------------------------------------------------------------- programming

    /** Every program so far is of whole units, inside a block, and fits the cache. */
    ghost predicate WholePrograms()
      reads this
    {
      progSize > 0 &&
      forall k {:trigger programs[k]} :: 0 <= k < |programs| ==>
        && programs[k].off % progSize == 0 && programs[k].size % progSize == 0
        && 0 < programs[k].size <= cacheSize && programs[k].off + programs[k].size <= blockSize
    }

    /** Programs the device: bits are cleared. */
    method Program(block: nat, off: nat, data: Bytes)
      requires Geometry() && block < blockCount && off + |data| <= blockSize
      modifies this`blocks, this`programs
      ensures Geometry() && blocks == old(blocks)[block := Cleared(old(blocks[block]), off, data)]
      ensures programs == old(programs) + [Written(block, off, |data|)]
    {
      blocks := blocks[block := Cleared(blocks[block], off, data)];
      programs := programs + [Written(block, off, |data|)];
    }

    /** Reads back what was programmed. */
    method Validate(rcache: Cache, block: nat, off: nat, data: Bytes) returns (ok: bool)
      requires Geometry() && block < blockCount && off + |data| <= blockSize && blocks[block][off..off + |data|] == data
      modifies rcache
      ensures ok && Coherent(rcache)
    {
      hide Compare;
      rcache.Drop();
      var res := Cmp(null, rcache, |data|, block, off, data);
      CompareSame(data, data);
      ok := res == Ok(Same);
    }

    /** What is pending, filled up to whole program units, still fits. */
    lemma UnitsFit(off: nat, size: nat)
      requires Geometry() && off % progSize == 0 && 0 < size <= cacheSize && off + size <= blockSize
      ensures size <= AlignUp(size, progSize) <= cacheSize && off + AlignUp(size, progSize) <= blockSize
    {
      hide AlignUp;
      AlignUpBelow(size, cacheSize, progSize);
      UnitsLeft(off, blockSize, cacheSize, progSize);
      AlignUpBelow(size, blockSize - off, progSize);
    }

    lemma StillWhole(before: seq<Written>)
      requires |programs| == |before| + 1 && programs[..|before|] == before && progSize > 0
      requires forall k {:trigger before[k]} :: 0 <= k < |before| ==>
                 && before[k].off % progSize == 0 && before[k].size % progSize == 0
                 && 0 < before[k].size <= cacheSize && before[k].off + before[k].size <= blockSize
      requires var w := programs[|before|];
               w.off % progSize == 0 && w.size % progSize == 0 && 0 < w.size <= cacheSize && w.off + w.size <= blockSize
      ensures WholePrograms()
    {
      forall k | 0 <= k < |before| ensures programs[k] == before[k] {
        assert programs[..|before|][k] == programs[k];
      }
    }

    /** lfs_bd_flush: what is pending is on the device afterwards, and nothing else has changed. */
    method Flush(pcache: Cache, rcache: Cache, validate: bool) returns (ok: bool)
      requires Geometry() && pcache != rcache && Held(pcache) && WholePrograms()
      requires pcache.block.Some? ==> pcache.size > 0
      requires validate ==> Coherent(rcache)
      modifies this`blocks, this`programs, pcache, rcache
      ensures Geometry() && Held(pcache) && pcache.block == None && ok && WholePrograms()
      ensures validate || rcache.block == None ==> Coherent(rcache)
      ensures !validate ==>
                rcache.block == old(rcache.block) && rcache.off == old(rcache.off)
                && rcache.size == old(rcache.size) && rcache.buffer == old(rcache.buffer)
      ensures forall b :: 0 <= b < blockCount ==> blocks[b] == old(View(pcache, b))
    {
      hide Put, AlignUp, WholePrograms;
      if pcache.block.None? { return true; }
      ok := true;
      var data := ProgramPending(pcache);
      if validate { ok := Validate(rcache, pcache.block.value, pcache.off, data); }
      pcache.buffer, pcache.block := seq(cacheSize, _ => ERASED), None;
    }

    /** lfs_bd_sync: nothing is pending any more and the read cache holds nothing stale. */
    method Sync(pcache: Cache, rcache: Cache, validate: bool) returns (ok: bool)
      requires Geometry() && pcache != rcache && Held(pcache) && WholePrograms()
      requires pcache.block.Some? ==> pcache.size > 0
      modifies this`blocks, this`programs, pcache, rcache
      ensures Geometry() && Held(pcache) && pcache.block == None && ok && WholePrograms() && Coherent(rcache)
      ensures forall b :: 0 <= b < blockCount ==> blocks[b] == old(View(pcache, b))
    {
      rcache.Drop();
      ok := Flush(pcache, rcache, validate);
    }

    /** The next byte to program is byte `off` of `block`: behind what is pending, or a new unit. */
    predicate Next(p: Cache, block: nat, off: nat)
      reads this, p
    {
      && block < |blocks| && off <= |blocks[block]| && progSize > 0 && ErasedFrom(blocks[block], off)
      && (if p.block.None? then off % progSize == 0
         else p.block.value == block && off == p.off + p.size && 0 < p.size < cacheSize)
    }

    /**
     lfs_bd_prog: what a reader sees is the data written at its place, and the next program can
     follow it.
     */
    method Prog(pcache: Cache, rcache: Cache, validate: bool, block: nat, off: nat, data: Bytes) returns (ok: bool)
      requires Geometry() && pcache != rcache && Held(pcache) && WholePrograms() && (validate ==> Coherent(rcache))
      requires Next(pcache, block, off) && off + |data| <= blockSize
      modifies this`blocks, this`programs, pcache, rcache
      ensures ok && Geometry() && Held(pcache) && WholePrograms() && (validate ==> Coherent(rcache))
      ensures Next(pcache, block, off + |data|)
      ensures forall b :: 0 <= b < blockCount ==>
                View(pcache, b) == if b == block then Put(old(View(pcache, b)), off, data) else old(View(pcache, b))
    {
      hide Put, WholePrograms, View;
      ghost var was := View(pcache, block);
      var done := 0;
      PutNothing(was, off);
      while done < |data|
        invariant 0 <= done <= |data| && Geometry() && Held(pcache) && WholePrograms()
                  && (validate ==> Coherent(rcache))
        invariant Next(pcache, block, off + done)
        invariant View(pcache, block) == Put(was, off, data[..done])
        invariant forall b :: 0 <= b < blockCount && b != block ==> View(pcache, b) == old(View(pcache, b))
      {
        var n := ProgSome(pcache, rcache, validate, block, off + done, data[done..]);
        PutPut(was, off, data[..done], data[done..][..n]);
        assert data[..done] + data[done..][..n] == data[..done + n];
        done := done + n;
      }
      assert data[..|data|] == data;
      ok := true;
    }

    /** Programs `pieces` one behind the other and syncs: the device is as if they had gone straight to it. */
    method ProgAllAndSync(pcache: Cache, rcache: Cache, validate: bool, block: nat, off: nat, pieces: seq<Bytes>)
        returns (ok: bool)
      requires Geometry() && pcache != rcache && Held(pcache) && WholePrograms() && (validate ==> Coherent(rcache))
      requires Next(pcache, block, off) && off + |Flat(pieces)| <= blockSize
      modifies this`blocks, this`programs, pcache, rcache
      ensures ok && Geometry() && Held(pcache) && pcache.block == None && WholePrograms() && Coherent(rcache)
      ensures forall b :: 0 <= b < blockCount ==>
                blocks[b] == if b == block then Put(old(View(pcache, b)), off, Flat(pieces)) else old(View(pcache, b))
    {
      hide Put, WholePrograms, View;
      ghost var was := View(pcache, block);
      var done, at := 0, off;
      PutNothing(was, off);
      while done < |pieces|
        invariant 0 <= done <= |pieces| && at == off + |Flat(pieces[..done])|
        invariant Geometry() && Held(pcache) && WholePrograms() && (validate ==> Coherent(rcache))
                  && Next(pcache, block, at)
        invariant View(pcache, block) == Put(was, off, Flat(pieces[..done]))
        invariant forall b :: 0 <= b < blockCount && b != block ==> View(pcache, b) == old(View(pcache, b))
      {
        FlatNext(pieces, done);
        PutPut(was, off, Flat(pieces[..done]), pieces[done]);
        ok := Prog(pcache, rcache, validate, block, at, pieces[done]);
        at, done := at + |pieces[done]|, done + 1;
      }
      assert pieces[..|pieces|] == pieces;
      ok := Sync(pcache, rcache, validate);
    }

    /** With all sizes 256 every program is of exactly one aligned page. */
    lemma OnePageEach(k: nat)
      requires WholePrograms() && progSize == 256 && cacheSize == 256 && k < |programs|
      ensures programs[k].size == 256 && programs[k].off % 256 == 0
    {
      MultiplesApart(0, programs[k].size, 256);
    }

    /** One turn of the program loop, after preparing an empty cache. */
    method ProgSome(pcache: Cache, rcache: Cache, validate: bool, block: nat, off: nat, data: Bytes) returns (n: nat)
      requires Geometry() && pcache != rcache && Held(pcache) && WholePrograms() && (validate ==> Coherent(rcache))
      requires Next(pcache, block, off) && off + |data| <= blockSize && data != []
      modifies this`blocks, this`programs, pcache, rcache
      ensures Geometry() && Held(pcache) && WholePrograms() && (validate ==> Coherent(rcache))
      ensures 0 < n <= |data| && Next(pcache, block, off + n)
      ensures forall b :: 0 <= b < blockCount ==>
                View(pcache, b) == if b == block then Put(old(View(pcache, b)), off, data[..n])
                  else old(View(pcache, b))
    {
      hide Put, WholePrograms, View;
      Prepare(pcache, block, off);
      n := Copy(pcache, block, off, data);
      if pcache.size == cacheSize {
        ghost var view := View(pcache, block);
        FullUnit(pcache, block);
        var ok := Flush(pcache, rcache, validate);
        ViewOfEmpty(pcache);
      }
    }

    /** An empty cache is set up for the unit at `off`. */
    method Prepare(pcache: Cache, block: nat, off: nat)
      requires Geometry() && Held(pcache) && Next(pcache, block, off) && off < blockSize
      modifies pcache
      ensures Held(pcache) && pcache.block == Some(block) && pcache.off <= off == pcache.off + pcache.size
              && pcache.size < cacheSize
      ensures forall b :: 0 <= b < blockCount ==> View(pcache, b) == old(View(pcache, b))
    {
      if !(pcache.block == Some(block) && pcache.off <= off < pcache.off + cacheSize) {
        AlignedDown(off, progSize);
        pcache.block, pcache.off, pcache.size := Some(block), AlignDown(off, progSize), 0;
      }
    }

    /** As much as fits is copied behind what is pending. */
    method Copy(pcache: Cache, block: nat, off: nat, data: Bytes) returns (n: nat)
      requires Geometry() && Held(pcache) && pcache.block == Some(block) && off == pcache.off + pcache.size
               && pcache.size < cacheSize
      requires off + |data| <= blockSize && data != []
      modifies pcache
      ensures Held(pcache) && pcache.block == Some(block) && pcache.size == old(pcache.size) + n
              && pcache.off == old(pcache.off)
      ensures 0 < n <= |data| && pcache.size <= cacheSize
      ensures forall b :: 0 <= b < blockCount ==>
                View(pcache, b) == if b == block then Put(old(View(pcache, b)), off, data[..n])
                  else old(View(pcache, b))
    {
      hide Put;
      var at := off - pcache.off;
      n := if |data| <= cacheSize - at then |data| else cacheSize - at;
      PutPut(blocks[block], pcache.off, pcache.buffer[..pcache.size], data[..n]);
      CopiedInto(pcache.buffer, at, data[..n]);
      pcache.buffer := Put(pcache.buffer, at, data[..n]);
      pcache.size := Max(pcache.size, at + n);
    }

    lemma FullUnit(p: Cache, block: nat)
      requires Geometry() && Held(p) && p.block == Some(block) && p.size == cacheSize
      ensures (p.off + p.size) % progSize == 0 && ErasedFrom(View(p, block), p.off + p.size)
    {
      var a, c := p.off / progSize, cacheSize / progSize;
      assert p.off + p.size == progSize * (a + c);
      MultipleMod(progSize, a + c);
    }

    lemma ViewOfEmpty(p: Cache)
      requires Geometry() && Held(p) && p.block == None
      ensures forall b :: 0 <= b < blockCount ==> View(p, b) == blocks[b]
    {
    }

    /** Programs what is pending, filled up to whole units. */
    method ProgramPending(pcache: Cache) returns (data: Bytes)
      requires Geometry() && Held(pcache) && WholePrograms() && pcache.block.Some? && pcache.size > 0
      modifies this`blocks, this`programs
      ensures Geometry() && WholePrograms()
      ensures forall b :: 0 <= b < blockCount ==> blocks[b] == old(View(pcache, b))
      ensures pcache.off + |data| <= blockSize && blocks[pcache.block.value][pcache.off..pcache.off + |data|] == data
    {
      hide Put, AlignUp, Cleared;
      ghost var before := programs;
      CacheWhole();
      var b, off := pcache.block.value, pcache.off;
      var diff := AlignUp(pcache.size, progSize);
      UnitsFit(off, pcache.size);
      data := pcache.buffer[..diff];
      ClearedIsPut(blocks[b], off, data);
      PutInside(blocks[b], off, data, off, off + diff);
      PutPadding(blocks[b], off, data, pcache.size);
      assert data[..pcache.size] == pcache.buffer[..pcache.size];
      Program(b, off, data);
      StillWhole(before);
    }
  }
}
