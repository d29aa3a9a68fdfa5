/**
 Writing a file out of place (lfs_file_rawwrite, lfs_file_flushedwrite, lfs_file_flush,
 lfs_ctz_extend).

 A write never touches a block of the committed list. It copies the part of the last shared block
 it needs, appends fresh blocks, and on flush copies what is left of the old contents; only then
 does the file's head move to the new list.
 */
module CowFile {
  import opened Common
  import opened CtzIndex
  import opened CtzList
  import opened FileBlocks
  import opened TagWord

  /** The contents after writing `data` at `pos`: zero-filled if that is past the end. */
  function Overwritten(content: seq<bv8>, pos: nat, data: seq<bv8>): seq<bv8>
  {
    if pos > |content| then content + Zeros(pos - |content|) + data
    else content[..pos] + data + Behind(content, pos + |data|)
  }

  /** Byte by byte: the data where they are written, zeros in a gap in front of them, and elsewhere what was there. */
  lemma OverwrittenBytes(content: seq<bv8>, pos: nat, data: seq<bv8>)
    ensures var r := Overwritten(content, pos, data);
            && |r| == (if pos + |data| > |content| then pos + |data| else |content|)
            && forall k :: 0 <= k < |r| ==>
                 r[k] == if pos <= k < pos + |data| then data[k - pos] else if k < |content| then content[k] else 0
  {
  }

  function Zeros(n: nat): (r: seq<bv8>)
    ensures |r| == n
  {
    seq(n, _ => 0)
  }

  /** What `content` has from `pos` on. */
  function Behind(content: seq<bv8>, pos: nat): seq<bv8> { if pos < |content| then content[pos..] else [] }

  /** At most `n` bytes from the front. */
  function Prefix(s: seq<bv8>, n: nat): seq<bv8> { if n <= |s| then s[..n] else s }

  lemma SubSlice(s: seq<bv8>, lo: nat, hi: nat, from: nat, to: nat)
    requires lo <= from <= to <= hi <= |s|
    ensures s[from..to] == s[lo..hi][from - lo..to - lo]
  {
    var part := s[lo..hi];
    assert |part[from - lo..to - lo]| == to - from;
    forall k | 0 <= k < to - from ensures s[from..to][k] == part[from - lo..to - lo][k] {
      assert part[from - lo + k] == s[from + k];
    }
  }

  lemma NextSlice(s: seq<bv8>, a: nat, b: nat, c: nat)
    requires a <= b <= c <= |s|
    ensures s[a..b] + s[b..c] == s[a..c]
  {
  }

  lemma OneByte(front: seq<bv8>, content: seq<bv8>, p: nat)
    requires p < |content|
    ensures var data := Prefix(Behind(content, p), 1);
            |data| == 1 && front + data + Behind(content, p + 1) == front + Behind(content, p)
  {
  }

  /** LFS_FILE_MAX, the largest value of the configurable file size limit. */
  const FILE_MAX: nat := 0x7fff_ffff

  /** A sequential reader of a committed list, `off` bytes into `block`. */
  datatype Reader = Reader(reading: bool, block: Word, off: nat, pos: nat)

  /** A reader that has begun is inside the block it names. */
  ghost predicate Inside(blockSize: nat, chain: seq<Word>, r: Reader)
  {
    r.reading ==>
      exists j: nat :: j < |chain| && r.block == chain[j] && Header(j) <= r.off <= blockSize
                       && r.pos == FirstByte(blockSize, j) + r.off - Header(j)
  }

  lemma IdleReader(blockSize: nat, chain: seq<Word>, r: Reader)
    ensures r.reading || Inside(blockSize, chain, r)
  {
  }

  /** The part of a block the file's cache holds. */
  datatype Window = Window(off: nat, size: nat)

  /** Seeking inside a cached block keeps the block: the reader after it, if that applies. */
  function SeekShortcut(blockSize: nat, r: Reader, npos: nat, cache: Window): Option<Reader>
    requires blockSize >= 128
  {
    var i := IndexOf(blockSize, npos);
    var noff := npos - FirstByte(blockSize, i) + Header(i);
    if IndexOf(blockSize, r.pos) == i && cache.off <= noff < cache.off + cache.size
    then Some(r.(off := noff, pos := npos)) else None
  }

  /** A reader that has used up its block is left in it by a seek into the next one; no other is. */
  lemma SeekKeepsPlace(blockSize: nat, chain: seq<Word>, r: Reader, npos: nat, cache: Window)
    requires 128 <= blockSize && npos < LIMIT && r.pos < LIMIT
    requires r.reading && Inside(blockSize, chain, r) && SeekShortcut(blockSize, r, npos, cache).Some?
    requires forall i, j :: 0 <= i < j < |chain| ==> chain[i] != chain[j]
    ensures Inside(blockSize, chain, SeekShortcut(blockSize, r, npos, cache).value) <==> r.off != blockSize
  {
    hide IndexOf, FirstByte, Header;
    var j: nat :| j < |chain| && r.block == chain[j] && Header(j) <= r.off <= blockSize
                  && r.pos == FirstByte(blockSize, j) + r.off - Header(j);
    var i := IndexOf(blockSize, npos);
    IndexCorrect(blockSize, npos);
    IndexCorrect(blockSize, r.pos);
    NextFirst(blockSize, i);
    NextFirst(blockSize, j);
    if r.off < blockSize {
      IndexOrder(blockSize, r.pos, i, r.pos, j);
    } else {
      EndsBlock(blockSize, j);
      IndexOrder(blockSize, r.pos, i, r.pos, j + 1);
    }
  }

  /** The byte behind block `j` is in block `j + 1`. */
  lemma EndsBlock(blockSize: nat, j: nat)
    requires 128 <= blockSize && FirstByte(blockSize, j + 1) < LIMIT
    ensures FirstByte(blockSize, j + 1) < FirstByte(blockSize, j + 2)
  {
    hide FirstByte, Header;
    HeadersSmall(blockSize, j + 1);
    NextFirst(blockSize, j + 1);
  }

  /** Such a seek in a file of two blocks: 3840 bytes into the second block the reader is in the first. */
  lemma SeekGoesAstray(first: Word, second: Word)
    requires first != second
    ensures var r := Reader(true, first, 4096, 4096);
            var r' := Reader(true, first, 3840, 7932);
            && Inside(4096, [first, second], r) && SeekShortcut(4096, r, 7932, Window(3840, 256)) == Some(r')
            && !Inside(4096, [first, second], r')
  {
    var chain := [first, second];
    var r := Reader(true, first, 4096, 4096);
    assert FirstByte(4096, 0) == 0 && FirstByte(4096, 1) == 4096 && Header(0) == 0 && Header(1) == 4;
    assert Inside(4096, chain, r) by { assert chain[0] == first; }
    assert IndexOf(4096, 7932) == 1 && IndexOf(4096, 4096) == 1;
    SeekKeepsPlace(4096, chain, r, 7932, Window(3840, 256));
  }

  /** An open file whose contents are not kept inline, and the device it is on. */
  class File {
    const blockSize: nat
    const fileMax: nat
    const erased: bv8
    /** LFS_O_APPEND. */
    const append: bool
    var disk: Disk
    /** What the allocator will hand out, in order. */
    var free: seq<Word>

    // the committed list
    var head: Word
    var size: nat
    // the place in the list being read or written
    var pos: nat
    var block: Word
    var off: nat
    var reading: bool
    var writing: bool

    ghost var content: seq<bv8>
    ghost var chain: seq<Word>
    ghost var tailOff: nat
    ghost var written: seq<bv8>
    ghost var newChain: seq<Word>

    /** The committed head and size name a list that stores `content`. */
    ghost predicate Committed()
      reads this
    {
      && 128 <= blockSize && fileMax <= FILE_MAX && size == |content| <= fileMax
      && (content == [] ==> chain == [])
      && (content != [] ==>
            Stores(disk, blockSize, chain, tailOff, content)
            && head == chain[|chain| - 1] && tailOff > Header(|chain| - 1))
    }

    /** What the allocator can hand out is in no list. */
    ghost predicate Pool()
      reads this
    {
      && (forall i, j :: 0 <= i < j < |free| ==> free[i] != free[j])
      && (forall c :: c in free ==> c !in chain && c !in newChain)
    }

    /** The new list stores what has been written, and its last block belongs to no other list. */
    ghost predicate Growing()
      reads this
    {
      && Stores(disk, blockSize, newChain, off, written) && |written| == pos && off <= blockSize
      && block == newChain[|newChain| - 1] && block !in newChain[..|newChain| - 1] && block !in chain
    }

    /** A reader that has begun is inside the block it names. */
    ghost predicate CursorAt(r: Reader)
      reads this
    {
      Inside(blockSize, chain, r)
    }

    ghost predicate Consistent()
      reads this
    {
      && Committed() && Pool() && pos <= fileMax && !(reading && writing)
      && (reading ==> CursorAt(Reader(true, block, off, pos)))
      && (if writing then Growing() && off > Header(|newChain| - 1) else newChain == [])
    }

    /** Between operations; appending, the list being written already reaches behind the old end. */
    ghost predicate Valid()
      reads this
    {
      Consistent() && (append && writing ==> pos >= size)
    }

    /** What a reader of this handle sees. */
    ghost function Contents(): seq<bv8>
      reads this
    {
      if writing then written + Behind(content, |written|) else content
    }

    /** What the new list stores in front of the next byte. */
    ghost function Base(): seq<bv8>
      reads this
    {
      if writing then written else Prefix(content, pos)
    }

    /** The committed list, block for block, is as it was. */
    twostate predicate Untouched()
      reads this
    {
      && content == old(content) && chain == old(chain) && tailOff == old(tailOff)
      && head == old(head) && size == old(size)
      && forall c :: c in chain ==> At(disk, c) == At(old(disk), c)
    }

    /** The committed list ends in the block of its last byte. */
    lemma CommittedEnd()
      requires Committed() && content != []
      ensures |chain| > 0 && size - 1 >= FirstByte(blockSize, |chain| - 1)
      ensures size == FirstByte(blockSize, |chain| - 1) + tailOff - Header(|chain| - 1) && tailOff <= blockSize
    {
      hide FirstByte, Header;
      assert Held(disk, blockSize, chain, tailOff, content, |chain| - 1);
    }

    /** Where `lfs_ctz_index` puts a byte of the committed list. */
    lemma CommittedIndex(i: nat, last: nat, p: nat)
      requires Committed() && p < size
      requires FirstByte(blockSize, i) <= p < FirstByte(blockSize, i + 1)
      requires FirstByte(blockSize, last) <= size - 1 < FirstByte(blockSize, last + 1)
      ensures last == |chain| - 1 && i <= last
      ensures FirstByte(blockSize, i) + (if i == last then tailOff else blockSize) - Header(i) <= size
      ensures i == last ==> p - FirstByte(blockSize, i) + Header(i) < tailOff
    {
      hide FirstByte, Header, Stores;
      CommittedEnd();
      NextFirst(blockSize, |chain| - 1);
      IndexOrder(blockSize, size - 1, last, size - 1, |chain| - 1);
      IndexOrder(blockSize, p, i, size - 1, last);
      NextFirst(blockSize, i);
    }

    // -------------------------------------------------------------- reading

    /** The bytes of a list inside one of its blocks. */
    lemma BlockBytes(j: nat, from: nat, to: nat)
      requires Committed() && j < |chain| && content != []
      requires Header(j) <= from <= to <= blockSize
      requires FirstByte(blockSize, j) + to - Header(j) <= size
      ensures var p := FirstByte(blockSize, j) + from - Header(j);
              to <= |At(disk, chain[j])| && 0 <= p && At(disk, chain[j])[from..to] == content[p..p + to - from]
    {
      hide FirstByte, Header;
      CommittedEnd();
      assert Held(disk, blockSize, chain, tailOff, content, j);
      var b, first, h := At(disk, chain[j]), FirstByte(blockSize, j), Header(j);
      var upTo := if j == |chain| - 1 then tailOff else blockSize;
      SubSlice(b, h, upTo, from, to);
      SubSlice(content, first, first + upTo - h, first + from - h, first + to - h);
    }

    /** Finds the block of the byte at `p` in the committed list. */
    method Find(p: nat) returns (b: Word, inBlock: nat, ghost j: nat)
      requires Committed() && p < size
      ensures j < |chain| && b == chain[j] && Header(j) <= inBlock < blockSize
      ensures p == FirstByte(blockSize, j) + inBlock - Header(j)
      ensures j == |chain| - 1 ==> inBlock < tailOff
      ensures IndexOf(blockSize, p) < |chain| && b == chain[IndexOf(blockSize, p)]
    {
      hide FirstByte, Header, IndexOf;
      var current, _ := LfsCtzIndex(blockSize, size - 1);
      var target, o := LfsCtzIndex(blockSize, p);
      CommittedIndex(target, current, p);
      ghost var hops;
      b, hops := CtzFind(disk, chain, head, current, target);
      inBlock, j := o, target;
    }

    /** The next bytes of the block a reader is in, after finding a new block if it is used up. */
    method ReadSome(r: Reader, most: nat) returns (data: seq<bv8>, r': Reader)
      requires Committed() && CursorAt(r) && 0 < most && r.pos + most <= size
      ensures CursorAt(r') && r'.pos == r.pos + |data| && 0 < |data| <= most
      ensures data == content[r.pos..r.pos + |data|]
    {
      hide FirstByte, Header, Stores;
      r' := r;
      ghost var j: nat;
      if !r.reading || r.off == blockSize {
        var b, o;
        b, o, j := Find(r.pos);
        r' := Reader(true, b, o, r.pos);
      } else {
        j :| j < |chain| && r.block == chain[j] && Header(j) <= r.off <= blockSize
             && r.pos == FirstByte(blockSize, j) + r.off - Header(j);
      }
      var diff := if most <= blockSize - r'.off then most else blockSize - r'.off;
      BlockBytes(j, r'.off, r'.off + diff);
      data := At(disk, r'.block)[r'.off..r'.off + diff];
      r' := r'.(off := r'.off + diff, pos := r'.pos + diff);
    }

    /** Sequential reading: the bytes at the reader's place, up to the end of the committed list. */
    method FlushedRead(r: Reader, n: nat) returns (data: seq<bv8>, r': Reader)
      requires Committed() && CursorAt(r)
      ensures CursorAt(r') && r'.pos == r.pos + |data| && (r'.pos == r.pos || r'.pos <= size)
      ensures data == Prefix(Behind(content, r.pos), n)
    {
      hide Stores, CursorAt, Header, FirstByte;
      data, r' := [], r;
      if r.pos >= size { return; }
      var m := if n <= size - r.pos then n else size - r.pos;
      while |data| < m
        invariant |data| <= m && CursorAt(r') && r'.pos == r.pos + |data|
        invariant data == content[r.pos..r.pos + |data|]
      {
        var more;
        more, r' := ReadSome(r', m - |data|);
        NextSlice(content, r.pos, r.pos + |data|, r.pos + |data| + |more|);
        data := data + more;
      }
    }

    // -------------------------------------------------------------- writing

    /** Takes and erases a block, if there is one. */
    method Allocate() returns (x: Option<Word>)
      requires Consistent()
      modifies this`free, this`disk
      ensures Consistent() && Untouched()
      ensures x.None? ==> free == old(free) == [] && disk == old(disk)
      ensures x.Some? ==>
                x.value !in chain && x.value !in newChain && x.value !in free
                && At(disk, x.value) == seq(blockSize, _ => erased)
      ensures forall c :: c in newChain ==> At(disk, c) == At(old(disk), c)
    {
      hide FirstByte, Header, Stores;
      if free == [] { return None; }
      x := Some(free[0]);
      free, disk := free[1..], disk[free[0] := seq(blockSize, _ => erased)];
      Framed(old(disk));
    }

    /** What the lists hold does not depend on other blocks. */
    lemma Framed(was: Disk)
      requires forall c :: c in chain || c in newChain ==> At(disk, c) == At(was, c)
      ensures content != [] && Stores(was, blockSize, chain, tailOff, content) ==>
                Stores(disk, blockSize, chain, tailOff, content)
      ensures Stores(was, blockSize, newChain, off, written) ==> Stores(disk, blockSize, newChain, off, written)
    {
      CommittedFramed(was);
      if Stores(was, blockSize, newChain, off, written) { StoresFrame(was, disk, blockSize, newChain, off, written); }
    }

    lemma CommittedFramed(was: Disk)
      requires forall c :: c in chain ==> At(disk, c) == At(was, c)
      ensures content != [] && Stores(was, blockSize, chain, tailOff, content) ==>
                Stores(disk, blockSize, chain, tailOff, content)
    {
      if content != [] && Stores(was, blockSize, chain, tailOff, content) {
        StoresFrame(was, disk, blockSize, chain, tailOff, content);
      }
    }

    /** Puts a fresh block `x` behind, or instead of the last block of, the list `base` that stores `front`. */
    method Grow(x: Word, ghost base: seq<Word>, to: nat, ghost front: seq<bv8>, last: nat)
      requires 128 <= blockSize && |front| < FILE_MAX && Stores(disk, blockSize, base, to, front) && |base| == last + 1
      requires block == base[last] && to > Header(last) && x !in base && x !in base[..last]
      requires |At(disk, x)| == blockSize
      modifies this`disk, this`block, this`off, this`written, this`newChain
      ensures Stores(disk, blockSize, newChain, off, front) && written == front && off < blockSize
      ensures newChain == (if to == blockSize then base else base[..last]) + [x] && block == x
      ensures forall c :: c != x ==> At(disk, c) == At(old(disk), c)
    {
      hide FirstByte, Header, Stores, Linked;
      ghost var was := disk;
      BaseFits(base, to, front, last);
      if to != blockSize {
        var b := CopyFront(At(disk, block), At(disk, x), to);
        disk := disk[x := b];
        StoresCopy(was, disk, blockSize, base, to, front, x);
        off, newChain := to, base[..last] + [x];
      } else {
        var b := LinkBack(disk, base, block, last + 1, At(disk, x));
        disk := disk[x := b];
        NewLinked(disk, base, x);
        StoresAppend(was, disk, blockSize, base, front, x);
        off, newChain := 4 * (Ctz(last + 1) + 1), base + [x];
      }
      written, block := front, x;
    }

    lemma BaseFits(base: seq<Word>, to: nat, front: seq<bv8>, last: nat)
      requires 128 <= blockSize && |front| < FILE_MAX && Stores(disk, blockSize, base, to, front) && |base| == last + 1
               && to > Header(last)
      ensures SkipList(disk, base) && to <= blockSize == |At(disk, base[last])|
      ensures Header(last + 1) == 4 * (Ctz(last + 1) + 1) < blockSize
    {
      hide FirstByte, Linked;
      assert Held(disk, blockSize, base, to, front, last);
      HeadersSmall(blockSize, last);
    }

    lemma NewLinked(disk': Disk, base: seq<Word>, x: Word)
      requires |base| > 0
      requires forall k :: 0 <= k <= Ctz(|base|) ==>
                 Pow2(k) <= |base| && Pointer(At(disk', x), k) == base[|base| - Pow2(k)]
      ensures Linked(disk', base + [x], |base|)
    {
      hide Ctz, Pointer;
    }

    /** The list to extend: what is being written, or the committed one up to the byte before `pos`. */
    method Branch() returns (ghost base: seq<Word>, ghost to: nat)
      requires Consistent() && !reading && 0 < pos && (!writing ==> pos <= size) && (writing ==> off == blockSize)
      modifies this`block
      ensures Consistent() && Base() == old(Base())
      ensures |base| > 0 && block == base[|base| - 1] && to > Header(|base| - 1)
      ensures Stores(disk, blockSize, base, to, Base())
      ensures forall c :: c in base ==> c in chain || c in newChain
    {
      hide FirstByte, Header, Stores;
      base, to := newChain, off;
      if writing {
        NotEmpty(disk, blockSize, newChain, off, written);
      } else {
        ghost var j;
        var inBlock;
        block, inBlock, j := Find(pos - 1);
        base, to := chain[..j + 1], inBlock + 1;
        BaseStores(j, inBlock + 1);
      }
    }

    /** lfs_ctz_index finds the end of a list. */
    lemma EndIndex(base: seq<Word>, to: nat, front: seq<bv8>, i: nat, inBlock: nat)
      requires 128 <= blockSize && 0 < |front| <= FILE_MAX && |base| > 0 && to > Header(|base| - 1)
      requires Stores(disk, blockSize, base, to, front)
      requires FirstByte(blockSize, i) <= |front| - 1 < FirstByte(blockSize, i + 1)
      requires inBlock == |front| - 1 - FirstByte(blockSize, i) + Header(i)
      ensures i == |base| - 1 && inBlock + 1 == to
    {
      hide FirstByte, Header;
      var n := |base| - 1;
      assert Held(disk, blockSize, base, to, front, n);
      NextFirst(blockSize, n);
      IndexOrder(blockSize, |front| - 1, i, |front| - 1, n);
    }

    /** A fresh block `x` behind what there is. */
    method Continue(x: Word, ghost base: seq<Word>, ghost to: nat, ghost front: seq<bv8>)
      requires Committed() && Pool() && 0 < pos == |front| < fileMax && |At(disk, x)| == blockSize
      requires |base| > 0 && block == base[|base| - 1] && to > Header(|base| - 1)
               && Stores(disk, blockSize, base, to, front)
      requires x !in chain && x !in base && x !in free && forall c :: c in free ==> c !in base
      modifies this`disk, this`block, this`off, this`written, this`newChain
      ensures Untouched() && Committed() && Pool() && Growing() && off < blockSize && written == front
    {
      hide FirstByte, Header, Stores;
      var last, noff := LfsCtzIndex(blockSize, pos - 1);
      EndIndex(base, to, front, last, noff);
      ghost var was := disk;
      Grow(x, base, noff + 1, front, last);
      CommittedFramed(was);
    }

    /** A fresh block `x` for the start of the file. */
    method Start(x: Word)
      requires Committed() && Pool() && pos == 0 && |At(disk, x)| == blockSize && x !in chain && x !in free
      modifies this`block, this`off, this`written, this`newChain
      ensures Committed() && Pool() && Growing() && off < blockSize && written == []
    {
      StoresNothing(disk, blockSize, x);
      block, off, newChain, written := x, 0, [x], [];
    }

    /** A block taken while `base`, which consists of blocks in use, is to be extended. */
    method AllocateBehind(ghost base: seq<Word>, ghost to: nat, ghost front: seq<bv8>) returns (x: Option<Word>)
      requires Consistent() && Stores(disk, blockSize, base, to, front)
      requires forall c :: c in base ==> c in chain || c in newChain
      modifies this`free, this`disk
      ensures Consistent() && Untouched()
      ensures x.None? ==> free == []
      ensures x.Some? ==> x.value !in chain && x.value !in free && |At(disk, x.value)| == blockSize
      ensures x.Some? ==>
                x.value !in base && (forall c :: c in free ==> c !in base) && Stores(disk, blockSize, base, to, front)
    {
      hide FirstByte, Header, Stores;
      ghost var was := disk;
      x := Allocate();
      StoresFrame(was, disk, blockSize, base, to, front);
    }

    /** Room for a later byte. */
    method ExtendBehind() returns (ok: bool)
      requires Consistent() && !reading && 0 < pos < fileMax && (!writing ==> pos <= size)
               && (writing ==> off == blockSize)
      modifies this`disk, this`free, this`block, this`off, this`written, this`newChain
      ensures Untouched()
      ensures !ok ==> free == [] && Consistent() && Contents() == old(Contents())
      ensures ok ==> Committed() && Pool() && Growing() && off < blockSize && written == old(Base())
    {
      hide FirstByte, Header, Stores, Overwritten;
      ghost var front := Base();
      ghost var base, to := Branch();
      var x := AllocateBehind(base, to, front);
      if x.None? { return false; }
      Continue(x.value, base, to, front);
      return true;
    }

    /** Makes room for the next byte: lfs_ctz_find when writing begins, then lfs_ctz_extend. */
    method Extend() returns (ok: bool)
      requires Consistent() && !reading && (!writing ==> pos <= size) && (writing ==> off == blockSize) && pos < fileMax
      modifies this
      ensures Untouched() && pos == old(pos) && reading == old(reading)
      ensures !ok ==> free == [] && Consistent() && writing == old(writing) && Contents() == old(Contents())
      ensures ok ==> Committed() && Pool() && Growing() && writing && off < blockSize && written == old(Base())
    {
      hide FirstByte, Header, Stores;
      if pos == 0 {
        var x := Allocate();
        if x.None? { return false; }
        Start(x.value);
      } else {
        ok := ExtendBehind();
        if !ok { return; }
      }
      writing := true;
      return true;
    }

    lemma BaseStores(j: nat, to: nat)
      requires Committed() && j < |chain| && content != [] && pos <= size
      requires Header(j) < to <= (if j == |chain| - 1 then tailOff else blockSize)
      requires pos == FirstByte(blockSize, j) + to - Header(j)
      ensures Stores(disk, blockSize, chain[..j + 1], to, content[..pos])
    {
      hide FirstByte, Header, Stores;
      StoresPrefix(disk, blockSize, chain, tailOff, content, j, to);
    }

    /** Programs `data` behind what the current block holds. */
    method Program(data: seq<bv8>)
      requires Committed() && Pool() && Growing() && writing && !reading && data != []
      requires off + |data| <= blockSize && pos + |data| <= fileMax
      modifies this`disk, this`off, this`pos, this`written
      ensures Consistent() && Untouched() && written == old(written) + data && pos == old(pos) + |data|
      ensures off == old(off) + |data|
    {
      hide FirstByte, Header, Stores;
      var b := At(disk, block);
      LastHeld(disk, blockSize, newChain, off, written);
      var b' := b[..off] + data + b[off + |data|..];
      assert b'[off..off + |data|] == data && b'[..off] == b[..off];
      StoresMore(disk, blockSize, newChain, off, written, b', data);
      ghost var was := disk;
      disk := disk[block := b'];
      CommittedFramed(was);
      off, pos, written := off + |data|, pos + |data|, written + data;
    }

    /** Writes as much as fits in one block, which may have to be a new one. */
    method WriteSome(data: seq<bv8>) returns (ok: bool, diff: nat)
      requires Consistent() && !reading && (!writing ==> pos <= size) && data != [] && pos + |data| <= fileMax
      modifies this
      ensures Consistent() && !reading && Untouched()
      ensures !ok ==> free == [] && pos == old(pos) && (!writing ==> pos <= size)
      ensures ok ==> writing && 0 < diff <= |data| && pos == old(pos) + diff && written == old(Base()) + data[..diff]
    {
      hide Stores, Linked, FirstByte, Header, SkipList;
      if !writing || off == blockSize {
        ok := Extend();
        if !ok { return false, 0; }
      }
      diff := if |data| <= blockSize - off then |data| else blockSize - off;
      Program(data[..diff]);
      ok := true;
    }

    /** Sequential writing at `pos`, at most at the end of the file. */
    method FlushedWrite(data: seq<bv8>) returns (ok: bool)
      requires Consistent() && !reading && (!writing ==> pos <= size) && pos + |data| <= fileMax
      modifies this
      ensures Consistent() && !reading && Untouched()
      ensures ok ==> pos == old(pos) + |data| && Base() == old(Base()) + data && writing == (old(writing) || data != [])
      ensures !ok ==> free == [] && (!writing ==> pos <= size) && pos >= old(pos)
    {
      hide Stores, Linked, FirstByte, Header, SkipList, Committed, Growing, Pool;
      var done := 0;
      while done < |data|
        invariant 0 <= done <= |data| && Consistent() && !reading && Untouched() && pos == old(pos) + done
        invariant !writing ==> pos <= size
        invariant Base() == old(Base()) + data[..done] && writing == (old(writing) || done > 0)
      {
        var diff;
        ok, diff := WriteSome(data[done..]);
        if !ok { return; }
        assert data[..done] + data[done..][..diff] == data[..done + diff];
        done := done + diff;
      }
      ok := true;
    }

    /** Copies the committed byte at `pos` to the new list. */
    method CopyByte(orig: Reader) returns (ok: bool, orig': Reader)
      requires Consistent() && writing && orig.pos == pos < size && CursorAt(orig)
      modifies this
      ensures Consistent() && !reading && Untouched() && CursorAt(orig')
      ensures !ok ==> free == []
      ensures ok ==> writing && pos == old(pos) + 1 == orig'.pos
      ensures ok ==> written + Behind(content, pos) == old(written + Behind(content, pos))
    {
      hide Stores, FirstByte, Header, Inside, Prefix, Behind;
      var data;
      data, orig' := FlushedRead(orig, 1);
      OneByte(written, content, pos);
      ok := FlushedWrite(data);
    }

    /** lfs_file_flush: what lies behind is copied a byte at a time, then the head moves. */
    method Flush() returns (ok: bool)
      requires Valid()
      modifies this
      ensures Valid() && !reading
      ensures ok ==> content == old(Contents()) && !writing && pos == old(pos)
      ensures !ok ==> free == [] && Untouched()
      ensures forall c :: c in old(chain) ==> At(disk, c) == At(old(disk), c)
    {
      hide Stores, Linked, FirstByte, Header, SkipList;
      reading := false;
      if writing {
        var p := pos;
        var orig := Reader(false, block, off, pos);
        while pos < size
          invariant Consistent() && writing && !reading && Untouched() && orig.pos == pos && CursorAt(orig)
          invariant p <= pos
          invariant written + Behind(content, pos) == old(Contents())
          decreases size - pos
        {
          ok, orig := CopyByte(orig);
          if !ok { return; }
        }
        FinishFlush(p);
      }
      ok := true;
    }

    /** The head moves to the new list. */
    method FinishFlush(p: nat)
      requires Consistent() && writing && pos >= size && p <= pos
      modifies this
      ensures Consistent() && !reading && !writing && content == old(written) && chain == old(newChain)
      ensures disk == old(disk) && pos == p
    {
      hide Stores, FirstByte, Header;
      NotAtStart();
      head, size := block, pos;
      writing, reading := false, false;
      pos := p;
      content, chain, tailOff, newChain := written, newChain, off, [];
    }

    lemma NotAtStart()
      requires Consistent() && writing
      ensures written != []
    {
      hide FirstByte, Header;
      assert Held(disk, blockSize, newChain, off, written, |newChain| - 1);
    }

    // -------------------------------------------------------------- the operations

    /** Zeros from the end of the file up to `to`. */
    method FillZeros(to: nat) returns (ok: bool)
      requires Consistent() && !reading && !writing && size < to <= fileMax
      modifies this
      ensures Consistent() && !reading && Untouched()
      ensures ok ==> pos == to && writing && Base() == old(content) + Zeros(to - old(size))
      ensures !ok ==> free == [] && pos >= size
    {
      hide Stores, Linked, FirstByte, Header, SkipList;
      pos := size;
      while pos < to
        invariant Consistent() && !reading && Untouched() && size <= pos <= to
        invariant writing == (pos > size) && Base() == content + Zeros(pos - size)
      {
        ghost var n := pos - size;
        ok := FlushedWrite([0]);
        if !ok { return; }
        assert Zeros(n + 1) == Zeros(n) + [0];
      }
      ok := true;
    }

    /** Where a write goes. */
    function WritePos(): nat
      reads this
    {
      if append && pos < size then size else pos
    }

    /**
     lfs_file_rawwrite. What a reader sees becomes the old contents with `data` at the position;
     the committed list keeps every byte, also when the device is full.
     */
    method Write(data: seq<bv8>) returns (r: Result<nat>)
      requires Valid() && |data| <= FILE_MAX
      modifies this
      ensures Valid() && Untouched()
      ensures r == Err(FBig) <==> old(WritePos()) + |data| > fileMax
      ensures r.Ok? ==> r.value == |data| && pos == old(WritePos()) + |data|
      ensures r.Ok? ==> Contents() == Overwritten(old(Contents()), old(WritePos()), data)
      ensures r.Err? ==> r == Err(FBig) || (r == Err(NoSpc) && free == [])
    {
      hide Stores, Linked, FirstByte, Header, SkipList, Overwritten, Inside;
      reading := false;
      pos := WritePos();
      if pos + |data| > fileMax { return Err(FBig); }
      var ok := WriteHere(data);
      if ok { return Ok(|data|); } else { return Err(NoSpc); }
    }

    /** The write itself, after zeros up to its place. */
    method WriteHere(data: seq<bv8>) returns (ok: bool)
      requires Consistent() && !reading && pos + |data| <= fileMax
      modifies this
      ensures Consistent() && Untouched()
      ensures append && old(pos) >= size ==> pos >= size
      ensures ok ==> pos == old(pos) + |data| && Contents() == Overwritten(old(Contents()), old(pos), data)
      ensures !ok ==> free == []
    {
      hide Stores, Linked, FirstByte, Header, SkipList, Overwritten, Inside;
      ghost var at, was := pos, Contents();
      if !writing && pos > size {
        ok := FillZeros(pos);
        if !ok { return; }
      }
      ghost var front := Base();
      ok := FlushedWrite(data);
      if ok { WriteResult(content, was, at, front, data); }
    }

    /** lfs_file_rawread: a list being written is flushed first. */
    method Read(n: nat) returns (r: Result<seq<bv8>>)
      requires Valid()
      modifies this
      ensures Valid()
      ensures r.Ok? ==> r.value == Prefix(Behind(old(Contents()), old(pos)), n) && pos == old(pos) + |r.value|
      ensures r.Ok? ==> Contents() == old(Contents())
      ensures r.Err? ==> r == Err(NoSpc) && free == [] && Untouched()
      ensures forall c :: c in old(chain) ==> At(disk, c) == At(old(disk), c)
    {
      hide Stores, Linked, FirstByte, Header, SkipList, Inside, Prefix, Behind;
      if writing {
        var ok := Flush();
        if !ok { return Err(NoSpc); }
      }
      var r0 := Reader(reading, block, off, pos);
      IdleReader(blockSize, chain, r0);
      var data, at := FlushedRead(r0, n);
      assert at == Reader(at.reading, at.block, at.off, at.pos);
      reading, block, off, pos := at.reading, at.block, at.off, at.pos;
      return Ok(data);
    }

    /** A reader at the end of its block, which a seek inside the cache leaves there. */
    predicate Strays(npos: nat, cache: Window)
      requires 128 <= blockSize
      reads this
    {
      reading && off == blockSize && SeekShortcut(blockSize, Reader(true, block, off, pos), npos, cache).Some?
    }

    /**
     lfs_file_rawseek to an absolute position, `cache` being what the file's cache holds of a block.
     The handle stays usable unless its reader had used up a block and the shortcut keeps it there.
     */
    method Seek(npos: nat, cache: Window) returns (r: Result<nat>)
      requires Valid()
      modifies this
      ensures r == Err(Inval) <==> npos > fileMax
      ensures r.Ok? ==> r.value == pos == npos && Contents() == old(Contents())
      ensures r.Ok? && !old(Strays(npos, cache)) ==> Valid()
      ensures r.Err? ==> Valid() && Untouched() && (r == Err(Inval) || (r == Err(NoSpc) && free == []))
      ensures forall c :: c in old(chain) ==> At(disk, c) == At(old(disk), c)
    {
      hide Stores, Linked, FirstByte, Header, SkipList, Growing, IndexOf;
      if npos > fileMax { return Err(Inval); }
      if pos == npos { return Ok(npos); }
      if !writing {
        ghost var was := Reader(reading, block, off, pos);
        var oindex, _ := LfsCtzIndex(blockSize, pos);
        var nindex, noff := LfsCtzIndex(blockSize, npos);
        if oindex == nindex && cache.off <= noff < cache.off + cache.size {
          if was.reading && was.off < blockSize { ShortcutStays(was, npos, cache); }
          pos, off := npos, noff;
          return Ok(npos);
        }
      }
      var ok := Flush();
      if !ok { return Err(NoSpc); }
      pos := npos;
      return Ok(npos);
    }

    lemma ShortcutStays(r: Reader, npos: nat, cache: Window)
      requires 128 <= blockSize && npos < LIMIT && r.pos < LIMIT && r.reading && r.off < blockSize
      requires CursorAt(r) && SeekShortcut(blockSize, r, npos, cache).Some?
      ensures CursorAt(SeekShortcut(blockSize, r, npos, cache).value)
    {
      hide IndexOf, FirstByte, Header;
      var j: nat :| j < |chain| && r.block == chain[j] && Header(j) <= r.off <= blockSize
                    && r.pos == FirstByte(blockSize, j) + r.off - Header(j);
      var i := IndexOf(blockSize, npos);
      IndexCorrect(blockSize, npos);
      IndexCorrect(blockSize, r.pos);
      NextFirst(blockSize, j);
      NextFirst(blockSize, i);
      IndexOrder(blockSize, r.pos, i, r.pos, j);
    }

    /** A write at a place of a file nobody is writing, and the sync after it. */
    method WriteAndSync(data: seq<bv8>) returns (r: Result<nat>)
      requires Valid() && !writing && |data| <= FILE_MAX
      modifies this
      ensures Valid()
      ensures r.Ok? ==> content == Overwritten(old(content), old(WritePos()), data) && !writing
      ensures r.Err? ==> Untouched()
      ensures forall c :: c in old(chain) ==> At(disk, c) == At(old(disk), c)
    {
      hide Stores, Linked, FirstByte, Header, SkipList, Committed, Growing, Pool, CursorAt, Overwritten;
      r := Write(data);
      if r.Ok? {
        var ok := Flush();
        if !ok { r := Err(NoSpc); }
      }
    }
  }

  /** A list that stores the front and the data is seen with the rest of the old contents behind it. */
  lemma WriteResult(content: seq<bv8>, was: seq<bv8>, at: nat, front: seq<bv8>, data: seq<bv8>)
    requires |front| == at
    requires was == front + Behind(content, at)
             || (at > |content| && was == content && front == content + Zeros(at - |content|))
    ensures Overwritten(was, at, data) == front + data + Behind(content, at + |data|)
  {
  }
}
