/** What a list of blocks stores, and how cutting, copying and extending it changes that. */
module FileBlocks {
  import opened Arith
  import opened Commit
  import opened Crc32
  import opened CtzIndex
  import opened CtzList
  import opened TagWord

  // ---------------------------------------------------------------- what a list of blocks stores

  /** Bytes of block `j` up to `upTo` are the file's bytes at their place. */
  predicate BlockHolds(b: seq<bv8>, blockSize: nat, j: nat, upTo: nat, content: seq<bv8>)
  {
    && |b| == blockSize && Header(j) <= upTo <= blockSize
    && 0 <= FirstByte(blockSize, j) && FirstByte(blockSize, j) + upTo - Header(j) <= |content|
    && b[Header(j)..upTo] == content[FirstByte(blockSize, j)..FirstByte(blockSize, j) + upTo - Header(j)]
  }

  /** Block `j` of `chain` holds its part of the file; the last one is filled up to `off`. */
  predicate Held(disk: Disk, blockSize: nat, chain: seq<Word>, off: nat, content: seq<bv8>, j: nat)
    requires j < |chain|
  {
    BlockHolds(At(disk, chain[j]), blockSize, j, if j == |chain| - 1 then off else blockSize, content)
  }

  /** `chain` stores `content`, the last block being filled up to `off`. */
  ghost predicate Stores(disk: Disk, blockSize: nat, chain: seq<Word>, off: nat, content: seq<bv8>)
  {
    && SkipList(disk, chain)
    && |content| == FirstByte(blockSize, |chain| - 1) + off - Header(|chain| - 1)
    && forall j :: 0 <= j < |chain| ==> Held(disk, blockSize, chain, off, content, j)
  }

  lemma NotEmpty(disk: Disk, blockSize: nat, chain: seq<Word>, off: nat, content: seq<bv8>)
    requires Stores(disk, blockSize, chain, off, content)
    ensures |chain| > 0
  {
  }

  lemma LastHeld(disk: Disk, blockSize: nat, chain: seq<Word>, off: nat, content: seq<bv8>)
    requires Stores(disk, blockSize, chain, off, content)
    ensures |chain| > 0 && |At(disk, chain[|chain| - 1])| == blockSize && Header(|chain| - 1) <= off <= blockSize
  {
    hide FirstByte, Header;
    assert Held(disk, blockSize, chain, off, content, |chain| - 1);
  }

  /** Nothing that `chain` stores depends on any other block. */
  lemma StoresFrame(disk: Disk, disk': Disk, blockSize: nat, chain: seq<Word>, off: nat, content: seq<bv8>)
    requires Stores(disk, blockSize, chain, off, content)
    requires forall c :: c in chain ==> At(disk', c) == At(disk, c)
    ensures Stores(disk', blockSize, chain, off, content)
  {
    hide FirstByte, Header, Ctz, Pow2, BlockHolds;
    forall n | 0 <= n < |chain| ensures Linked(disk', chain, n) {
      assert Linked(disk, chain, n);
      LinkedFrame(disk, disk', chain, n);
    }
    forall j | 0 <= j < |chain| ensures Held(disk', blockSize, chain, off, content, j) {
      assert Held(disk, blockSize, chain, off, content, j);
    }
  }

  predicate SameUpTo(b: seq<bv8>, d: seq<bv8>, to: nat)
  {
    to <= |b| && to <= |d| && b[..to] == d[..to]
  }

  lemma SameFront(b: seq<bv8>, d: seq<bv8>, to: nat, k: nat)
    requires 4 * k + 4 <= to && SameUpTo(b, d, to)
    ensures Pointer(b, k) == Pointer(d, k)
  {
    hide LeWord;
    assert b[4 * k..4 * k + 4] == b[..to][4 * k..4 * k + 4] == d[..to][4 * k..4 * k + 4] == d[4 * k..4 * k + 4];
  }

  /** Programming more bytes behind what the last block holds. */
  lemma StoresMore(disk: Disk, blockSize: nat, chain: seq<Word>, off: nat, content: seq<bv8>, b: seq<bv8>,
                   data: seq<bv8>)
    requires Stores(disk, blockSize, chain, off, content) && chain[|chain| - 1] !in chain[..|chain| - 1]
    requires |b| == blockSize && off + |data| <= blockSize && SameUpTo(b, At(disk, chain[|chain| - 1]), off)
    requires b[off..off + |data|] == data
    ensures Stores(disk[chain[|chain| - 1] := b], blockSize, chain, off + |data|, content + data)
  {
    hide FirstByte, Header, BlockHolds, Linked;
    var n := |chain| - 1;
    var disk', off', content' := disk[chain[n] := b], off + |data|, content + data;
    assert At(disk', chain[n]) == b;
    assert Held(disk, blockSize, chain, off, content, n);
    forall j | 0 <= j < n ensures At(disk', chain[j]) == At(disk, chain[j]) {
      assert chain[j] in chain[..n];
    }
    forall j | 0 <= j < |chain| ensures Linked(disk', chain, j) {
      assert Linked(disk, chain, j);
      if j == n {
        PointersKept(disk, disk', blockSize, chain, off, content);
      } else {
        LinkedFrame(disk, disk', chain, j);
      }
    }
    forall j | 0 <= j < |chain| ensures Held(disk', blockSize, chain, off', content', j) {
      assert Held(disk, blockSize, chain, off, content, j);
      if j == n {
        MoreHeld(At(disk, chain[n]), b, blockSize, n, off, content, data);
      } else {
        HeldInMore(At(disk, chain[j]), blockSize, j, blockSize, content, data);
      }
    }
  }

  lemma LinkedFrame(disk: Disk, disk': Disk, chain: seq<Word>, n: nat)
    requires n < |chain| && Linked(disk, chain, n) && At(disk', chain[n]) == At(disk, chain[n])
    ensures Linked(disk', chain, n)
  {
    hide Pointer, Pow2, Ctz;
  }

  lemma PointersKept(disk: Disk, disk': Disk, blockSize: nat, chain: seq<Word>, off: nat, content: seq<bv8>)
    requires Stores(disk, blockSize, chain, off, content)
    requires var c := chain[|chain| - 1];
             |At(disk', c)| == blockSize && SameUpTo(At(disk', c), At(disk, c), off)
    ensures Linked(disk', chain, |chain| - 1)
  {
    hide FirstByte, Pow2, Pointer, Ctz;
    var n := |chain| - 1;
    assert Linked(disk, chain, n);
    assert Held(disk, blockSize, chain, off, content, n);
    forall k | 0 <= k && n > 0 && k <= Ctz(n)
      ensures Pow2(k) <= n && Pointer(At(disk', chain[n]), k) == chain[n - Pow2(k)]
    {
      SameFront(At(disk, chain[n]), At(disk', chain[n]), off, k);
    }
  }

  lemma HeldInMore(b: seq<bv8>, blockSize: nat, j: nat, upTo: nat, content: seq<bv8>, data: seq<bv8>)
    requires BlockHolds(b, blockSize, j, upTo, content)
    ensures BlockHolds(b, blockSize, j, upTo, content + data)
  {
    hide FirstByte, Header;
    var lo, hi := FirstByte(blockSize, j), FirstByte(blockSize, j) + upTo - Header(j);
    assert (content + data)[lo..hi] == content[lo..hi];
  }

  lemma MoreHeld(old': seq<bv8>, b: seq<bv8>, blockSize: nat, j: nat, off: nat, content: seq<bv8>, data: seq<bv8>)
    requires BlockHolds(old', blockSize, j, off, content) && |b| == blockSize && off + |data| <= blockSize
    requires |content| == FirstByte(blockSize, j) + off - Header(j)
    requires SameUpTo(b, old', off) && b[off..off + |data|] == data
    ensures BlockHolds(b, blockSize, j, off + |data|, content + data)
  {
    hide FirstByte, Header;
    var lo, h := FirstByte(blockSize, j), Header(j);
    assert b[h..off] == b[..off][h..] == old'[..off][h..] == old'[h..off];
    assert b[h..off + |data|] == b[h..off] + b[off..off + |data|];
    assert content[lo..] == content[lo..lo + off - h];
    assert (content + data)[lo..lo + off + |data| - h] == content[lo..] + data;
  }

  // ---------------------------------------------------------------- shortening and lengthening a list

  /** The first blocks of a list store the first bytes. */
  lemma StoresPrefix(disk: Disk, blockSize: nat, chain: seq<Word>, off: nat, content: seq<bv8>, n: nat, to: nat)
    requires Stores(disk, blockSize, chain, off, content) && n < |chain|
    requires Header(n) <= to <= (if n == |chain| - 1 then off else blockSize)
    ensures var size := FirstByte(blockSize, n) + to - Header(n);
            0 <= size <= |content| && Stores(disk, blockSize, chain[..n + 1], to, content[..size])
  {
    hide FirstByte, Header, Linked;
    var front := chain[..n + 1];
    var size := FirstByte(blockSize, n) + to - Header(n);
    assert Held(disk, blockSize, chain, off, content, n);
    forall j | 0 <= j < |front| ensures Linked(disk, front, j) {
      assert Linked(disk, chain, j);
      LinkedPrefix(disk, chain, front, j);
    }
    HeadersFit(disk, blockSize, chain, off, content);
    var part := content[..size];
    forall j | 0 <= j < |front| ensures Held(disk, blockSize, front, to, part, j) {
      assert Held(disk, blockSize, chain, off, content, j);
      if j < n {
        FirstByteMonotone(blockSize, j + 1, n);
        NextFirst(blockSize, j);
        HeldPrefix(At(disk, chain[j]), blockSize, j, blockSize, blockSize, content, size);
      } else {
        HeldPrefix(At(disk, chain[n]), blockSize, n, if n == |chain| - 1 then off else blockSize, to, content, size);
      }
    }
  }

  lemma NextFirst(blockSize: nat, j: nat)
    ensures FirstByte(blockSize, j + 1) == FirstByte(blockSize, j) + blockSize - Header(j)
  {
  }

  lemma HeadersFit(disk: Disk, blockSize: nat, chain: seq<Word>, off: nat, content: seq<bv8>)
    requires Stores(disk, blockSize, chain, off, content)
    ensures forall k: nat :: k < |chain| ==> Header(k) <= blockSize
  {
    hide FirstByte, Header, Linked;
    forall k: nat | k < |chain| ensures Header(k) <= blockSize {
      assert Held(disk, blockSize, chain, off, content, k);
    }
  }

  lemma LinkedPrefix(disk: Disk, chain: seq<Word>, front: seq<Word>, j: nat)
    requires j < |front| <= |chain| && front == chain[..|front|] && Linked(disk, chain, j)
    ensures Linked(disk, front, j)
  {
    hide Pointer, Ctz;
  }

  lemma HeldPrefix(b: seq<bv8>, blockSize: nat, j: nat, upTo: nat, to: nat, content: seq<bv8>, size: nat)
    requires BlockHolds(b, blockSize, j, upTo, content) && Header(j) <= to <= upTo
    requires FirstByte(blockSize, j) + to - Header(j) <= size <= |content|
    ensures BlockHolds(b, blockSize, j, to, content[..size])
  {
    hide FirstByte, Header;
    var lo, h := FirstByte(blockSize, j), Header(j);
    assert b[h..to] == b[h..upTo][..to - h];
    assert content[lo..lo + to - h] == content[lo..lo + upTo - h][..to - h];
    PrefixSlice(content, size, lo, lo + to - h);
  }

  lemma PrefixSlice(s: seq<bv8>, n: nat, lo: nat, hi: nat)
    requires lo <= hi <= n <= |s|
    ensures s[..n][lo..hi] == s[lo..hi]
  {
  }

  /** A list stays a list when its last block is replaced or a new one is put behind it. */
  lemma StoresSnoc(disk: Disk, blockSize: nat, front: seq<Word>, x: Word, off: nat, content: seq<bv8>)
    requires forall j :: 0 <= j < |front| ==> Linked(disk, front, j)
    requires forall j :: 0 <= j < |front| ==> BlockHolds(At(disk, front[j]), blockSize, j, blockSize, content)
    requires Linked(disk, front + [x], |front|) && BlockHolds(At(disk, x), blockSize, |front|, off, content)
    requires |content| == FirstByte(blockSize, |front|) + off - Header(|front|)
    ensures Stores(disk, blockSize, front + [x], off, content)
  {
    hide FirstByte, Header, BlockHolds, Linked;
    var chain := front + [x];
    forall j | 0 <= j < |chain| ensures Linked(disk, chain, j) {
      if j < |front| { LinkedExtended(disk, front, x, j); }
    }
    forall j | 0 <= j < |chain| ensures Held(disk, blockSize, chain, off, content, j) {
      if j < |front| { assert chain[j] == front[j]; }
    }
  }

  lemma LinkedExtended(disk: Disk, front: seq<Word>, x: Word, j: nat)
    requires j < |front| && Linked(disk, front, j)
    ensures Linked(disk, front + [x], j)
  {
    hide Pointer, Ctz;
  }

  /** Copying the filled part of the last block to block `x` gives a list that stores the same. */
  lemma StoresCopy(disk: Disk, disk': Disk, blockSize: nat, chain: seq<Word>, off: nat, content: seq<bv8>, x: Word)
    requires Stores(disk, blockSize, chain, off, content) && x !in chain
    requires forall c :: c in chain ==> At(disk', c) == At(disk, c)
    requires |At(disk', x)| == blockSize && SameUpTo(At(disk', x), At(disk, chain[|chain| - 1]), off)
    ensures Stores(disk', blockSize, chain[..|chain| - 1] + [x], off, content)
  {
    hide FirstByte, Header, BlockHolds, Linked;
    var n := |chain| - 1;
    var front := chain[..n];
    forall j | 0 <= j < n
      ensures Linked(disk', front, j) && BlockHolds(At(disk', front[j]), blockSize, j, blockSize, content)
    {
      assert chain[j] in chain && Linked(disk, chain, j) && Held(disk, blockSize, chain, off, content, j);
      LinkedFrame(disk, disk', chain, j);
      LinkedPrefix(disk', chain, front, j);
    }
    assert Linked(disk, chain, n) && Held(disk, blockSize, chain, off, content, n);
    CopiedBlock(disk, disk', blockSize, chain, off, content, x);
    StoresSnoc(disk', blockSize, front, x, off, content);
  }

  lemma CopiedBlock(disk: Disk, disk': Disk, blockSize: nat, chain: seq<Word>, off: nat, content: seq<bv8>, x: Word)
    requires |chain| > 0
    requires Linked(disk, chain, |chain| - 1)
             && BlockHolds(At(disk, chain[|chain| - 1]), blockSize, |chain| - 1, off, content)
    requires |At(disk', x)| == blockSize && SameUpTo(At(disk', x), At(disk, chain[|chain| - 1]), off)
    ensures Linked(disk', chain[..|chain| - 1] + [x], |chain| - 1)
    ensures BlockHolds(At(disk', x), blockSize, |chain| - 1, off, content)
  {
    hide FirstByte, Pow2, Pointer, Ctz;
    var n := |chain| - 1;
    var next := chain[..n] + [x];
    var b, d := At(disk, chain[n]), At(disk', x);
    forall k | 0 <= k && n > 0 && k <= Ctz(n)
      ensures Pow2(k) <= n && Pointer(At(disk', next[n]), k) == next[n - Pow2(k)]
    {
      SameFront(b, d, off, k);
      assert Pow2(k) > 0;
    }
    assert d[Header(n)..off] == d[..off][Header(n)..] == b[..off][Header(n)..] == b[Header(n)..off];
  }

  /** A block with the right pointers behind a full list continues it. */
  lemma StoresAppend(disk: Disk, disk': Disk, blockSize: nat, chain: seq<Word>, content: seq<bv8>, x: Word)
    requires Stores(disk, blockSize, chain, blockSize, content)
    requires forall c :: c in chain ==> At(disk', c) == At(disk, c)
    requires |At(disk', x)| == blockSize && Header(|chain|) <= blockSize
    requires Linked(disk', chain + [x], |chain|)
    ensures Stores(disk', blockSize, chain + [x], Header(|chain|), content)
  {
    hide FirstByte, Header, Linked;
    var n := |chain|;
    forall j | 0 <= j < n
      ensures Linked(disk', chain, j) && BlockHolds(At(disk', chain[j]), blockSize, j, blockSize, content)
    {
      assert chain[j] in chain && Linked(disk, chain, j) && Held(disk, blockSize, chain, blockSize, content, j);
      LinkedFrame(disk, disk', chain, j);
    }
    NextFirst(blockSize, n - 1);
    assert Held(disk, blockSize, chain, blockSize, content, n - 1);
    StoresSnoc(disk', blockSize, chain, x, Header(n), content);
  }

  /** A fresh block by itself stores nothing yet. */
  lemma StoresNothing(disk: Disk, blockSize: nat, x: Word)
    requires |At(disk, x)| == blockSize
    ensures Stores(disk, blockSize, [x], 0, [])
  {
    assert [] + [x] == [x] && FirstByte(blockSize, 0) == 0;
    StoresSnoc(disk, blockSize, [], x, 0, []);
  }

  /** Pointers fit in front of every block a file can have, and of the one behind it. */
  lemma HeadersSmall(blockSize: nat, n: nat)
    requires blockSize >= 128 && FirstByte(blockSize, n) < LIMIT
    ensures n < Pow2(26)
    ensures forall k: nat :: k <= n + 1 ==> Header(k) <= 108
  {
    hide FirstByte, PopCount, Pow2, Header;
    Pow2Of26();
    if n > 0 {
      FirstByteClosed(blockSize, n);
      MulMonotone(n, 120, blockSize - 8);
      assert (blockSize - 8) * n == n * (blockSize - 8);
    }
    forall k: nat | k <= n + 1 ensures Header(k) <= 108 { SmallHeader(k); }
  }

  lemma SmallHeader(k: nat)
    requires k <= Pow2(26)
    ensures Header(k) <= 108
  {
    hide Pow2, Ctz;
    PowerDoubles(26);
    if k > 0 { CtzBound(k, 27); }
  }

  /** Bytes further on are in the same block or a later one. */
  lemma IndexOrder(blockSize: nat, p: nat, i: nat, q: nat, j: nat)
    requires blockSize >= 128 && p <= q < LIMIT
    requires FirstByte(blockSize, i) <= p < FirstByte(blockSize, i + 1)
    requires FirstByte(blockSize, j) <= q < FirstByte(blockSize, j + 1)
    ensures i <= j && (p == q ==> i == j) && (i < j ==> FirstByte(blockSize, i + 1) <= FirstByte(blockSize, j))
  {
    hide FirstByte, Header, Pow2;
    HeadersSmall(blockSize, i);
    HeadersSmall(blockSize, j);
    if i > j { FirstByteMonotone(blockSize, j + 1, i); }
    if i < j { FirstByteMonotone(blockSize, i + 1, j); }
  }

  lemma {:induction false} CtzBound(n: nat, k: nat)
    requires 0 < n < Pow2(k)
    ensures Ctz(n) < k
    decreases k
  {
    if n % 2 == 0 { CtzBound(n / 2, k - 1); }
  }

  // ---------------------------------------------------------------- pointers of a fresh block

  function PutPointer(b: seq<bv8>, k: nat, w: Word): (r: seq<bv8>)
    requires 4 * k + 4 <= |b|
    ensures |r| == |b|
  {
    b[..4 * k] + Le32(w.bits) + b[4 * k + 4..]
  }

  lemma PointerPut(b: seq<bv8>, k: nat, w: Word, j: nat)
    requires 4 * k + 4 <= |b| && j <= k
    ensures Pointer(PutPointer(b, k, w), j) == if j == k then w else Pointer(b, j)
  {
    hide LeWord, Le32;
    LeRoundTrip(w.bits);
    var d := PutPointer(b, k, w);
    if j == k {
      assert d[4 * k..4 * k + 4] == Le32(w.bits);
    } else {
      assert d[4 * j..4 * j + 4] == b[4 * j..4 * j + 4];
    }
  }

  /**
   Fills in the pointers of new block `m` behind the list `chain`: each is read from the block the
   one before it points to.
   */
  method LinkBack(disk: Disk, ghost chain: seq<Word>, head: Word, m: nat, erased: seq<bv8>) returns (b: seq<bv8>)
    requires SkipList(disk, chain) && m == |chain| && head == chain[m - 1]
    requires Header(m) <= |erased|
    ensures |b| == |erased|
    ensures forall k :: 0 <= k <= Ctz(m) ==> Pow2(k) <= m && Pointer(b, k) == chain[m - Pow2(k)]
  {
    hide Pointer, Pow2, Ctz, PutPointer;
    b := erased;
    var nhead := head;
    var skips := Ctz(m) + 1;
    PowerZero();
    for i := 0 to skips
      invariant |b| == |erased|
      invariant i < skips ==> Pow2(i) <= m && nhead == chain[m - Pow2(i)]
      invariant forall k :: 0 <= k < i ==> Pow2(k) <= m && Pointer(b, k) == chain[m - Pow2(k)]
    {
      ghost var before := b;
      b := PutPointer(b, i, nhead);
      forall k | 0 <= k <= i ensures Pow2(k) <= m && Pointer(b, k) == chain[m - Pow2(k)] {
        PointerPut(before, i, nhead, k);
      }
      if i != skips - 1 {
        CtzBecomes(m, i);
        assert Linked(disk, chain, m - Pow2(i));
        PowerDoubles(i);
        PowerFits(m, i + 1);
        nhead := Pointer(At(disk, nhead), i);
      }
    }
  }

  lemma PowerZero()
    ensures Pow2(0) == 1
  {
  }

  lemma PowerDoubles(k: nat)
    ensures Pow2(k + 1) == 2 * Pow2(k)
  {
  }

  /** Copies the first `n` bytes of a block, one at a time. */
  method CopyFront(src: seq<bv8>, dst: seq<bv8>, n: nat) returns (b: seq<bv8>)
    requires n <= |src| && n <= |dst|
    ensures |b| == |dst| && SameUpTo(b, src, n)
  {
    b := dst;
    for i := 0 to n
      invariant |b| == |dst| && b[..i] == src[..i]
    {
      b := b[i := src[i]];
    }
  }
}
