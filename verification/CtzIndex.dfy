/**
 Offsets in a file's block list (lfs_ctz_index).

 Block 0 holds data only; block n > 0 starts with ctz(n)+1 pointers of four bytes. The index
 function inverts the resulting sum in constant time with a population count.
 */
module CtzIndex {
  import opened Arith

  /** Binary ones in `n` (lfs_popc). */
  function PopCount(n: nat): nat
  {
    if n == 0 then 0 else n % 2 + PopCount(n / 2)
  }

  /** Trailing binary zeros of `n` (lfs_ctz). */
  function Ctz(n: nat): nat
    requires n > 0
  {
    if n % 2 == 1 then 0 else 1 + Ctz(n / 2)
  }

  function Pow2(k: nat): (r: nat)
    ensures r > 0
  {
    if k == 0 then 1 else 2 * Pow2(k - 1)
  }

  /** Counting down by one clears the lowest one and sets the zeros below it. */
  lemma {:induction false} PopCountPred(n: nat)
    requires n > 0
    ensures PopCount(n - 1) + 1 == PopCount(n) + Ctz(n)
  {
    if n % 2 == 1 {
      assert (n - 1) / 2 == n / 2 && (n - 1) % 2 == 0;
    } else {
      PopCountPred(n / 2);
      assert (n - 1) / 2 == n / 2 - 1 && (n - 1) % 2 == 1;
    }
  }

  lemma {:induction false} PopCountBound(n: nat, k: nat)
    requires n < Pow2(k)
    ensures PopCount(n) <= k
    decreases k
  {
    if n > 0 { PopCountBound(n / 2, k - 1); }
  }

  // ---------------------------------------------------------------- the defining layout

  /** Pointer bytes in front of the data of block `n`. */
  function Header(n: nat): nat { if n == 0 then 0 else 4 * (Ctz(n) + 1) }

  /** File offset of the first data byte of block `n`. */
  function FirstByte(blockSize: nat, n: nat): int
  {
    if n == 0 then 0 else FirstByte(blockSize, n - 1) + blockSize - Header(n - 1)
  }

  /** The sum in closed form: 2n minus the ones of n pointers are spent on blocks 1 to n. */
  lemma {:induction false} FirstByteClosed(blockSize: nat, n: nat)
    requires n > 0
    ensures FirstByte(blockSize, n) == (blockSize - 8) * n + 8 + 4 * PopCount(n - 1)
  {
    if n == 1 {
      assert FirstByte(blockSize, 0) == 0;
    } else {
      FirstByteClosed(blockSize, n - 1);
      PopCountPred(n - 1);
      assert (blockSize - 8) * (n - 1) == (blockSize - 8) * n - (blockSize - 8);
    }
  }

  /** All pointers of blocks 1 to n together. */
  function Pointers(n: nat): nat
  {
    if n == 0 then 0 else Pointers(n - 1) + Ctz(n) + 1
  }

  lemma {:induction false} PointersClosed(n: nat)
    ensures Pointers(n) == 2 * n - PopCount(n)
  {
    if n > 0 {
      PointersClosed(n - 1);
      PopCountPred(n);
    }
  }

  // ---------------------------------------------------------------- the constant-time index

  const LIMIT: nat := 0x1_0000_0000

  /** Pointer bytes a first estimate of `e` blocks leaves out. */
  function Spent(e: nat): nat
    requires e > 0
  {
    4 * (PopCount(e - 1) + 2)
  }

  /** The corrected estimate. */
  function Second(blockSize: nat, off: nat, e: nat): nat
    requires blockSize >= 128 && e > 0
  {
    if off < Spent(e) then 0 else (off - Spent(e)) / (blockSize - 8)
  }

  /** The block an offset is in: first estimate without pointers, then corrected once. */
  function IndexOf(blockSize: nat, off: nat): nat
    requires blockSize >= 128
  {
    var e := off / (blockSize - 8);
    if e == 0 then 0 else Second(blockSize, off, e)
  }

  lemma DivBounds(n: nat, d: nat)
    requires d > 0
    ensures d * (n / d) <= n < d * (n / d) + d
  {
  }

  lemma DivIs(n: nat, d: nat, q: nat)
    requires d > 0 && d * q <= n < d * q + d
    ensures n / d == q
  {
    DivModUnique(n, d, q, n - d * q);
  }

  /** Every block number that can occur is below 2 to the 26, so it has at most 26 ones. */
  lemma EstimateBound(blockSize: nat, off: nat)
    requires blockSize >= 128 && off < LIMIT
    ensures off / (blockSize - 8) < Pow2(26)
  {
    var b := blockSize - 8;
    DivBounds(off, b);
    MulMonotone(off / b, 120, b);
    Pow2Of26();
  }

  lemma Pow2Of26()
    ensures Pow2(26) == 0x400_0000
  {
    assert Pow2(13) == 0x2000;
    Pow2Add(13, 13);
  }

  lemma {:induction false} Pow2Add(a: nat, b: nat)
    ensures Pow2(a + b) == Pow2(a) * Pow2(b)
  {
    if a > 0 {
      Pow2Add(a - 1, b);
      assert Pow2(a) * Pow2(b) == 2 * (Pow2(a - 1) * Pow2(b));
    }
  }

  /** One correction is enough: the estimate is the block itself or the one behind it. */
  lemma IndexCorrect(blockSize: nat, off: nat)
    requires blockSize >= 128 && off < LIMIT
    ensures var i := IndexOf(blockSize, off);
            FirstByte(blockSize, i) <= off < FirstByte(blockSize, i + 1)
  {
    hide PopCount, FirstByte, Pow2, Second, Spent;
    var e := off / (blockSize - 8);
    DivBounds(off, blockSize - 8);
    FirstBlock(blockSize);
    if e > 0 {
      EstimateBound(blockSize, off);
      Corrected(blockSize, off, e);
    }
  }

  lemma FirstBlock(blockSize: nat)
    ensures FirstByte(blockSize, 0) == 0 && FirstByte(blockSize, 1) == blockSize
  {
    assert FirstByte(blockSize, 0) == 0;
  }

  lemma Corrected(blockSize: nat, off: nat, e: nat)
    requires blockSize >= 128 && 0 < e < Pow2(26)
    requires var b := blockSize - 8; b * e <= off < b * e + b
    ensures off >= Spent(e)
    ensures var n := Second(blockSize, off, e); FirstByte(blockSize, n) <= off < FirstByte(blockSize, n + 1)
  {
    hide PopCount, FirstByte, Pow2;
    var b := blockSize - 8;
    var spent := Spent(e);
    PopCountBound(e - 1, 26);
    FirstByteClosed(blockSize, e);
    MulMonotone(b, 1, e);
    assert b * (e - 1) == b * e - b && b * (e + 1) == b * e + b;
    if off - spent >= b * e {
      DivIs(off - spent, b, e);
      FirstByteClosed(blockSize, e + 1);
      assert FirstByte(blockSize, e + 1) >= b * (e + 1);
    } else {
      DivIs(off - spent, b, e - 1);
      FirstBlock(blockSize);
      if e > 1 {
        FirstByteClosed(blockSize, e - 1);
        PopCountBound(e - 2, 26);
      }
    }
  }

  /**
   The in-place index: `*off` becomes the offset inside the block it returns. Every subtraction
   stays above zero, so nothing wraps in 32 bits.
   */
  method LfsCtzIndex(blockSize: nat, off: nat) returns (i: nat, inBlock: nat)
    requires 128 <= blockSize && off < LIMIT
    ensures i == IndexOf(blockSize, off)
    ensures FirstByte(blockSize, i) <= off < FirstByte(blockSize, i + 1)
    ensures inBlock == off - FirstByte(blockSize, i) + Header(i)
    ensures Header(i) <= inBlock < blockSize
  {
    hide PopCount, FirstByte, Pow2, Header;
    IndexCorrect(blockSize, off);
    var size := off;
    var b: nat := blockSize - 2 * 4;
    i := size / b;
    if i == 0 {
      FirstBlock(blockSize);
      NoHeader();
      return 0, size;
    }
    EstimateBound(blockSize, off);
    DivBounds(size, b);
    Corrected(blockSize, size, i);
    var left: nat := size - 4 * (PopCount(i - 1) + 2);
    i := left / b;
    InBlock(blockSize, off, i);
    inBlock := size - b * i - 4 * PopCount(i);
  }

  lemma NoHeader()
    ensures Header(0) == 0
  {
  }

  /** The closed form of the in-block offset. */
  lemma InBlock(blockSize: nat, off: nat, i: nat)
    requires blockSize >= 128
    requires FirstByte(blockSize, i) <= off < FirstByte(blockSize, i + 1)
    ensures off - (blockSize - 8) * i - 4 * PopCount(i) == off - FirstByte(blockSize, i) + Header(i)
    ensures Header(i) <= off - FirstByte(blockSize, i) + Header(i) < blockSize
  {
    assert FirstByte(blockSize, i + 1) == FirstByte(blockSize, i) + blockSize - Header(i);
    if i > 0 {
      FirstByteClosed(blockSize, i);
      PopCountPred(i);
    } else {
      assert FirstByte(blockSize, 0) == 0;
    }
  }

  lemma {:induction false} FirstByteMonotone(blockSize: nat, m: nat, n: nat)
    requires m <= n && (forall k: nat :: k < n ==> Header(k) <= blockSize)
    ensures FirstByte(blockSize, m) <= FirstByte(blockSize, n)
    decreases n - m
  {
    if m < n { FirstByteMonotone(blockSize, m, n - 1); }
  }

  /** No other block contains the offset. */
  lemma IndexUnique(blockSize: nat, off: nat, i: nat, j: nat)
    requires forall k: nat :: k <= i || k <= j ==> Header(k) <= blockSize
    requires FirstByte(blockSize, i) <= off < FirstByte(blockSize, i + 1)
    requires FirstByte(blockSize, j) <= off < FirstByte(blockSize, j + 1)
    ensures i == j
  {
    if i < j { FirstByteMonotone(blockSize, i + 1, j); }
    if j < i { FirstByteMonotone(blockSize, j + 1, i); }
  }
}
