/** The checksum of lfs_util.c: reflected CRC-32 computed four bits at a time from a small table. */
module Crc32 {

  const RTABLE: seq<bv32> := [
    0x00000000, 0x1db71064, 0x3b6e20c8, 0x26d930ac,
    0x76dc4190, 0x6b6b51f4, 0x4db26158, 0x5005713c,
    0xedb88320, 0xf00f9344, 0xd6d6a3e8, 0xcb61b38c,
    0x9b64c2b0, 0x86d3d2d4, 0xa00ae278, 0xbdbdf21c]

  /** The 32-bit running checksum. */
  datatype Register = Register(bits: bv32)

  // ---------------------------------------------------------------- bit by bit

  /** The polynomial of section 3.2.9 of IEEE 802.3, bits reversed. */
  function Polynomial(): Register { Register(0xedb88320) }

  function Xor(r: Register, s: Register): Register { Register(r.bits ^ s.bits) }

  function Half(r: Register): Register { Register(r.bits >> 1) }

  predicate Odd(r: Register) { r.bits & 1 == 1 }

  function OfByte(b: bv8): Register { Register(b as bv32) }

  /** One step of the shift register. */
  function Shift(r: Register): Register
  {
    if Odd(r) then Xor(Half(r), Polynomial()) else Half(r)
  }

  function Shifts(r: Register, n: nat): Register
    decreases n
  {
    if n == 0 then r else Shifts(Shift(r), n - 1)
  }

  const NIBBLE: nat := 4
  const BYTE: nat := 8

  /** The defining bit-serial checksum: mix a byte in, shift eight times. */
  function Crc(r: Register, data: seq<bv8>): Register
    decreases |data|
  {
    if data == [] then r else Crc(Shifts(Xor(r, OfByte(data[0])), BYTE), data[1..])
  }

  // ---------------------------------------------------------------- the register is linear

  lemma XorSwaps(x: Register, y: Register, q: Register)
    ensures Xor(Xor(x, q), y) == Xor(Xor(x, y), q)
  {
  }

  lemma XorAssociates(x: Register, y: Register, q: Register)
    ensures Xor(x, Xor(y, q)) == Xor(Xor(x, y), q)
  {
  }

  lemma XorTwice(x: Register, q: Register)
    ensures Xor(Xor(x, q), q) == x
  {
  }

  lemma XorCancels(x: Register, y: Register, q: Register)
    ensures Xor(Xor(x, q), Xor(y, q)) == Xor(x, y)
  {
    hide Xor;
    XorAssociates(Xor(x, q), y, q);
    XorSwaps(x, y, q);
    XorTwice(Xor(x, y), q);
  }

  lemma HalfXor(r: Register, s: Register)
    ensures Half(Xor(r, s)) == Xor(Half(r), Half(s))
    ensures Odd(Xor(r, s)) <==> Odd(r) != Odd(s)
  {
  }

  lemma ShiftLinear(r: Register, s: Register)
    ensures Shift(Xor(r, s)) == Xor(Shift(r), Shift(s))
  {
    hide Xor, Half, Odd, Polynomial;
    HalfXor(r, s);
    XorCancels(Half(r), Half(s), Polynomial());
    XorSwaps(Half(r), Half(s), Polynomial());
    XorAssociates(Half(r), Half(s), Polynomial());
  }

  lemma {:induction false} ShiftsLinear(r: Register, s: Register, n: nat)
    ensures Shifts(Xor(r, s), n) == Xor(Shifts(r, n), Shifts(s, n))
    decreases n
  {
    hide Shift, Xor;
    if n > 0 {
      ShiftLinear(r, s);
      ShiftsLinear(Shift(r), Shift(s), n - 1);
    }
  }

  lemma {:induction false} ShiftsAdd(r: Register, m: nat, n: nat)
    ensures Shifts(r, m + n) == Shifts(Shifts(r, m), n)
    decreases m
  {
    hide Shift;
    if m > 0 { ShiftsAdd(Shift(r), m - 1, n); }
  }

  lemma FourShifts(r: Register)
    ensures Shifts(r, NIBBLE) == Shift(Shift(Shift(Shift(r))))
  {
    hide Shift;
    var r1, r2, r3 := Shift(r), Shift(Shift(r)), Shift(Shift(Shift(r)));
    assert Shifts(r, NIBBLE) == Shifts(r1, NIBBLE - 1);
    assert Shifts(r1, NIBBLE - 1) == Shifts(r2, NIBBLE - 2);
    assert Shifts(r2, NIBBLE - 2) == Shifts(r3, NIBBLE - 3);
  }

  // ---------------------------------------------------------------- the table method

  function Move4(r: Register): Register { Register(r.bits >> 4) }

  function Low(r: Register): Register { Register(r.bits & 0xf) }

  function High(r: Register): Register { Register(r.bits & 0xffff_fff0) }

  function TableAt(c: bv32): bv32 { RTABLE[(c & 0xf) as int] }

  function Table(r: Register): Register { Register(TableAt(r.bits)) }

  /** What one statement of the loop body does: shift right by four, and mix in the table entry chosen by `x`. */
  function Nibble(r: Register, x: Register): Register { Xor(Move4(r), Table(Xor(r, x))) }

  lemma TableEntryLow(i: nat)
    requires i < 8
    ensures Register(RTABLE[i]) == Shift(Shift(Shift(Shift(Register(i as bv32)))))
  {
    if i == 0 {} else if i == 1 {} else if i == 2 {} else if i == 3 {}
    else if i == 4 {} else if i == 5 {} else if i == 6 {}
  }

  lemma TableEntryHigh(i: nat)
    requires 8 <= i < 16
    ensures Register(RTABLE[i]) == Shift(Shift(Shift(Shift(Register(i as bv32)))))
  {
    if i == 8 {} else if i == 9 {} else if i == 10 {} else if i == 11 {}
    else if i == 12 {} else if i == 13 {} else if i == 14 {}
  }

  lemma TableIndex(n: bv32)
    ensures ((n & 0xf) as int) as bv32 == n & 0xf
  {
  }

  /** The table holds four steps of every four-bit register. */
  lemma TableShifts(r: Register)
    ensures Table(r) == Shifts(Low(r), NIBBLE)
  {
    hide Shift, Shifts;
    var i := (r.bits & 0xf) as int;
    TableIndex(r.bits);
    FourShifts(Low(r));
    if i < 8 { TableEntryLow(i); } else { TableEntryHigh(i); }
  }

  lemma HalvesClear(r: Register)
    requires Low(r) == Register(0)
    ensures !Odd(r) && !Odd(Half(r)) && !Odd(Half(Half(r))) && !Odd(Half(Half(Half(r))))
  {
  }

  lemma FourHalves(r: Register)
    ensures Half(Half(Half(Half(r)))) == Move4(r)
  {
  }

  /** Four steps from a register whose low four bits are clear only move it. */
  lemma FourShiftsClear(r: Register)
    requires Low(r) == Register(0)
    ensures Shifts(r, NIBBLE) == Move4(r)
  {
    hide Shifts, Odd, Half, Move4, Low, Xor, Polynomial;
    HalvesClear(r);
    FourHalves(r);
    FourShifts(r);
  }

  lemma SumOfParts(r: Register)
    ensures r == Xor(High(r), Low(r))
  {
  }

  lemma HighPart(r: Register)
    ensures Low(High(r)) == Register(0)
  {
  }

  lemma HighMoves(r: Register)
    ensures Move4(High(r)) == Move4(r)
  {
  }

  /** The register splits into the part four steps only move and the part the table covers. */
  lemma Split4(r: Register)
    ensures Shifts(r, NIBBLE) == Xor(Move4(r), Table(r))
  {
    hide *;
    SumOfParts(r);
    HighPart(r);
    HighMoves(r);
    ShiftsLinear(High(r), Low(r), NIBBLE);
    FourShiftsClear(High(r));
    TableShifts(r);
  }

  lemma NibbleParts(r: Register, x: Register)
    ensures Move4(Xor(r, Low(x))) == Move4(r)
    ensures Low(Xor(r, Low(x))) == Low(Xor(r, x))
  {
  }

  lemma TableOfLow(r: Register, s: Register)
    requires Low(r) == Low(s)
    ensures Table(r) == Table(s)
  {
  }

  /** One table look-up does four steps of the shift register. */
  lemma NibbleStep(r: Register, x: Register)
    ensures Nibble(r, x) == Shifts(Xor(r, Low(x)), NIBBLE)
  {
    hide Shifts, Xor, Low, Move4, Table;
    NibbleParts(r, x);
    TableOfLow(Xor(r, Low(x)), Xor(r, x));
    Split4(Xor(r, Low(x)));
  }

  function SecondNibble(b: Register): Register { Register(b.bits & 0xf0) }

  lemma SumOfNibbles(b: Register)
    requires b.bits < 0x100
    ensures b == Xor(Low(b), SecondNibble(b))
  {
  }

  lemma SecondNibbleMoves(b: Register)
    ensures Low(SecondNibble(b)) == Register(0)
    ensures Move4(SecondNibble(b)) == Low(Move4(b))
  {
  }

  /** Two table look-ups do the eight steps one byte of input calls for. */
  lemma ByteStep(r: Register, b: Register)
    requires b.bits < 0x100
    ensures Nibble(Nibble(r, b), Move4(b)) == Shifts(Xor(r, b), BYTE)
  {
    hide Shifts, Xor, Low, Move4, Table, Nibble, SecondNibble;
    SumOfNibbles(b);
    XorAssociates(r, Low(b), SecondNibble(b));
    SecondNibbleMoves(b);
    NibbleStep(r, b);
    NibbleStep(Nibble(r, b), Move4(b));
    ShiftsLinear(Xor(r, Low(b)), SecondNibble(b), NIBBLE);
    FourShiftsClear(SecondNibble(b));
    ShiftsAdd(Xor(r, b), NIBBLE, NIBBLE);
  }

  /** The two-lookups-per-byte loop computes the bit-serial checksum. */
  method LfsCrc(crc: Register, buffer: seq<bv8>) returns (r: Register)
    ensures r == Crc(crc, buffer)
  {
    hide Crc, Nibble, Move4, OfByte;
    r := crc;
    for i := 0 to |buffer|
      invariant Crc(crc, buffer) == Crc(r, buffer[i..])
    {
      ghost var before := r;
      r := Nibble(r, OfByte(buffer[i]));
      r := Nibble(r, Move4(OfByte(buffer[i])));
      CrcFront(before, buffer[i..], r);
      assert buffer[i..][1..] == buffer[i + 1..];
    }
    CrcEmpty(r);
    assert buffer[|buffer|..] == [];
  }

  /** One byte by two table look-ups. */
  function ByteByTable(r: Register, b: bv8): Register { Nibble(Nibble(r, OfByte(b)), Move4(OfByte(b))) }

  lemma CrcByte(r: Register, data: seq<bv8>)
    requires data != []
    ensures Crc(r, data) == Crc(ByteByTable(r, data[0]), data[1..])
  {
    hide Nibble, Move4, Crc, OfByte;
    CrcFront(r, data, ByteByTable(r, data[0]));
  }

  /** The check value of CRC-32: the digits 1 to 9 give 0xcbf43926 after the final complement. */
  lemma CheckValue()
    ensures Crc(Register(0xffff_ffff), [0x31, 0x32, 0x33, 0x34, 0x35, 0x36, 0x37, 0x38, 0x39]) ==
            Register(0xcbf4_3926 ^ 0xffff_ffff)
  {
    hide Crc, ByteByTable;
    var d: seq<bv8> := [0x31, 0x32, 0x33, 0x34, 0x35, 0x36, 0x37, 0x38, 0x39];
    Digits();
    CrcByte(Register(0xffff_ffff), d);
    CrcByte(Register(0x7c23_1048), d[1..]);
    CrcByte(Register(0xb0ac_bb32), d[2..]);
    CrcByte(Register(0x77b7_9c2d), d[3..]);
    CrcByte(Register(0x641c_1f5c), d[4..]);
    CrcByte(Register(0x340a_c5e3), d[5..]);
    CrcByte(Register(0xf68d_2c9e), d[6..]);
    CrcByte(Register(0xaffc_9660), d[7..]);
    CrcByte(Register(0x651f_2550), d[8..]);
    CrcEmpty(Register(0x340b_c6d9));
    assert forall i :: 0 <= i < 9 ==> d[i..][1..] == d[i + 1..];
    assert d[9..] == [];
  }

  lemma Digits()
    ensures ByteByTable(Register(0xffff_ffff), 0x31) == Register(0x7c23_1048)
    ensures ByteByTable(Register(0x7c23_1048), 0x32) == Register(0xb0ac_bb32)
    ensures ByteByTable(Register(0xb0ac_bb32), 0x33) == Register(0x77b7_9c2d)
    ensures ByteByTable(Register(0x77b7_9c2d), 0x34) == Register(0x641c_1f5c)
    ensures ByteByTable(Register(0x641c_1f5c), 0x35) == Register(0x340a_c5e3)
    ensures ByteByTable(Register(0x340a_c5e3), 0x36) == Register(0xf68d_2c9e)
    ensures ByteByTable(Register(0xf68d_2c9e), 0x37) == Register(0xaffc_9660)
    ensures ByteByTable(Register(0xaffc_9660), 0x38) == Register(0x651f_2550)
    ensures ByteByTable(Register(0x651f_2550), 0x39) == Register(0x340b_c6d9)
  {
  }

  lemma CrcEmpty(r: Register)
    ensures Crc(r, []) == r
  {
  }

  lemma CrcFront(r: Register, data: seq<bv8>, next: Register)
    requires data != [] && next == Nibble(Nibble(r, OfByte(data[0])), Move4(OfByte(data[0])))
    ensures Crc(r, data) == Crc(next, data[1..])
  {
    assert OfByte(data[0]).bits < 0x100;
    hide Shifts, Xor, Move4, Nibble, OfByte;
    ByteStep(r, OfByte(data[0]));
  }

  // ---------------------------------------------------------------- properties callers rely on

  /** Checksumming in pieces gives the checksum of the whole. */
  lemma {:induction false} CrcConcat(r: Register, a: seq<bv8>, b: seq<bv8>)
    ensures Crc(r, a + b) == Crc(Crc(r, a), b)
    decreases |a|
  {
    hide Shifts, Xor, OfByte;
    if a == [] {
      assert a + b == b;
    } else {
      assert (a + b)[1..] == a[1..] + b;
      CrcConcat(Shifts(Xor(r, OfByte(a[0])), BYTE), a[1..], b);
    }
  }

  /** Reading eight bytes at a time, as lfs_bd_crc does, changes nothing. */
  method BdCrc(crc: Register, buffer: seq<bv8>) returns (r: Register)
    ensures r == Crc(crc, buffer)
  {
    r := crc;
    var i := 0;
    while i < |buffer|
      invariant 0 <= i <= |buffer|
      invariant r == Crc(crc, buffer[..i])
    {
      var diff := if |buffer| - i < 8 then |buffer| - i else 8;
      CrcConcat(crc, buffer[..i], buffer[i..i + diff]);
      assert buffer[..i] + buffer[i..i + diff] == buffer[..i + diff];
      r := LfsCrc(r, buffer[i..i + diff]);
      i := i + diff;
    }
    assert buffer[..i] == buffer;
  }

  function Le32(w: bv32): (r: seq<bv8>)
    ensures |r| == 4
  {
    [(w & 0xff) as bv8, ((w >> 8) & 0xff) as bv8, ((w >> 16) & 0xff) as bv8, ((w >> 24) & 0xff) as bv8]
  }

  function LowByte(r: Register): bv8 { (r.bits & 0xff) as bv8 }

  lemma OwnByteClears(r: Register)
    ensures Low(Xor(r, OfByte(LowByte(r)))) == Register(0)
    ensures Low(Move4(Xor(r, OfByte(LowByte(r))))) == Register(0)
  {
  }

  lemma OwnByteMoves(r: Register)
    ensures Move4(Move4(Xor(r, OfByte(LowByte(r))))) == Move8(r)
  {
  }

  function Move8(r: Register): Register { Register(r.bits >> 8) }

  /** Mixing in the low byte of the checksum itself only moves it. */
  lemma OwnByte(r: Register)
    ensures Shifts(Xor(r, OfByte(LowByte(r))), BYTE) == Move8(r)
  {
    hide Shifts, Xor, OfByte, LowByte, Low, Move4, Move8;
    var x := Xor(r, OfByte(LowByte(r)));
    OwnByteClears(r);
    OwnByteMoves(r);
    FourShiftsClear(x);
    FourShiftsClear(Move4(x));
    ShiftsAdd(x, NIBBLE, NIBBLE);
  }

  lemma LeAsLowBytes(c: bv32)
    ensures var r := Register(c);
            Le32(c) == [LowByte(r), LowByte(Move8(r)), LowByte(Move8(Move8(r))), LowByte(Move8(Move8(Move8(r))))]
  {
  }

  lemma FourMoves(r: Register)
    ensures Move8(Move8(Move8(Move8(r)))) == Register(0)
  {
  }

  /** A checksum followed by its own little-endian bytes leaves zero: the test every commit ends with. */
  lemma CrcOfItself(c: bv32)
    ensures Crc(Register(c), Le32(c)) == Register(0)
  {
    hide *;
    var r0 := Register(c);
    var r1 := Move8(r0);
    var r2 := Move8(r1);
    var r3 := Move8(r2);
    LeAsLowBytes(c);
    FourMoves(r0);
    OwnByte(r0);
    OwnByte(r1);
    OwnByte(r2);
    OwnByte(r3);
    FourBytes([LowByte(r0), LowByte(r1), LowByte(r2), LowByte(r3)], r0, r1, r2, r3, Register(0));
  }

  lemma FourBytes(b: seq<bv8>, r0: Register, r1: Register, r2: Register, r3: Register, r4: Register)
    requires |b| == 4
    requires Shifts(Xor(r0, OfByte(b[0])), BYTE) == r1 && Shifts(Xor(r1, OfByte(b[1])), BYTE) == r2
    requires Shifts(Xor(r2, OfByte(b[2])), BYTE) == r3 && Shifts(Xor(r3, OfByte(b[3])), BYTE) == r4
    ensures Crc(r0, b) == r4
  {
    hide Shifts, Xor, OfByte;
    assert Crc(r0, b) == Crc(r1, b[1..]);
    assert b[1..][0] == b[1] && b[1..][1..] == b[2..];
    assert Crc(r1, b[1..]) == Crc(r2, b[2..]);
    assert b[2..][0] == b[2] && b[2..][1..] == b[3..];
    assert Crc(r2, b[2..]) == Crc(r3, b[3..]);
    assert b[3..][0] == b[3] && b[3..][1..] == [];
  }

  lemma XorInjective(r: Register, s: Register, x: Register)
    requires Xor(r, x) == Xor(s, x)
    ensures r == s
  {
  }

  lemma ShiftInjective(r: Register, s: Register)
    requires Shift(r) == Shift(s)
    ensures r == s
  {
  }

  lemma {:induction false} ShiftsInjective(r: Register, s: Register, n: nat)
    requires Shifts(r, n) == Shifts(s, n)
    ensures r == s
    decreases n
  {
    hide Shift;
    if n > 0 {
      ShiftsInjective(Shift(r), Shift(s), n - 1);
      ShiftInjective(r, s);
    }
  }

  /** Different running checksums stay different however the message goes on. */
  lemma {:induction false} CrcInjective(r: Register, s: Register, data: seq<bv8>)
    requires Crc(r, data) == Crc(s, data)
    ensures r == s
    decreases |data|
  {
    hide Shifts, Xor, OfByte;
    if data != [] {
      var u, v := Xor(r, OfByte(data[0])), Xor(s, OfByte(data[0]));
      CrcInjective(Shifts(u, BYTE), Shifts(v, BYTE), data[1..]);
      ShiftsInjective(u, v, BYTE);
      XorInjective(r, s, OfByte(data[0]));
    }
  }
}
