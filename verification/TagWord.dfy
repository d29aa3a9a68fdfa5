/** Packed 32-bit tags (lfs.c, "operations on 32-bit entry tags") and their place in bytes. */
module TagWord {
  import opened DirLog

  /** A packed tag, or a tag as stored: XORed with the tag before it. */
  datatype Word = Word(bits: bv32)

  // Field layout: 1 bit invalid, 11 bits type, 10 bits id, 10 bits size.

  predicate Valid(w: Word) { w.bits & 0x8000_0000 == 0 }

  function TypeField(w: Word): bv11 { ((w.bits >> 20) & 0x7ff) as bv11 }

  function IdField(w: Word): bv10 { ((w.bits >> 10) & 0x3ff) as bv10 }

  function SizeField(w: Word): bv10 { (w.bits & 0x3ff) as bv10 }

  function TypeOf(w: Word): nat { TypeField(w) as nat }

  function IdOf(w: Word): nat { IdField(w) as nat }

  function SizeOf(w: Word): (r: nat)
    ensures r < 0x400
  {
    SizeField(w) as nat
  }

  function Unpack(w: Word): Tag { Tag(TypeOf(w), IdOf(w), SizeOf(w)) }

  /** LFS_MKTAG: packs a type, an id and a size. */
  function MkTag(ty: bv11, id: bv10, size: bv10): Word
  {
    Word((ty as bv32 << 20) | (id as bv32 << 10) | (size as bv32))
  }

  function XorTag(a: Word, b: Word): Word { Word(a.bits ^ b.bits) }

  function Clear(w: Word): Word { Word(w.bits & 0x7fff_ffff) }

  function Flip(w: Word): Word { Word(w.bits ^ 0x8000_0000) }

  /** The tag before the first one of a block. */
  const FIRST: Word := Word(0xffff_ffff)

  // ---------------------------------------------------------------- XOR chaining

  lemma XorTagTwice(a: Word, b: Word)
    ensures XorTag(XorTag(a, b), b) == a
  {
  }

  lemma XorTagCommutes(a: Word, b: Word)
    ensures XorTag(a, b) == XorTag(b, a)
  {
  }

  lemma XorTagAssociates(a: Word, b: Word, c: Word)
    ensures XorTag(XorTag(a, b), c) == XorTag(a, XorTag(b, c))
  {
  }

  lemma XorTagZero(a: Word)
    ensures XorTag(a, Word(0)) == a
  {
  }

  lemma XorTagSelf(a: Word)
    ensures XorTag(a, a) == Word(0)
  {
  }

  lemma XorTagFlip(a: Word, b: Word)
    ensures Clear(XorTag(XorTag(a, b), Flip(a))) == Clear(b)
  {
  }

  lemma XorTagSame(a: Word, b: Word)
    ensures XorTag(XorTag(a, b), a) == b
  {
  }

  lemma ClearValid(w: Word)
    ensures Valid(Clear(w))
    ensures Valid(w) ==> Clear(w) == w
  {
  }

  lemma ClearFlip(w: Word)
    ensures Clear(Flip(w)) == Clear(w)
  {
  }

  lemma FlipFields(w: Word)
    ensures Unpack(Flip(w)) == Unpack(w)
  {
    assert TypeField(Flip(w)) == TypeField(w);
    assert IdField(Flip(w)) == IdField(w);
    assert SizeField(Flip(w)) == SizeField(w);
  }

  lemma ClearFields(w: Word)
    ensures Unpack(Clear(w)) == Unpack(w)
  {
    assert TypeField(Clear(w)) == TypeField(w);
    assert IdField(Clear(w)) == IdField(w);
    assert SizeField(Clear(w)) == SizeField(w);
  }

  lemma FirstFields()
    ensures Unpack(FIRST) == Tag(0x7ff, 0x3ff, 0x3ff)
  {
  }

  // ---------------------------------------------------------------- fields as the code masks them

  /** A type field, or a part of one. */
  datatype Field = Field(bits: bv11)

  function Number(f: Field): nat { f.bits as nat }

  function Type(w: Word): Field { Field(TypeField(w)) }

  function Shifted(f: Field, n: nat): Field
    requires n < 11
  {
    Field(f.bits >> n)
  }

  lemma NumberBack(f: Field)
    ensures Number(f) as bv11 == f.bits
  {
  }

  lemma NumberInjective(f: Field, g: Field)
    ensures Number(f) == Number(g) <==> f == g
  {
    hide Number;
    NumberBack(f);
    NumberBack(g);
  }

  lemma NumberOfType(w: Word)
    ensures Number(Type(w)) == TypeOf(w)
  {
  }

  lemma BlockOf80(f: Field)
    ensures Number(f) / 0x80 == Number(Shifted(f, 7))
  {
  }

  lemma BlockOf100(f: Field)
    ensures Number(f) / 0x100 == Number(Shifted(f, 8))
  {
  }

  lemma CoarseMask(a: Word)
    ensures a.bits & 0x7000_0000 == (Shifted(Type(a), 8).bits as bv32) << 28
  {
  }

  lemma CoarseField(a: Word)
    ensures Shifted(Type(a), 8) == Field(((a.bits & 0x7000_0000) >> 28) as bv11)
  {
  }

  lemma MiddleMask(a: Word)
    ensures a.bits & 0x7800_0000 == (Shifted(Type(a), 7).bits as bv32) << 27
  {
  }

  lemma MiddleField(a: Word)
    ensures Shifted(Type(a), 7) == Field(((a.bits & 0x7800_0000) >> 27) as bv11)
  {
  }

  lemma ExactMask(a: Word)
    ensures a.bits & 0x7ff0_0000 == (Type(a).bits as bv32) << 20
  {
  }

  lemma ExactField(a: Word)
    ensures Type(a) == Field(((a.bits & 0x7ff0_0000) >> 20) as bv11)
  {
  }

  /** The type masks are those of the code: 0x700, 0x780 and 0x7ff over the type field. */
  lemma MatchesBits(a: Word, b: Word)
    ensures Matches(Coarse, TypeOf(a), TypeOf(b)) <==> a.bits & 0x7000_0000 == b.bits & 0x7000_0000
    ensures Matches(Middle, TypeOf(a), TypeOf(b)) <==> a.bits & 0x7800_0000 == b.bits & 0x7800_0000
    ensures Matches(Exact, TypeOf(a), TypeOf(b)) <==> a.bits & 0x7ff0_0000 == b.bits & 0x7ff0_0000
  {
    hide TypeOf, Number, Type, Shifted;
    NumberOfType(a);
    NumberOfType(b);
    CoarseBits(a, b);
    MiddleBits(a, b);
    ExactBits(a, b);
    BlockOf80(Type(a));
    BlockOf80(Type(b));
    BlockOf100(Type(a));
    BlockOf100(Type(b));
    NumberInjective(Type(a), Type(b));
    NumberInjective(Shifted(Type(a), 7), Shifted(Type(b), 7));
    NumberInjective(Shifted(Type(a), 8), Shifted(Type(b), 8));
  }

  lemma CoarseBits(a: Word, b: Word)
    ensures a.bits & 0x7000_0000 == b.bits & 0x7000_0000 <==> Shifted(Type(a), 8) == Shifted(Type(b), 8)
  {
    hide Type, Shifted;
    CoarseMask(a);
    CoarseMask(b);
    CoarseField(a);
    CoarseField(b);
  }

  lemma MiddleBits(a: Word, b: Word)
    ensures a.bits & 0x7800_0000 == b.bits & 0x7800_0000 <==> Shifted(Type(a), 7) == Shifted(Type(b), 7)
  {
    hide Type, Shifted;
    MiddleMask(a);
    MiddleMask(b);
    MiddleField(a);
    MiddleField(b);
  }

  lemma ExactBits(a: Word, b: Word)
    ensures a.bits & 0x7ff0_0000 == b.bits & 0x7ff0_0000 <==> Type(a) == Type(b)
  {
    hide Type;
    ExactMask(a);
    ExactMask(b);
    ExactField(a);
    ExactField(b);
  }

  lemma HalvesNumber(f: Field)
    ensures Number(f) == 2 * Number(Shifted(f, 1)) + Number(Field(f.bits & 1))
  {
  }

  lemma LowNumber(f: Field)
    ensures Number(Field(f.bits & 1)) == if f.bits & 1 != 0 then 1 else 0
  {
  }

  lemma ParityNumber(f: Field)
    ensures Number(f) % 2 == 1 <==> f.bits & 1 != 0
  {
    hide Number, Shifted;
    HalvesNumber(f);
    LowNumber(f);
  }

  lemma ParityField(a: Word)
    ensures Type(a).bits & 1 != 0 <==> a.bits & 0x10_0000 != 0
  {
  }

  /** The lowest bit of the type. */
  lemma ParityBit(a: Word)
    ensures TypeOf(a) % 2 == 1 <==> a.bits & 0x10_0000 != 0
  {
    hide TypeOf, Number, Type;
    NumberOfType(a);
    ParityNumber(Type(a));
    ParityField(a);
  }

  lemma UniqueNumber(f: Field)
    ensures Number(Shifted(f, 8)) % 2 == 1 <==> f.bits & 0x100 != 0
  {
  }

  lemma UniqueField(a: Word)
    ensures Type(a).bits & 0x100 != 0 <==> a.bits & 0x1000_0000 != 0
  {
  }

  lemma UniqueBit(a: Word)
    ensures Unique(TypeOf(a)) <==> a.bits & 0x1000_0000 != 0
  {
    hide TypeOf, Number, Type, Shifted;
    NumberOfType(a);
    BlockOf100(Type(a));
    UniqueNumber(Type(a));
    UniqueField(a);
  }

  /** Which tags overwrite each other: bit 0x100 of the later one's type says under which mask. */
  lemma KeyBits(later: Word, older: Word)
    ensures Matches(KeyMask(TypeOf(later)), TypeOf(later), TypeOf(older)) <==>
              if later.bits & 0x1000_0000 != 0 then later.bits & 0x7ff0_0000 == older.bits & 0x7ff0_0000
              else later.bits & 0x7000_0000 == older.bits & 0x7000_0000
  {
    hide TypeOf, Matches, Unique;
    MatchesBits(later, older);
    UniqueBit(later);
  }

  /** The first tag of a block is stored as its complement. */
  lemma FirstStored(w: Word)
    ensures XorTag(w, FIRST).bits == !w.bits
  {
  }

  // ---------------------------------------------------------------- packing

  lemma MkTagType(ty: bv11, id: bv10, size: bv10)
    ensures TypeField(MkTag(ty, id, size)) == ty
  {
  }

  lemma MkTagId(ty: bv11, id: bv10, size: bv10)
    ensures IdField(MkTag(ty, id, size)) == id
  {
  }

  lemma MkTagSize(ty: bv11, id: bv10, size: bv10)
    ensures SizeField(MkTag(ty, id, size)) == size
  {
  }

  lemma MkTagValid(ty: bv11, id: bv10, size: bv10)
    ensures Valid(MkTag(ty, id, size))
  {
  }

  lemma UnpackMkTag(ty: bv11, id: bv10, size: bv10)
    ensures Valid(MkTag(ty, id, size))
    ensures Unpack(MkTag(ty, id, size)) == Tag(ty as nat, id as nat, size as nat)
  {
    hide MkTag, TypeField, IdField, SizeField, Valid;
    MkTagType(ty, id, size);
    MkTagId(ty, id, size);
    MkTagSize(ty, id, size);
    MkTagValid(ty, id, size);
  }

  // ---------------------------------------------------------------- tags on disk

  /** Big-endian, so that the invalid bit is the first bit on disk. */
  function BeBytes(w: Word): (r: seq<bv8>)
    ensures |r| == 4
  {
    [(w.bits >> 24) as bv8, ((w.bits >> 16) & 0xff) as bv8, ((w.bits >> 8) & 0xff) as bv8, (w.bits & 0xff) as bv8]
  }

  function BeWord(b: seq<bv8>): Word
    requires |b| == 4
  {
    Word((b[0] as bv32 << 24) | (b[1] as bv32 << 16) | (b[2] as bv32 << 8) | (b[3] as bv32))
  }

  lemma BytesOfWord(b: seq<bv8>)
    requires |b| == 4
    ensures BeBytes(BeWord(b)) == b
  {
  }

  lemma BeRoundTrip(w: Word)
    ensures BeWord(BeBytes(w)) == w
  {
  }

  /** The invalid bit of a stored word is the top bit of its first byte. */
  lemma BeFirstBit(b: seq<bv8>)
    requires |b| == 4
    ensures Valid(BeWord(b)) <==> b[0] & 0x80 == 0
  {
  }

  lemma ValidXor(a: Word, b: Word)
    ensures Valid(XorTag(a, b)) <==> (Valid(a) <==> Valid(b))
  {
  }

  lemma ValidFlip(w: Word)
    ensures Valid(Flip(w)) <==> !Valid(w)
  {
  }
}
