/**
 Writing a commit (lfs_dir_commitattr, lfs_dir_commitcrc): tags are appended one by one, then
 sealed with checksum tags that pad the commit to a program unit and predict what the next
 unit looks like while it is still erased.
 */
module Commit {
  import opened Arith
  import opened Common
  import opened Crc32
  import opened DirLog
  import opened TagChain
  import opened TagWord

  /** A word read little-endian, as the forward checksum's fields are. */
  function LeWord(b: seq<bv8>): bv32
    requires |b| == 4
  {
    (b[0] as bv32) | (b[1] as bv32 << 8) | (b[2] as bv32 << 16) | (b[3] as bv32 << 24)
  }

  lemma LeRoundTrip(w: bv32)
    ensures LeWord(Le32(w)) == w
  {
  }

  /** The bytes a fetch checksums to decide whether the next program unit is still erased. */
  function NextUnit(b: seq<bv8>, off: nat, size: nat): (r: seq<bv8>)
    ensures off <= |b| ==> r <= b[off..]
    ensures off + size <= |b| ==> |r| == size
    ensures off <= |b| < off + size ==> |r| % 8 == 0 && |r| <= |b| - off < |r| + 8
    ensures off > |b| ==> r == []
  {
    if off + size <= |b| then b[off..off + size]
    else if off <= |b| then b[off..off + (|b| - off) / 8 * 8]
    else []
  }

  /** The two fields of a forward checksum: how many bytes it covers, and their checksum. */
  function FcrcSize(d: seq<bv8>): nat
    requires |d| == 8
  {
    LeWord(d[..4]) as nat
  }

  predicate FcrcHolds(d: seq<bv8>, unit: seq<bv8>)
    requires |d| == 8
  {
    d[4..] == Le32(Crc(CRC_START, unit).bits)
  }

  /** The forward checksum matches what follows the commit. */
  predicate FcrcMatches(b: seq<bv8>, off: nat, fcrc: Option<seq<bv8>>)
  {
    fcrc.Some? && |fcrc.value| == 8 && FcrcHolds(fcrc.value, NextUnit(b, off, FcrcSize(fcrc.value)))
  }

  /** A ten-bit number. */
  function Ten(n: nat): (x: bv10)
    requires n < 0x400
    ensures x as nat == n
  {
    if n == 0 then 0 else Ten(n - 1) + 1
  }

  /** Only bytes from `lo` to `hi` may differ. */
  predicate Framed(was: seq<bv8>, now: seq<bv8>, lo: nat, hi: nat)
  {
    |was| == |now| && lo <= hi <= |now| && now[..lo] == was[..lo] && now[hi..] == was[hi..]
  }

  lemma FramedSame(b: seq<bv8>, lo: nat)
    requires lo <= |b|
    ensures Framed(b, b, lo, lo)
  {
  }

  lemma FramedAt(was: seq<bv8>, now: seq<bv8>, lo: nat, hi: nat, at: nat)
    requires Framed(was, now, lo, hi) && hi <= at < |now|
    ensures now[at] == was[at] && now[at..] == was[at..]
  {
    assert now[at..] == now[hi..][at - hi..] && was[at..] == was[hi..][at - hi..];
    assert now[at] == now[at..][0] && was[at] == was[at..][0];
  }

  lemma FramedThen(a: seq<bv8>, b: seq<bv8>, c: seq<bv8>, lo: nat, mid: nat, hi: nat)
    requires Framed(a, b, lo, mid) && Framed(b, c, mid, hi)
    ensures Framed(a, c, lo, hi)
  {
    assert c[..lo] == c[..mid][..lo] == b[..mid][..lo] == b[..lo];
    assert b[hi..] == b[mid..][hi - mid..] == a[mid..][hi - mid..] == a[hi..];
  }

  /** Adding one stored entry to what is already written. */
  lemma Appended(b: seq<bv8>, d: seq<bv8>, c: Cursor, es: seq<Entry>, e: Entry)
    requires Written(b, c, es) && |b| == |d|
    requires var m := AfterAll(c, es);
             m.off <= |b| && b[..m.off] == d[..m.off] && Shaped(e) && Sealed(m, e) && Stored(d, m, e)
    ensures Written(d, c, es + [e]) && AfterAll(c, es + [e]) == After(AfterAll(c, es), e)
  {
    hide After, Shaped, Sealed, Stored;
    WrittenFrame(b, d, c, es);
    AfterLast(c, es, e);
    WrittenConcat(d, c, es, [e]);
    assert Written(d, AfterAll(c, es), [e]) by { assert [e][1..] == []; }
  }

  /** Bytes of `d` from `off` on spell out entry `e`. */
  lemma SpelledOut(d: seq<bv8>, c: Cursor, e: Entry)
    requires Shaped(e) && c.off + LengthOf(e.tag) <= |d|
    requires d[c.off..c.off + LengthOf(e.tag)] == BeBytes(XorTag(e.tag, c.ptag)) + e.data
    ensures Stored(d, c, e)
  {
    hide XorTag, LengthOf;
    var all := BeBytes(XorTag(e.tag, c.ptag)) + e.data;
    assert all[..4] == BeBytes(XorTag(e.tag, c.ptag)) && all[4..] == e.data;
    assert d[c.off..c.off + 4] == d[c.off..c.off + LengthOf(e.tag)][..4];
    assert d[c.off + 4..c.off + LengthOf(e.tag)] == d[c.off..c.off + LengthOf(e.tag)][4..];
  }

  /** A commit in progress (struct lfs_commit) on the block it is programmed into. */
  class Writer {
    const block: array<bv8>
    const limit: nat
    var off: nat
    var ptag: Word
    var crc: Register
    ghost const begin: Cursor
    ghost var es: seq<Entry>

    /** Everything appended so far reads back, and the running fields are where a scan would be. */
    ghost predicate Valid()
      reads this, block
    {
      && off <= block.Length && limit <= block.Length
      && Written(block[..], begin, es)
      && Running(AfterAll(begin, es), off, ptag, crc)
    }

    constructor (block: array<bv8>, limit: nat, off: nat, ptag: Word, crc: Register, ghost begin: Cursor)
      requires off <= block.Length && limit <= block.Length && Running(begin, off, ptag, crc)
      ensures this.block == block && this.limit == limit && this.begin == begin
      ensures Valid() && es == [] && this.off == off
    {
      this.block, this.limit, this.begin := block, limit, begin;
      this.off, this.ptag, this.crc, es := off, ptag, crc, [];
    }

    /** Programs bytes at the current offset. */
    method Put(bytes: seq<bv8>)
      requires off + |bytes| <= block.Length
      modifies block
      ensures block[..off] == old(block[..off])
      ensures block[off..off + |bytes|] == bytes
      ensures block[off + |bytes|..] == old(block[off + |bytes|..])
    {
      forall i | 0 <= i < |bytes| {
        block[off + i] := bytes[i];
      }
    }

    /** Programs one entry at the current offset and moves on past it. */
    method Store(e: Entry, next: Register)
      requires Valid() && off + LengthOf(e.tag) <= block.Length
      requires Shaped(e) && Sealed(AfterAll(begin, es), e) && next == After(AfterAll(begin, es), e).crc
      modifies this, block
      ensures Valid() && es == old(es) + [e]
      ensures off == old(off) + LengthOf(e.tag) && ptag == NextPtag(e.tag)
      ensures Framed(old(block[..]), block[..], old(off), off)
    {
      hide Crc, XorTag, Written, Sealed, Shaped, Stored, LengthOf, NextPtag;
      ghost var before, m := block[..], AfterAll(begin, es);
      ShapedValid(e);
      AfterGrows(m, e);
      Put(BeBytes(XorTag(e.tag, ptag)) + e.data);
      off, ptag, crc := off + LengthOf(e.tag), NextPtag(e.tag), next;
      SpelledOut(block[..], m, e);
      Appended(before, block[..], begin, es, e);
      es := es + [e];
    }

    /** Appends one tag with its payload, unless it would pass the commit's end. */
    method CommitAttr(tag: Word, data: seq<bv8>) returns (fits: bool)
      requires Valid() && !EndsCommit(tag) && Shaped(Entry(Clear(tag), data))
      modifies this, block
      ensures Valid()
      ensures fits == (old(off) + LengthOf(Clear(tag)) <= limit)
      ensures es == if fits then old(es) + [Entry(Clear(tag), data)] else old(es)
      ensures off == old(off) + if fits then LengthOf(Clear(tag)) else 0
      ensures if fits then TagWord.Valid(ptag) else ptag == old(ptag)
      ensures Framed(old(block[..]), block[..], old(off), off)
    {
      hide Crc, XorTag, Written, Shaped, LengthOf, Clear, EndsCommit, NextPtag, TagWord.Valid;
      var e := Entry(Clear(tag), data);
      fits := off + LengthOf(e.tag) <= limit;
      if !fits { return; }
      ClearCommit(tag);
      var word := BeBytes(XorTag(e.tag, ptag));
      var next := LfsCrc(crc, word);
      next := LfsCrc(next, data);
      CrcConcat(crc, word, data);
      PlainNext(e);
      Store(e, next);
    }

    /**
     The forward checksum: the size and checksum of the program unit at `noff`, as it is now.
     It is appended only when there is such a unit and the commit has room for it.
     */
    method CommitFcrc(noff: nat, progSize: bv32) returns (fits: bool)
      requires Valid() && off + 12 <= noff && noff + progSize as nat <= block.Length
      modifies this, block
      ensures Valid()
      ensures fits == (old(off) + 12 <= limit)
      ensures !fits ==> es == old(es) && ptag == old(ptag)
      ensures fits ==> |es| > 0 && es[..|es| - 1] == old(es) && IsFcrc(es[|es| - 1], block[..], noff)
      ensures off == old(off) + if fits then 12 else 0
      ensures Framed(old(block[..]), block[..], old(off), off)
    {
      hide Crc, XorTag, Written, Shaped, LengthOf, Clear, EndsCommit, NextPtag, Le32, FcrcSize, FcrcHolds, FcrcMatches;
      var unit := block[noff..noff + progSize as nat];
      var sum := BdCrc(CRC_START, unit);
      var tag := MkTag(0x5ff, 0x3ff, 8);
      var data := Le32(progSize) + Le32(sum.bits);
      FcrcShaped(data);
      ghost var was := block[..];
      fits := CommitAttr(tag, data);
      if fits {
        FcrcData(progSize, sum, unit);
        FcrcPredicts(was, block[..], noff, progSize as nat, data);
      }
    }

    /**
     Ends a commit at `noff` with a checksum tag whose size covers the padding. The first byte of
     what follows decides whether the next tag's valid bit is perturbed.
     */
    method Seal(noff: nat, perturb: bv8)
      requires Valid() && off + 8 <= noff <= block.Length && noff - (off + 4) <= 0x3fe
      modifies this, block
      ensures Valid() && |es| > 0 && es[..|es| - 1] == old(es) && IsSeal(es[|es| - 1])
      ensures off == noff && (TagWord.Valid(ptag) <==> perturb & 0x80 != 0)
      ensures Framed(old(block[..]), block[..], old(off), off)
    {
      hide Crc, XorTag, Written, Shaped, LengthOf, NextPtag, Le32, IsSeal, Running, AfterAll, Sealed;
      var tag := SealTag(noff - (off + 4), perturb);
      var word := BeBytes(XorTag(tag, ptag));
      var sum := LfsCrc(crc, word);
      var e := Entry(tag, Le32(sum.bits) + block[off + 8..noff]);
      assert e.data[..4] == Le32(sum.bits);
      SealFits(e, noff - (off + 4), perturb);
      assert Sealed(AfterAll(begin, es), e) by { SealIsSealed(AfterAll(begin, es), off, ptag, crc, e); }
      assert After(AfterAll(begin, es), e).crc == CRC_START by { SealResets(AfterAll(begin, es), e); }
      Store(e, CRC_START);
    }

    /** One turn of the padding loop: where the next checksum tag ends. */
    function SealEnd(end: nat): (noff: nat)
      requires off + 8 <= end
      reads this
      ensures off + 8 <= noff <= end && noff - (off + 4) <= 0x3fe
      ensures noff < end ==> end - noff >= 20 && noff > off + 20
      ensures noff == end <==> end - (off + 4) <= 0x3fe
      ensures noff < end ==> noff == off + 4 + 0x3fe || noff == end - 20
    {
      var noff := Min(end - (off + 4), 0x3fe) + off + 4;
      if noff < end then Min(noff, end - 20) else noff
    }

    /** The last checksum tag before an erased unit: forward checksum, then the perturbed seal. */
    method SealForeseeing(noff: nat, progSize: bv32) returns (ok: bool)
      requires Valid() && off + 20 <= noff && noff - (off + 4) <= 0x3fe
      requires progSize as nat > 0 && noff + progSize as nat <= block.Length
      modifies this, block
      ensures Valid() && old(es) <= es && SealsOnly(es[|old(es)|..])
      ensures ok <==> old(off) + 12 <= limit
      ensures ok ==> off == noff && Complete(es) && OneSeal(old(es), es) && |es| > |old(es)|
      ensures ok && off + 4 <= block.Length ==> Predicted(block[..], AfterAll(begin, es))
      ensures !ok ==> old(off) + 12 > limit && off == old(off) && es == old(es) && ptag == old(ptag)
      ensures Framed(old(block[..]), block[..], old(off), off)
    {
      hide Written, IsSeal, AfterAll, IsFcrc, Complete, SealsOnly, Predicted, Running, FcrcMatches, Framed;
      ghost var es0, b0, off0 := es, block[..], off;
      NoSeals(es);
      var perturb := block[noff];
      ok := CommitFcrc(noff, progSize);
      if ok {
        ghost var es1, b1, off1 := es, block[..], off;
        FcrcTag(es[|es| - 1], b1, noff);
        OneMore(es0, es0, es);
        FramedAt(b0, b1, off0, off1, noff);
        Seal(noff, perturb);
        OneMoreSeal(es0, es1, es);
        ForeseenOnce(es0, es1, es);
        FramedThen(b0, b1, block[..], off0, off1, off);
        FramedAt(b1, block[..], off1, off, noff);
        if off + 4 <= block.Length { Foreseen(b1, block[..], begin, es, off, ptag, crc); }
      }
    }

    /** One checksum tag of the padding loop. */
    method SealOnce(noff: nat, last: bool, progSize: bv32) returns (ok: bool)
      requires Valid() && off + 8 <= noff <= block.Length && noff - (off + 4) <= 0x3fe
      requires progSize as nat > 0 && (last && noff + progSize as nat <= block.Length ==> off + 20 <= noff)
      modifies this, block
      ensures Valid() && old(es) <= es && SealsOnly(es[|old(es)|..])
      ensures ok <==> !last || noff + progSize as nat > block.Length || old(off) + 12 <= limit
      ensures ok ==> off == noff && Complete(es) && OneSeal(old(es), es) && |es| > |old(es)|
      ensures ok && last && noff + progSize as nat <= block.Length && off + 4 <= block.Length ==>
                Predicted(block[..], AfterAll(begin, es))
      ensures ok && !last ==> TagWord.Valid(ptag)
      ensures !ok ==> last && old(off) + 12 > limit && off == old(off) && es == old(es) && ptag == old(ptag)
      ensures Framed(old(block[..]), block[..], old(off), off)
    {
      hide Written, IsSeal, AfterAll, Complete, SealsOnly, Predicted, Running, Framed;
      ok := true;
      if last && noff + progSize as nat <= block.Length {
        ok := SealForeseeing(noff, progSize);
      } else {
        NoSeals(es);
        ghost var es0 := es;
        Seal(noff, 0xff);
        OneMoreSeal(es0, es0, es);
      }
    }

    /**
     Ends the commit: pads it to a program unit with as many checksum tags as that takes, the
     last of them preceded by a forward checksum when another unit follows in the block. Only the
     last one ends at a program unit. When the forward checksum does not fit, nothing has been added
     exactly if the padding takes one tag; otherwise the commit has been sealed already.
     */
    method CommitCrc(progSize: bv32) returns (ok: bool)
      requires Valid() && off + 8 <= block.Length
      requires progSize as nat > 0 && block.Length % (progSize as nat) == 0 && Early(begin, es, progSize as nat)
      modifies this, block
      ensures Valid() && old(es) <= es && SealsOnly(es[|old(es)|..])
      ensures ok ==> Complete(es) && off % (progSize as nat) == 0 && Midway(begin, es, progSize as nat)
      ensures ok && off + 4 <= block.Length ==> Predicted(block[..], AfterAll(begin, es))
      ensures !ok ==> off + 12 > limit
      ensures OneTag(old(off), block.Length, progSize as nat) ==>
                (ok <==> RoomForSeal(old(off), block.Length, limit, progSize as nat))
      ensures !ok ==> (es == old(es) <==> OneTag(old(off), block.Length, progSize as nat))
      ensures !ok ==> if es == old(es) then ptag == old(ptag) else TagWord.Valid(ptag)
      ensures Framed(old(block[..]), block[..], old(off), off)
    {
      hide Written, IsSeal, AfterAll, Complete, SealsOnly, Predicted, Running, PaddedEnd, Framed, Early, Midway,
           TagWord.Valid, OneTag, RoomForSeal;
      RoomForSealIs(off, block.Length, limit, progSize as nat);
      OneTagIs(off, block.Length, progSize as nat);
      ok := PadTo(PaddedEnd(off, block.Length, progSize as nat), progSize);
    }

    /** The padding loop, up to `end`. */
    method PadTo(end: nat, progSize: bv32) returns (ok: bool)
      requires Valid() && off + 8 <= end <= block.Length && progSize as nat > 0 && end % (progSize as nat) == 0
      requires end < block.Length ==> off + 20 <= end && end + progSize as nat <= block.Length
      requires end < off + 20 + progSize as nat && Early(begin, es, progSize as nat)
      modifies this, block
      ensures Valid() && old(es) <= es && SealsOnly(es[|old(es)|..])
      ensures ok ==> off == end && Complete(es) && Midway(begin, es, progSize as nat)
      ensures ok && off + 4 <= block.Length ==> Predicted(block[..], AfterAll(begin, es))
      ensures !ok ==> off + 12 > limit && end < block.Length
      ensures end - (old(off) + 4) <= 0x3fe ==> (ok <==> end == block.Length || old(off) + 12 <= limit)
      ensures !ok ==> (es == old(es) <==> end - (old(off) + 4) <= 0x3fe)
      ensures !ok ==> if es == old(es) then ptag == old(ptag) else TagWord.Valid(ptag)
      ensures Framed(old(block[..]), block[..], old(off), off)
    {
      hide Written, IsSeal, AfterAll, Complete, SealsOnly, Predicted, Running, Framed, Early, Midway, TagWord.Valid;
      var unit := progSize as nat;
      ghost var before, es0, b0 := off, es, block[..];
      NoSeals(es);
      FramedSame(b0, off);
      while off < end
        invariant Valid() && before <= off <= end
        invariant off < end ==> off + 8 <= end && (end < block.Length ==> off + 20 <= end) && Early(begin, es, unit)
        invariant es0 <= es && SealsOnly(es[|es0|..])
        invariant off == end ==> Complete(es) && Midway(begin, es, unit)
        invariant off == end && end + 4 <= block.Length ==> Predicted(block[..], AfterAll(begin, es))
        invariant Framed(b0, block[..], before, off)
        invariant off == before ==> es == es0 && ptag == old(ptag)
        invariant off > before && end - (before + 4) <= 0x3fe ==> end == block.Length || before + 12 <= limit
        invariant before < off < end ==> end - (before + 4) > 0x3fe && |es| > |es0| && TagWord.Valid(ptag)
        decreases end - off
      {
        ghost var es1, b1, off1 := es, block[..], off;
        var fits := SealTurn(end, progSize);
        SealsJoin(es0, es1, es);
        FramedThen(b0, b1, block[..], before, off1, off);
        if !fits { return false; }
      }
      ok := true;
    }

    /** One turn of the padding loop. */
    method SealTurn(end: nat, progSize: bv32) returns (fits: bool)
      requires Valid() && off + 8 <= end <= block.Length && progSize as nat > 0 && end % (progSize as nat) == 0
      requires end < block.Length ==> off + 20 <= end && end + progSize as nat <= block.Length
      requires end < off + 20 + progSize as nat && Early(begin, es, progSize as nat)
      modifies this, block
      ensures Valid() && old(es) <= es && SealsOnly(es[|old(es)|..]) && Framed(old(block[..]), block[..], old(off), off)
      ensures !fits ==> old(off) + 12 > limit && off == old(off) && es == old(es) && ptag == old(ptag)
      ensures !fits ==> end - (old(off) + 4) <= 0x3fe && end < block.Length
      ensures end - (old(off) + 4) <= 0x3fe ==> (fits <==> end == block.Length || old(off) + 12 <= limit)
      ensures fits ==> old(off) < off <= end
      ensures fits && off < end ==> off + 20 <= end && Early(begin, es, progSize as nat)
      ensures fits && off < end ==> end - (old(off) + 4) > 0x3fe && |es| > |old(es)| && TagWord.Valid(ptag)
      ensures fits && off == end ==> Complete(es) && Midway(begin, es, progSize as nat)
      ensures fits && off == end && end + 4 <= block.Length ==> Predicted(block[..], AfterAll(begin, es))
    {
      hide Written, IsSeal, AfterAll, SealsOnly, Predicted, Running, Framed, OneSeal, Early, Midway, TagWord.Valid;
      ghost var es0, off0 := es, off;
      var noff := SealEnd(end);
      fits := SealOnce(noff, noff >= end, progSize);
      if fits {
        SealedOnce(begin, es0, es, off0, off, ptag, crc, end, progSize as nat);
      }
    }

    /**
     A whole commit: every attribute, then the seal. When space runs out, what is left is a front part
     of it: without a seal exactly if not all attributes fit or the padding takes one checksum tag,
     and otherwise all attributes, sealed by padding.
     */
    method CommitAll(attrs: seq<Entry>, progSize: bv32) returns (ok: bool)
      requires Valid() && es == [] && limit + 8 <= block.Length && off <= limit
      requires progSize as nat > 0 && block.Length % (progSize as nat) == 0
      requires Attributes(attrs)
      modifies this, block
      ensures Valid() && Framed(old(block[..]), block[..], old(off), off)
      ensures ok ==> attrs <= es && SealsOnly(es[|attrs|..]) && Complete(es) && off % (progSize as nat) == 0
      ensures ok ==> Midway(begin, es, progSize as nat)
      ensures ok && off + 4 <= block.Length ==> Predicted(block[..], AfterAll(begin, es))
      // it succeeds if and only if the attributes and the seal fit
      ensures AfterAll(begin, attrs).off > limit ==>
                !ok && es < attrs && off + LengthOf(attrs[|es|].tag) > limit
      ensures AfterAll(begin, attrs).off <= limit
              && OneTag(AfterAll(begin, attrs).off, block.Length, progSize as nat) ==>
                (ok <==> RoomForSeal(AfterAll(begin, attrs).off, block.Length, limit, progSize as nat))
      ensures !ok ==> IsPart(es, attrs)
      ensures !ok ==> (es <= attrs <==> var end := AfterAll(begin, attrs).off;
                                        end > limit || OneTag(end, block.Length, progSize as nat))
      ensures !ok && es != [] ==> TagWord.Valid(ptag)
    {
      hide Written, IsSeal, AfterAll, Complete, SealsOnly, Predicted, Framed, Shaped, EndsCommit, Early, Midway,
           TagWord.Valid, LengthOf, OneTag, RoomForSeal;
      ghost var b0, off0 := block[..], off;
      FramedSame(b0, off);
      for i := 0 to |attrs|
        invariant Valid() && es == attrs[..i] && off0 <= off <= limit
        invariant Framed(b0, block[..], off0, off) && (i > 0 ==> TagWord.Valid(ptag))
      {
        AttributeAt(attrs, i);
        ghost var b1, off1 := block[..], off;
        var fits := CommitAttr(attrs[i].tag, attrs[i].data);
        FramedThen(b0, b1, block[..], off0, off1, off);
        if !fits {
          PartOfAttributes(begin, attrs, i);
          return false;
        }
      }
      ghost var b2, off2 := block[..], off;
      assert attrs[..|attrs|] == attrs;
      NoSealYet(begin, attrs, progSize as nat);
      ok := CommitCrc(progSize);
      FramedThen(b0, b2, block[..], off0, off2, off);
      if !ok { assert es <= attrs <==> es == attrs; }
    }
  }

  /**
   Is there room to seal a commit whose attributes end at `off`? There must be for a forward checksum,
   unless the padding reaches the end of the block.
   */
  predicate RoomForSeal(off: nat, blockSize: nat, limit: nat, unit: nat)
    requires unit > 0 && blockSize % unit == 0
  {
    off + 8 <= blockSize && (PaddedEnd(off, blockSize, unit) == blockSize || off + 12 <= limit)
  }

  lemma RoomForSealIs(off: nat, blockSize: nat, limit: nat, unit: nat)
    requires unit > 0 && blockSize % unit == 0 && off + 8 <= blockSize
    ensures RoomForSeal(off, blockSize, limit, unit) <==>
              PaddedEnd(off, blockSize, unit) == blockSize || off + 12 <= limit
  {
  }

  /** With commits allowed up to eight bytes in front of the end of the block there always is. */
  lemma AlwaysRoomForSeal(off: nat, blockSize: nat, unit: nat)
    requires unit > 0 && blockSize % unit == 0 && off + 8 <= blockSize
    ensures RoomForSeal(off, blockSize, blockSize - 8, unit)
  {
    if off + 20 > blockSize { PaddedToEnd(off, blockSize, unit); }
  }

  lemma PaddedToEnd(off: nat, blockSize: nat, unit: nat)
    requires unit > 0 && blockSize % unit == 0 && off + 8 <= blockSize < off + 20
    ensures PaddedEnd(off, blockSize, unit) == blockSize
  {
  }

  /** Does padding a commit that ends at `off` take one checksum tag? With program units up to 1006 bytes it does. */
  predicate OneTag(off: nat, blockSize: nat, unit: nat)
    requires unit > 0 && blockSize % unit == 0
  {
    off + 8 <= blockSize && PaddedEnd(off, blockSize, unit) - (off + 4) <= 0x3fe
  }

  lemma OneTagIs(off: nat, blockSize: nat, unit: nat)
    requires unit > 0 && blockSize % unit == 0 && off + 8 <= blockSize
    ensures OneTag(off, blockSize, unit) <==> PaddedEnd(off, blockSize, unit) - (off + 4) <= 0x3fe
  {
  }

  lemma SmallUnitsTakeOneTag(off: nat, blockSize: nat, unit: nat)
    requires 0 < unit <= 1006 && blockSize % unit == 0 && off + 8 <= blockSize
    ensures OneTag(off, blockSize, unit)
  {
    hide PaddedEnd;
  }

  /** With larger ones it need not: at 2048 bytes a seal is written before the forward checksum is tried. */
  lemma LargeUnitsMayNot()
    ensures !OneTag(100, 8192, 2048)
  {
  }

  /** A front part of a commit as running out of space leaves it. */
  predicate IsPart(part: seq<Entry>, attrs: seq<Entry>)
  {
    part <= attrs || (attrs <= part && SealsOnly(part[|attrs|..]))
  }

  /** Where attribute `i` is the first that does not fit, the attributes together do not. */
  lemma PartOfAttributes(begin: Cursor, attrs: seq<Entry>, i: nat)
    requires i < |attrs|
    ensures attrs[..i] <= attrs && IsPart(attrs[..i], attrs)
    ensures AfterAll(begin, attrs).off >= AfterAll(begin, attrs[..i]).off + LengthOf(attrs[i].tag)
  {
    hide After, LengthOf;
    var c := AfterAll(begin, attrs[..i]);
    assert attrs == attrs[..i] + attrs[i..];
    WrittenConcat([], begin, attrs[..i], attrs[i..]);
    AfterGrows(c, attrs[i]);
    LogGrows(After(c, attrs[i]), attrs[i..][1..]);
  }

  lemma PlainNext(e: Entry)
    requires Shaped(e) && !EndsCommit(e.tag)
    ensures NextPtag(e.tag) == e.tag && Valid(e.tag)
  {
  }

  /** Where a commit ending at `off` is padded to. */
  function PaddedEnd(off: nat, blockSize: nat, unit: nat): (end: nat)
    requires off + 8 <= blockSize && unit > 0 && blockSize % unit == 0
    ensures end % unit == 0 && off + 8 <= end <= blockSize
    ensures end < blockSize ==> off + 20 <= end && end + unit <= blockSize
    ensures end < off + 20 + unit
  {
    var end := AlignUp(Min(off + 20, blockSize), unit);
    AlignUpBelow(Min(off + 20, blockSize), blockSize, unit);
    assert end < blockSize ==> end + unit <= blockSize by {
      if end < blockSize { MultiplesApart(end, blockSize, unit); }
    }
    end
  }

  /** The tag that ends a commit: `size` bytes of checksum and padding follow it. */
  function SealTag(size: nat, perturb: bv8): Word
    requires size <= 0x3fe
  {
    MkTag(if perturb & 0x80 == 0 then 0x501 else 0x500, 0x3ff, Ten(size))
  }

  /** An entry that is a commit checksum of one of the two types littlefs writes. */
  predicate IsSeal(e: Entry) { EndsCommit(e.tag) && (TypeOf(e.tag) == 0x500 || TypeOf(e.tag) == 0x501) }

  lemma SealFits(e: Entry, size: nat, perturb: bv8)
    requires 4 <= size <= 0x3fe && e.tag == SealTag(size, perturb) && |e.data| == size
    ensures Shaped(e) && IsSeal(e) && LengthOf(e.tag) == 4 + size
    ensures Valid(NextPtag(e.tag)) <==> perturb & 0x80 != 0
  {
    hide MkTag, Ten, TypeField, IdField, SizeField, Valid, Flip;
    UnpackMkTag(if perturb & 0x80 == 0 then 0x501 else 0x500, 0x3ff, Ten(size));
    ValidFlip(e.tag);
  }

  lemma SealIsSealed(c: Cursor, off: nat, ptag: Word, crc: Register, e: Entry)
    requires Running(c, off, ptag, crc) && |e.data| >= 4
    requires e.data[..4] == Le32(Crc(crc, BeBytes(XorTag(e.tag, ptag))).bits)
    ensures Sealed(c, e)
  {
    hide Crc, XorTag, Le32, EndsCommit;
  }

  lemma SealResets(c: Cursor, e: Entry)
    requires IsSeal(e)
    ensures After(c, e).crc == CRC_START
  {
    hide Crc, XorTag, LengthOf, NextPtag;
  }

  const FCRC_TAG: Word := MkTag(0x5ff, 0x3ff, 8)

  /** A forward checksum tag that describes the program unit at `noff` of `b`. */
  predicate IsFcrc(e: Entry, b: seq<bv8>, noff: nat)
  {
    e.tag == FCRC_TAG && |e.data| == 8 && FcrcMatches(b, noff, Some(e.data))
  }

  lemma FcrcShaped(data: seq<bv8>)
    requires |data| == 8
    ensures Shaped(Entry(Clear(FCRC_TAG), data)) && Clear(FCRC_TAG) == FCRC_TAG && !EndsCommit(FCRC_TAG)
    ensures LengthOf(FCRC_TAG) == 12 && TypeOf(FCRC_TAG) == TYPE_FCRC
  {
    UnpackMkTag(0x5ff, 0x3ff, 8);
    ClearValid(FCRC_TAG);
  }

  lemma FcrcPredicts(was: seq<bv8>, b: seq<bv8>, noff: nat, n: nat, data: seq<bv8>)
    requires |was| == |b| && noff + n <= |b| && b[noff..] == was[noff..]
    requires |data| == 8 && FcrcSize(data) == n && FcrcHolds(data, was[noff..noff + n])
    ensures FcrcMatches(b, noff, Some(data))
  {
    hide FcrcSize, FcrcHolds;
    assert was[noff..noff + n] == was[noff..][..n] == b[noff..][..n] == b[noff..noff + n];
  }

  lemma FcrcData(progSize: bv32, sum: Register, unit: seq<bv8>)
    requires sum == Crc(CRC_START, unit)
    ensures var data := Le32(progSize) + Le32(sum.bits);
            |data| == 8 && FcrcSize(data) == progSize as nat && FcrcHolds(data, unit)
  {
    hide Le32, LeWord, Crc;
    LeRoundTrip(progSize);
    var data := Le32(progSize) + Le32(sum.bits);
    assert data[..4] == Le32(progSize) && data[4..] == Le32(sum.bits);
  }

  /** Entries a caller may commit: valid, of the right size, and not checksums. */
  predicate Attributes(attrs: seq<Entry>)
  {
    forall i :: 0 <= i < |attrs| ==> Shaped(attrs[i]) && !EndsCommit(attrs[i].tag)
  }

  lemma AttributeAt(attrs: seq<Entry>, i: nat)
    requires Attributes(attrs) && i < |attrs|
    ensures Entry(Clear(attrs[i].tag), attrs[i].data) == attrs[i]
    ensures Shaped(attrs[i]) && !EndsCommit(attrs[i].tag)
  {
    ClearValid(attrs[i].tag);
  }

  /** Checksum tags only: nothing a lookup or a replay takes notice of. */
  predicate SealsOnly(es: seq<Entry>)
  {
    forall i :: 0 <= i < |es| ==> IsSeal(es[i]) || es[i].tag == FCRC_TAG
  }

  lemma NoSeals(es: seq<Entry>)
    ensures SealsOnly(es[|es|..])
  {
  }

  lemma SealsJoin(es0: seq<Entry>, es1: seq<Entry>, es2: seq<Entry>)
    requires es0 <= es1 <= es2 && SealsOnly(es1[|es0|..]) && SealsOnly(es2[|es1|..])
    ensures es0 <= es2 && SealsOnly(es2[|es0|..])
  {
    hide IsSeal;
    var n := |es0|;
    forall i | 0 <= i < |es2| - n ensures IsSeal(es2[n..][i]) || es2[n..][i].tag == FCRC_TAG {
      if n + i < |es1| {
        assert es2[n..][i] == es1[n..][i];
      } else {
        assert es2[n..][i] == es2[|es1|..][n + i - |es1|];
      }
    }
  }

  lemma OneMore(es0: seq<Entry>, es1: seq<Entry>, es2: seq<Entry>)
    requires es0 <= es1 && SealsOnly(es1[|es0|..])
    requires |es2| > 0 && es2[..|es2| - 1] == es1 && es2[|es2| - 1].tag == FCRC_TAG
    ensures es0 <= es2 && SealsOnly(es2[|es0|..])
  {
    hide IsSeal;
    var n := |es0|;
    forall i | 0 <= i < |es2| - n ensures IsSeal(es2[n..][i]) || es2[n..][i].tag == FCRC_TAG {
      if n + i < |es1| { assert es2[n..][i] == es1[n..][i]; }
    }
    assert es2[..n] == es2[..|es2| - 1][..n];
  }

  lemma OneMoreSeal(es0: seq<Entry>, es1: seq<Entry>, es2: seq<Entry>)
    requires es0 <= es1 && SealsOnly(es1[|es0|..])
    requires |es2| > 0 && es2[..|es2| - 1] == es1 && IsSeal(es2[|es2| - 1])
    ensures es0 <= es2 && SealsOnly(es2[|es0|..]) && Complete(es2)
  {
    var n := |es0|;
    forall i | 0 <= i < |es2| - n ensures IsSeal(es2[n..][i]) || es2[n..][i].tag == FCRC_TAG {
      if n + i < |es1| { assert es2[n..][i] == es1[n..][i]; }
    }
    assert es2[..n] == es2[..|es2| - 1][..n];
  }

  /** A scan that gets here stops at once, and the forward checksum says the rest is still erased. */
  predicate Predicted(b: seq<bv8>, c: Cursor)
  {
    c.off + 4 <= |b| && ScanStep(b, c) == Halt(true) && FcrcMatches(b, c.off, c.view.fcrc)
  }

  /** No checksum tag of a commit but the last ends at a program unit. */
  predicate Midway(begin: Cursor, es: seq<Entry>, unit: nat)
    requires unit > 0
  {
    forall n {:trigger es[..n]} :: 0 < n < |es| && EndsCommit(es[n - 1].tag) ==>
        AfterAll(begin, es[..n]).off % unit != 0
  }

  /** The same while the last one is still to come. */
  predicate Early(begin: Cursor, es: seq<Entry>, unit: nat)
    requires unit > 0
  {
    forall n {:trigger es[..n]} :: 0 < n <= |es| && EndsCommit(es[n - 1].tag) ==>
        AfterAll(begin, es[..n]).off % unit != 0
  }

  lemma NoSealYet(begin: Cursor, attrs: seq<Entry>, unit: nat)
    requires unit > 0 && Attributes(attrs)
    ensures Early(begin, attrs, unit)
  {
  }

  /** Of what was added to `es0` only the last tag ends a commit. */
  predicate OneSeal(es0: seq<Entry>, es: seq<Entry>)
  {
    es0 <= es && forall n :: |es0| <= n < |es| - 1 ==> !EndsCommit(es[n].tag)
  }

  lemma ForeseenOnce(es0: seq<Entry>, es1: seq<Entry>, es: seq<Entry>)
    requires |es1| > 0 && es1[..|es1| - 1] == es0 && es1[|es1| - 1].tag == FCRC_TAG
    requires |es| > 0 && es[..|es| - 1] == es1
    ensures OneSeal(es0, es)
  {
    FcrcShaped(seq(8, _ => 0));
    assert es[|es| - 2] == es1[|es1| - 1];
    assert es[..|es0|] == es1[..|es0|];
  }

  lemma SealedOnce(begin: Cursor, es0: seq<Entry>, es: seq<Entry>, before: nat, off: nat, ptag: Word, crc: Register,
                   end: nat, unit: nat)
    requires unit > 0 && Early(begin, es0, unit) && OneSeal(es0, es) && Running(AfterAll(begin, es), off, ptag, crc)
    requires end % unit == 0 && end < before + 20 + unit && (off < end ==> before + 20 < off)
    ensures Midway(begin, es, unit) && (off < end ==> Early(begin, es, unit))
  {
    hide AfterAll, EndsCommit;
    InsideUnit(before, off, end, unit);
    forall n | 0 < n < |es| && EndsCommit(es[n - 1].tag) ensures AfterAll(begin, es[..n]).off % unit != 0 {
      if n <= |es0| { assert es[..n] == es0[..n] && es[n - 1] == es0[n - 1]; }
    }
    assert es[..|es|] == es;
  }

  /** Between the start of a commit and the unit it is padded to there is no unit boundary a seal could end at. */
  lemma InsideUnit(before: nat, noff: nat, end: nat, unit: nat)
    requires unit > 0 && end % unit == 0 && end < before + 20 + unit && (noff < end ==> before + 20 < noff)
    ensures noff < end ==> noff % unit != 0
  {
    if noff < end && noff % unit == 0 { MultiplesApart(noff, end, unit); }
  }

  lemma FcrcTag(e: Entry, b: seq<bv8>, noff: nat)
    requires IsFcrc(e, b, noff)
    ensures e.tag == FCRC_TAG
  {
  }

  /** The perturbed valid bit stops a scan whatever the erased unit happens to contain. */
  lemma StopsAtErased(b: seq<bv8>, c: Cursor)
    requires c.off + 4 <= |b| && EndsCommit(c.ptag)
    requires Valid(c.ptag) <==> b[c.off] & 0x80 != 0
    ensures ScanStep(b, c) == Halt(true)
  {
    hide XorTag, BeWord, Valid, EndsCommit;
    var word := b[c.off..c.off + 4];
    assert word[0] == b[c.off];
    BeFirstBit(word);
    ValidXor(BeWord(word), c.ptag);
  }

  /** Behind a tag that has not been sealed, a scan stops at an erased byte whose top bit is set. */
  lemma StopsAtBlank(b: seq<bv8>, c: Cursor)
    requires Valid(c.ptag) && (c.off + 4 <= |b| ==> b[c.off] & 0x80 != 0)
    ensures ScanStep(b, c).Halt?
  {
    hide XorTag, BeWord, Valid, EndsCommit;
    if c.off + 4 <= |b| {
      var word := b[c.off..c.off + 4];
      assert word[0] == b[c.off];
      BeFirstBit(word);
      ValidXor(BeWord(word), c.ptag);
    }
  }

  lemma SealKeepsView(v: View, e: Entry)
    requires IsSeal(e)
    ensures Noted(v, e).fcrc == v.fcrc && EndsCommit(NextPtag(e.tag))
  {
    hide TypeField, IdField, SizeField;
    FlipFields(e.tag);
  }

  lemma FcrcNoted(v: View, e: Entry)
    requires e.tag == FCRC_TAG && |e.data| == 8
    ensures Noted(v, e).fcrc == Some(e.data)
  {
    FcrcShaped(e.data);
    assert e.data[..8] == e.data;
  }

  /** After a forward checksum and a seal, the erased unit behind them is foreseen. */
  lemma Foreseen(was: seq<bv8>, b: seq<bv8>, begin: Cursor, es: seq<Entry>, off: nat, ptag: Word, crc: Register)
    requires |es| >= 2 && IsSeal(es[|es| - 1]) && |was| == |b| && off + 4 <= |b|
    requires b[off..] == was[off..] && IsFcrc(es[|es| - 2], was, off)
    requires Running(AfterAll(begin, es), off, ptag, crc)
    requires Valid(ptag) <==> b[off] & 0x80 != 0
    ensures Predicted(b, AfterAll(begin, es))
  {
    hide Valid, XorTag, After, Noted, NextPtag, ScanStep, IsSeal, FcrcHolds, FcrcSize, EndsCommit;
    var n := |es|;
    assert es == es[..n - 1] + [es[n - 1]] && es[..n - 1] == es[..n - 2] + [es[n - 2]];
    AfterLast(begin, es[..n - 1], es[n - 1]);
    AfterLast(begin, es[..n - 2], es[n - 2]);
    var c0 := AfterAll(begin, es[..n - 2]);
    var c1 := AfterAll(begin, es[..n - 1]);
    AfterGrows(c0, es[n - 2]);
    AfterGrows(c1, es[n - 1]);
    FcrcNoted(c0.view, es[n - 2]);
    SealKeepsView(c1.view, es[n - 1]);
    StopsAtErased(b, AfterAll(begin, es));
    SameUnit(was, b, off, FcrcSize(es[n - 2].data));
  }

  lemma SameUnit(was: seq<bv8>, b: seq<bv8>, off: nat, n: nat)
    requires |was| == |b| && off <= |b| && b[off..] == was[off..]
    ensures NextUnit(was, off, n) == NextUnit(b, off, n)
  {
    var m := if off + n <= |b| then n else (|b| - off) / 8 * 8;
    assert was[off..off + m] == was[off..][..m] == b[off..][..m] == b[off..off + m];
  }

  lemma ClearCommit(w: Word)
    ensures EndsCommit(Clear(w)) == EndsCommit(w)
  {
    ClearFields(w);
  }

  predicate Running(c: Cursor, off: nat, ptag: Word, crc: Register)
  {
    c.off == off && c.ptag == ptag && c.crc == crc
  }
}
