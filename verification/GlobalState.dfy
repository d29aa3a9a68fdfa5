/**
 Global state spread over all metadata pairs (lfs_gstate_xor, lfs_dir_getgstate and the gstate
 steps of the commit paths).

 No block holds the global state. Every pair may carry one record, and the state is the XOR of
 all records on the tail list; a commit anywhere can change it by changing its own record.
 */
module GlobalState {
  import opened Commit
  import opened Common
  import opened Crc32
  import opened DirLog
  import opened TagWord

  /** lfs_gstate_t: a tag and the pair it is about. */
  datatype GState = GState(tag: Word, pair0: Word, pair1: Word)

  const ZERO: GState := GState(Word(0), Word(0), Word(0))

  function Mix(a: GState, b: GState): GState
  {
    GState(XorTag(a.tag, b.tag), XorTag(a.pair0, b.pair0), XorTag(a.pair1, b.pair1))
  }

  function DiskTag(w: Word): Word { Word(w.bits & 0xffff_fc00) }

  /** The part that is kept on disk: the low ten tag bits live in memory only. */
  function Masked(g: GState): GState { g.(tag := DiskTag(g.tag)) }

  // ---------------------------------------------------------------- XOR algebra

  lemma MixZero(a: GState)
    ensures Mix(a, ZERO) == a && Mix(ZERO, a) == a
  {
    hide XorTag;
    MixCommutes(a, ZERO);
    XorTagZero(a.tag);
    XorTagZero(a.pair0);
    XorTagZero(a.pair1);
  }

  lemma MixSelf(a: GState)
    ensures Mix(a, a) == ZERO
  {
    hide XorTag;
    XorTagSelf(a.tag);
    XorTagSelf(a.pair0);
    XorTagSelf(a.pair1);
  }

  lemma MixCommutes(a: GState, b: GState)
    ensures Mix(a, b) == Mix(b, a)
  {
    hide XorTag;
    XorTagCommutes(a.tag, b.tag);
    XorTagCommutes(a.pair0, b.pair0);
    XorTagCommutes(a.pair1, b.pair1);
  }

  lemma MixAssociates(a: GState, b: GState, c: GState)
    ensures Mix(Mix(a, b), c) == Mix(a, Mix(b, c))
  {
    hide XorTag;
    XorTagAssociates(a.tag, b.tag, c.tag);
    XorTagAssociates(a.pair0, b.pair0, c.pair0);
    XorTagAssociates(a.pair1, b.pair1, c.pair1);
  }

  lemma DiskTagXor(a: Word, b: Word)
    ensures DiskTag(XorTag(a, b)) == XorTag(DiskTag(a), DiskTag(b))
  {
  }

  lemma MaskedMix(a: GState, b: GState)
    ensures Masked(Mix(a, b)) == Mix(Masked(a), Masked(b))
  {
    hide XorTag, DiskTag;
    DiskTagXor(a.tag, b.tag);
  }

  lemma DiskTagTwice(a: Word)
    ensures DiskTag(DiskTag(a)) == DiskTag(a)
  {
  }

  lemma MaskedMasked(a: GState)
    ensures Masked(Masked(a)) == Masked(a)
  {
    hide DiskTag;
    DiskTagTwice(a.tag);
  }

  // ---------------------------------------------------------------- records in the log

  function Encode(g: GState): (r: seq<bv8>)
    ensures |r| == 12
  {
    Le32(g.tag.bits) + Le32(g.pair0.bits) + Le32(g.pair1.bits)
  }

  function Decode(d: seq<bv8>): GState
  {
    if |d| == 12 then GState(Word(LeWord(d[..4])), Word(LeWord(d[4..8])), Word(LeWord(d[8..]))) else ZERO
  }

  lemma DecodeEncode(g: GState)
    ensures Decode(Encode(g)) == g
  {
    hide Le32, LeWord;
    LeRoundTrip(g.tag.bits);
    LeRoundTrip(g.pair0.bits);
    LeRoundTrip(g.pair1.bits);
    var d := Encode(g);
    assert d[..4] == Le32(g.tag.bits) && d[4..8] == Le32(g.pair0.bits) && d[8..] == Le32(g.pair1.bits);
  }

  /** On disk a record is its tag and the two blocks of its pair, little-endian. */
  lemma DecodeBytes(tag: bv32, b0: bv32, b1: bv32)
    ensures Decode(Le32(tag) + Le32(b0) + Le32(b1)) == GState(Word(tag), Word(b0), Word(b1))
  {
    hide Le32, LeWord;
    LeRoundTrip(tag);
    LeRoundTrip(b0);
    LeRoundTrip(b1);
    var d := Le32(tag) + Le32(b0) + Le32(b1);
    assert d[..4] == Le32(tag) && d[4..8] == Le32(b0) && d[8..] == Le32(b1);
  }

  function MoveStateRec(g: GState): Rec { Rec(Tag(TYPE_MOVESTATE, 0x3ff, 12), Encode(g)) }

  /** The record a pair's log carries: its newest movestate tag, or nothing. */
  function RecordOf(log: seq<Rec>): GState
  {
    match NewestGlobal(log, TYPE_MOVESTATE)
    case None => ZERO
    case Some(r) => Decode(r.data)
  }

  lemma RecordAppended(log: seq<Rec>, g: GState)
    ensures RecordOf(log + [MoveStateRec(g)]) == g
  {
    hide Encode, Decode;
    DecodeEncode(g);
    assert (log + [MoveStateRec(g)])[|log|] == MoveStateRec(g);
  }

  lemma {:induction false} RecordUnchanged(log: seq<Rec>, more: seq<Rec>)
    requires forall i :: 0 <= i < |more| ==> more[i].tag.ty != TYPE_MOVESTATE
    ensures RecordOf(log + more) == RecordOf(log)
  {
    hide Decode;
    if more == [] {
      assert log + more == log;
    } else {
      var front := more[..|more| - 1];
      assert (log + more)[..|log + more| - 1] == log + front;
      RecordUnchanged(log, front);
    }
  }

  /** The checksum tag a commit ends in; for the directory it only matters that it is one. */
  const SEAL: Rec := Rec(Tag(0x500, 0x3ff, 4), [0, 0, 0, 0])

  /** What follows a commit's attributes: a record if there is one to write, and the seal. */
  function Ending(noted: bool, g: GState): seq<Rec> { (if noted then [MoveStateRec(g)] else []) + [SEAL] }

  lemma EndingRecord(log: seq<Rec>, noted: bool, g: GState)
    ensures RecordOf(log + Ending(noted, g)) == if noted then g else RecordOf(log)
  {
    hide RecordOf, MoveStateRec;
    if noted {
      RecordAppended(log, g);
      RecordUnchanged(log + [MoveStateRec(g)], [SEAL]);
      assert log + Ending(noted, g) == log + [MoveStateRec(g)] + [SEAL];
    } else {
      RecordUnchanged(log, [SEAL]);
      assert Ending(noted, g) == [SEAL];
    }
  }

  // ---------------------------------------------------------------- the sum over the tail list

  function Sum(logs: seq<seq<Rec>>): GState
  {
    if logs == [] then ZERO else Mix(Sum(logs[..|logs| - 1]), RecordOf(logs[|logs| - 1]))
  }

  lemma {:induction false} SumUpdate(logs: seq<seq<Rec>>, i: nat, log: seq<Rec>, delta: GState)
    requires i < |logs| && RecordOf(log) == Mix(RecordOf(logs[i]), delta)
    ensures Sum(logs[i := log]) == Mix(Sum(logs), delta)
  {
    hide Mix, RecordOf;
    var n := |logs| - 1;
    var front := logs[..n];
    if i == n {
      assert logs[i := log][..n] == front;
      MixAssociates(Sum(front), RecordOf(logs[n]), delta);
    } else {
      assert logs[i := log][..n] == front[i := log];
      SumUpdate(front, i, log, delta);
      MixAssociates(Sum(front), delta, RecordOf(logs[n]));
      MixCommutes(delta, RecordOf(logs[n]));
      MixAssociates(Sum(front), RecordOf(logs[n]), delta);
    }
  }

  lemma {:induction false} SumInsert(logs: seq<seq<Rec>>, i: nat, log: seq<Rec>)
    requires i <= |logs|
    ensures Sum(logs[..i] + [log] + logs[i..]) == Mix(Sum(logs), RecordOf(log))
  {
    hide Mix, RecordOf;
    var more := logs[..i] + [log] + logs[i..];
    if i == |logs| {
      assert more[..|logs|] == logs;
    } else {
      var n := |logs| - 1;
      var front, last := logs[..n], RecordOf(logs[n]);
      assert more[..|logs|] == front[..i] + [log] + front[i..];
      SumInsert(front, i, log);
      MixAssociates(Sum(front), RecordOf(log), last);
      MixCommutes(RecordOf(log), last);
      MixAssociates(Sum(front), last, RecordOf(log));
    }
  }

  lemma {:induction false} SumConcat(a: seq<seq<Rec>>, b: seq<seq<Rec>>)
    ensures Sum(a + b) == Mix(Sum(a), Sum(b))
  {
    hide Mix, RecordOf;
    if b == [] {
      assert a + b == a;
      MixZero(Sum(a));
    } else {
      var n := |b| - 1;
      assert (a + b)[..|a| + n] == a + b[..n];
      SumConcat(a, b[..n]);
      MixAssociates(Sum(a), Sum(b[..n]), RecordOf(b[n]));
    }
  }

  lemma SumOne(log: seq<Rec>)
    ensures Sum([log]) == RecordOf(log)
  {
    hide Mix, RecordOf;
    assert [log][..0] == [];
    MixZero(RecordOf(log));
  }

  /** Logs put into a list add their records. */
  lemma SumSpliced(logs: seq<seq<Rec>>, i: nat, more: seq<seq<Rec>>)
    requires i <= |logs|
    ensures Sum(logs[..i] + more + logs[i..]) == Mix(Sum(logs), Sum(more))
  {
    hide Mix, RecordOf, Sum;
    var a, b := logs[..i], logs[i..];
    SumConcat(a + more, b);
    SumConcat(a, more);
    SumConcat(a, b);
    assert a + b == logs;
    MixAssociates(Sum(a), Sum(more), Sum(b));
    MixCommutes(Sum(more), Sum(b));
    MixAssociates(Sum(a), Sum(b), Sum(more));
  }

  lemma SumRemove(logs: seq<seq<Rec>>, i: nat)
    requires i < |logs|
    ensures Sum(logs) == Mix(Sum(logs[..i] + logs[i + 1..]), RecordOf(logs[i]))
  {
    hide Mix, RecordOf, Sum;
    var rest := logs[..i] + logs[i + 1..];
    assert rest[..i] + [logs[i]] + rest[i..] == logs;
    SumInsert(rest, i, logs[i]);
  }

  // ---------------------------------------------------------------- the commit arithmetic

  /** What a commit that publishes the in-memory state adds to its pair's record. */
  function Delta(gstate: GState, gdisk: GState, gdelta: GState): GState
  {
    Masked(Mix(Mix(gstate, gdisk), gdelta))
  }

  /** Adding that difference turns the sum into the published state. */
  lemma DeltaPublishes(sum: GState, gstate: GState, gdisk: GState, gdelta: GState)
    requires Masked(sum) == Masked(Mix(gdisk, gdelta))
    ensures Masked(Mix(sum, Delta(gstate, gdisk, gdelta))) == Masked(gstate)
  {
    hide Mix, Masked;
    var x := Mix(gdisk, gdelta);
    MixAssociates(gstate, gdisk, gdelta);
    MaskedMix(sum, Delta(gstate, gdisk, gdelta));
    MaskedMasked(Mix(gstate, x));
    MaskedMix(gstate, x);
    MixCommutes(Masked(gstate), Masked(x));
    MixAssociates(Masked(x), Masked(x), Masked(gstate));
    MixSelf(Masked(x));
    MixZero(Masked(gstate));
  }

  /** A relocating compaction only folds in what was stolen, and leaves the disk state as it was. */
  lemma DeltaFolds(sum: GState, gdisk: GState, gdelta: GState)
    requires Masked(sum) == Masked(Mix(gdisk, gdelta))
    ensures Masked(Mix(sum, Masked(gdelta))) == Masked(gdisk)
  {
    hide Mix, Masked;
    MaskedMix(sum, Masked(gdelta));
    MaskedMasked(gdelta);
    MaskedMix(gdisk, gdelta);
    MixAssociates(Masked(gdisk), Masked(gdelta), Masked(gdelta));
    MixSelf(Masked(gdelta));
    MixZero(Masked(gdisk));
  }

  predicate NoRecords(recs: seq<Rec>)
  {
    forall i :: 0 <= i < |recs| ==> recs[i].tag.ty != TYPE_MOVESTATE
  }

  /** Every record on disk has its in-memory bits clear. */
  predicate RecordsMasked(logs: seq<seq<Rec>>)
  {
    forall i :: 0 <= i < |logs| ==> Masked(RecordOf(logs[i])) == RecordOf(logs[i])
  }

  lemma {:induction false} SumMasked(logs: seq<seq<Rec>>)
    requires RecordsMasked(logs)
    ensures Masked(Sum(logs)) == Sum(logs)
  {
    hide Mix, RecordOf;
    if logs == [] {
      assert Masked(ZERO) == ZERO;
    } else {
      hide Masked;
      SumMasked(logs[..|logs| - 1]);
      MaskedMix(Sum(logs[..|logs| - 1]), RecordOf(logs[|logs| - 1]));
    }
  }

  lemma MaskedSumOfMasked(a: GState, b: GState)
    requires Masked(a) == a
    ensures Masked(Mix(a, Masked(b))) == Mix(a, Masked(b))
  {
    hide Mix, Masked;
    MaskedMix(a, Masked(b));
    MaskedMasked(b);
  }

  lemma RecordOfPlain(recs: seq<Rec>)
    requires NoRecords(recs)
    ensures RecordOf(recs) == ZERO
  {
    assert [] + recs == recs;
    RecordUnchanged([], recs);
  }

  /** The orphan count restarts at one when the flag on disk says there are orphans. */
  function Counted(w: Word): Word { if TagWord.Valid(w) then w else Word(w.bits + 1) }

  lemma CountedOnDisk(w: Word)
    requires DiskTag(w) == w
    ensures DiskTag(Counted(w)) == w
  {
  }

  /** As the valid bit is stored inverted, bit 31 is the flag, and the low ten bits are the count. */
  lemma CountedBits(w: Word)
    requires DiskTag(w) == w
    ensures Counted(w).bits & 0x3ff == if w.bits & 0x8000_0000 != 0 then 1 else 0
  {
  }

  // ---------------------------------------------------------------- the file system's copy

  /** `log` is `front` with what ends a commit behind it. */
  ghost predicate Ended(log: seq<Rec>, front: seq<Rec>) { exists noted, g :: log == front + Ending(noted, g) }

  /** How a commit reaches its pair. */
  datatype CommitKind = Appended | Rewritten | Relocated

  lemma NoTails(logs: seq<seq<Rec>>)
    ensures Mix(Sum(logs), Sum([])) == Sum(logs) && RecordsMasked([])
  {
    hide Mix;
    MixZero(Sum(logs));
  }

  /** A new tail publishes the pending change with its record. */
  lemma TailWritten(logs: seq<seq<Rec>>, tails: seq<seq<Rec>>, tail: seq<Rec>, delta: GState,
                    gstate: GState, gdisk: GState, gdelta: GState)
    requires Masked(Mix(Sum(logs), Sum(tails))) == Masked(Mix(gdisk, gdelta)) && RecordsMasked(tails)
    requires delta == Delta(gstate, gdisk, gdelta) && RecordOf(tail) == delta
    ensures Masked(Mix(Sum(logs), Sum([tail] + tails))) == Masked(gstate) && RecordsMasked([tail] + tails)
  {
    hide Mix, Masked, Sum, RecordOf;
    SumConcat([tail], tails);
    SumOne(tail);
    MixCommutes(delta, Sum(tails));
    MixAssociates(Sum(logs), Sum(tails), delta);
    DeltaPublishes(Mix(Sum(logs), Sum(tails)), gstate, gdisk, gdelta);
    MaskedMasked(Mix(Mix(gstate, gdisk), gdelta));
  }

  /** The front pair publishes what is left, and its tails join the list. */
  lemma FrontWritten(logs: seq<seq<Rec>>, i: nat, log: seq<Rec>, tails: seq<seq<Rec>>, delta: GState,
                     gstate: GState, gdisk: GState, gdelta: GState)
    requires i < |logs| && RecordsMasked(logs) && RecordsMasked(tails)
    requires Masked(Mix(Sum(logs), Sum(tails))) == Masked(Mix(gdisk, gdelta))
    requires delta == Delta(gstate, gdisk, gdelta) && RecordOf(log) == Mix(RecordOf(logs[i]), delta)
    ensures var after := logs[i := log];
            Masked(Sum(after[..i + 1] + tails + after[i + 1..])) == Masked(gstate)
            && RecordsMasked(after[..i + 1] + tails + after[i + 1..])
  {
    hide Mix, Masked, Sum, RecordOf;
    var after := logs[i := log];
    SumUpdate(logs, i, log, delta);
    SumSpliced(after, i + 1, tails);
    MixAssociates(Sum(logs), delta, Sum(tails));
    MixCommutes(delta, Sum(tails));
    MixAssociates(Sum(logs), Sum(tails), delta);
    DeltaPublishes(Mix(Sum(logs), Sum(tails)), gstate, gdisk, gdelta);
    MaskedSumOfMasked(RecordOf(logs[i]), Mix(Mix(gstate, gdisk), gdelta));
  }

  /** The three global-state words of lfs_t, and the logs of the pairs on the tail list. */
  class FileSystem {
    var gstate: GState
    var gdisk: GState
    var gdelta: GState
    var logs: seq<seq<Rec>>

    /** Conservation: the records add up to what memory believes is on disk. */
    ghost predicate Conserved()
      reads this
    {
      Masked(Sum(logs)) == Masked(Mix(gdisk, gdelta)) && RecordsMasked(logs)
    }

    /** A commit appended to pair `i`: a record is written only if there is something to publish. */
    method AppendCommit(i: nat, recs: seq<Rec>)
      requires Conserved() && i < |logs| && NoRecords(recs)
      modifies this
      ensures Conserved() && gstate == gdisk == old(gstate) && gdelta == ZERO
      ensures |logs| == |old(logs)| && logs == old(logs)[i := logs[i]]
      ensures exists noted, g :: logs[i] == old(logs)[i] + recs + Ending(noted, g)
      ensures RecordOf(logs[i]) == Mix(RecordOf(old(logs)[i]), old(Delta(gstate, gdisk, gdelta)))
    {
      hide Mix, Masked, RecordOf, Sum, Ending;
      var delta := Delta(gstate, gdisk, gdelta);
      var g := Mix(RecordOf(logs[i]), delta);
      var log := logs[i] + recs + Ending(delta != ZERO, g);
      RecordUnchanged(logs[i], recs);
      EndingRecord(logs[i] + recs, delta != ZERO, g);
      MixZero(RecordOf(logs[i]));
      MaskedSumOfMasked(RecordOf(logs[i]), Mix(Mix(gstate, gdisk), gdelta));
      SumUpdate(logs, i, log, delta);
      DeltaPublishes(Sum(logs), gstate, gdisk, gdelta);
      logs := logs[i := log];
      gdisk, gdelta := gstate, ZERO;
      MixZero(gdisk);
    }

    /**
     A commit that rewrites pair `i` with the tags `recs`. If the pair had to be relocated, the
     parent's commit is still to come and the state is not published yet.
     */
    method RewriteCommit(i: nat, recs: seq<Rec>, relocated: bool)
      requires Conserved() && i < |logs| && NoRecords(recs)
      modifies this
      ensures Conserved() && gstate == old(gstate) && gdelta == ZERO
      ensures gdisk == if relocated then old(gdisk) else gstate
      ensures |logs| == |old(logs)| && logs == old(logs)[i := logs[i]]
      ensures exists noted, g :: logs[i] == recs + Ending(noted, g)
      ensures !relocated ==> RecordOf(logs[i]) == Mix(RecordOf(old(logs)[i]), old(Delta(gstate, gdisk, gdelta)))
    {
      hide Mix, Masked, RecordOf, Sum, Ending;
      var delta := if relocated then Masked(gdelta) else Delta(gstate, gdisk, gdelta);
      var g := Mix(RecordOf(logs[i]), delta);
      var log := recs + Ending(g != ZERO, g);
      RecordOfPlain(recs);
      EndingRecord(recs, g != ZERO, g);
      MaskedSumOfMasked(RecordOf(logs[i]), if relocated then gdelta else Mix(Mix(gstate, gdisk), gdelta));
      SumUpdate(logs, i, log, delta);
      if relocated {
        DeltaFolds(Sum(logs), gdisk, gdelta);
      } else {
        DeltaPublishes(Sum(logs), gstate, gdisk, gdelta);
        gdisk := gstate;
      }
      logs := logs[i := log];
      gdelta := ZERO;
      MixZero(gdisk);
    }

    /**
     A rewrite that splits pair `i` into `front` and the tails `backs`: the last tail is written
     first and takes the pending change, but the tails count only once the rewritten front pair
     links to them.
     */
    method SplitCommit(i: nat, front: seq<Rec>, backs: seq<seq<Rec>>)
      requires Conserved() && i < |logs| && NoRecords(front) && forall k :: 0 <= k < |backs| ==> NoRecords(backs[k])
      modifies this
      ensures Conserved() && gstate == gdisk == old(gstate) && gdelta == ZERO
      ensures |logs| == |old(logs)| + |backs|
      ensures logs[..i] == old(logs)[..i] && logs[i + 1 + |backs|..] == old(logs)[i + 1..]
      ensures exists noted, g :: logs[i] == front + Ending(noted, g)
      ensures forall k :: 0 <= k < |backs| ==> exists noted, g :: logs[i + 1 + k] == backs[k] + Ending(noted, g)
    {
      hide Mix, Masked, RecordOf, Sum, Ending, RecordsMasked;
      var tails := WriteTails(backs);
      // the front pair keeps its own record, changed by what is left to publish
      var delta := Delta(gstate, gdisk, gdelta);
      var g := Mix(RecordOf(logs[i]), delta);
      var log := front + Ending(g != ZERO, g);
      RecordOfPlain(front);
      EndingRecord(front, g != ZERO, g);
      FrontWritten(logs, i, log, tails, delta, gstate, gdisk, gdelta);
      logs := logs[i := log];
      gdisk, gdelta := gstate, ZERO;
      MixZero(gdisk);
      logs := logs[..i + 1] + tails + logs[i + 1..];
      assert logs[i] == log;
      assert forall k :: 0 <= k < |backs| ==> logs[i + 1 + k] == tails[k];
    }

    /** Writes the tails of a split, last one first; no list leads to them yet. */
    method WriteTails(backs: seq<seq<Rec>>) returns (tails: seq<seq<Rec>>)
      requires Conserved() && forall k :: 0 <= k < |backs| ==> NoRecords(backs[k])
      modifies this`gdisk, this`gdelta
      ensures |tails| == |backs| && RecordsMasked(tails)
      ensures Masked(Mix(Sum(logs), Sum(tails))) == Masked(Mix(gdisk, gdelta))
      ensures forall k :: 0 <= k < |backs| ==> Ended(tails[k], backs[k])
    {
      hide Mix, Masked, RecordOf, Sum, Ending, RecordsMasked;
      tails := [];
      NoTails(logs);
      var n := |backs|;
      while n > 0
        invariant 0 <= n <= |backs| && |tails| == |backs| - n && RecordsMasked(tails)
        invariant Masked(Mix(Sum(logs), Sum(tails))) == Masked(Mix(gdisk, gdelta))
        invariant forall k :: n <= k < |backs| ==> Ended(tails[k - n], backs[k])
      {
        n := n - 1;
        var delta := Delta(gstate, gdisk, gdelta);
        var tail := backs[n] + Ending(delta != ZERO, delta);
        RecordOfPlain(backs[n]);
        EndingRecord(backs[n], delta != ZERO, delta);
        TailWritten(logs, tails, tail, delta, gstate, gdisk, gdelta);
        assert Ended(tail, backs[n]);
        tails := [tail] + tails;
        gdisk, gdelta := gstate, ZERO;
        MixZero(gdisk);
      }
      assert n == 0;
      forall k | 0 <= k < |backs| ensures Ended(tails[k], backs[k]) { assert Ended(tails[k - n], backs[k]); }
    }

    /**
     Drops pair `i + 1` from the tail list: its record is stolen into memory, and the commit to
     its predecessor that unlinks it, whether appended or rewritten, writes the stolen part back.
     */
    method Drop(i: nat, recs: seq<Rec>, how: CommitKind)
      requires Conserved() && i + 1 < |logs| && NoRecords(recs)
      modifies this
      ensures Conserved() && gstate == old(gstate) && gdelta == ZERO
      ensures gdisk == if how == Relocated then old(gdisk) else gstate
      ensures |logs| == |old(logs)| - 1
      ensures logs == old(logs)[..i] + [logs[i]] + old(logs)[i + 2..]
      ensures exists noted, g :: logs[i] == (if how == Appended then old(logs)[i] + recs else recs) + Ending(noted, g)
    {
      hide Mix, Masked, RecordOf, Sum, Ending, RecordsMasked, NoRecords;
      var stolen := RecordOf(logs[i + 1]);
      Unlinked(logs, i + 1, gdisk, gdelta);
      gdelta := Mix(gdelta, stolen);
      logs := logs[..i + 1] + logs[i + 2..];
      if how == Appended { AppendCommit(i, recs); } else { RewriteCommit(i, recs, how == Relocated); }
    }

    /** Reads the state back: the sum of all records, with a fresh orphan count. */
    method Mount()
      requires RecordsMasked(logs)
      modifies this
      ensures gdisk == gstate && gdelta == ZERO && logs == old(logs)
      ensures Masked(gstate) == Sum(logs) && Conserved()
      ensures gstate.tag.bits & 0x3ff == if Sum(logs).tag.bits & 0x8000_0000 != 0 then 1 else 0
    {
      hide Mix, RecordOf;
      var g := ZERO;
      for k := 0 to |logs|
        invariant g == Sum(logs[..k])
      {
        assert logs[..k + 1][..k] == logs[..k];
        g := Mix(g, RecordOf(logs[k]));
      }
      assert logs[..|logs|] == logs;
      SumMasked(logs);
      CountedOnDisk(g.tag);
      CountedBits(g.tag);
      gstate := g.(tag := Counted(g.tag));
      gdisk, gdelta := gstate, ZERO;
      MixZero(gdisk);
    }
  }

  /** Memory takes over the record of a log that leaves the list. */
  lemma Unlinked(logs: seq<seq<Rec>>, i: nat, gdisk: GState, gdelta: GState)
    requires i < |logs| && Masked(Sum(logs)) == Masked(Mix(gdisk, gdelta)) && RecordsMasked(logs)
    ensures var rest := logs[..i] + logs[i + 1..];
            Masked(Sum(rest)) == Masked(Mix(gdisk, Mix(gdelta, RecordOf(logs[i])))) && RecordsMasked(rest)
  {
    hide Mix, Masked, RecordOf, Sum;
    SumRemove(logs, i);
    Stolen(Sum(logs), Sum(logs[..i] + logs[i + 1..]), gdisk, gdelta, RecordOf(logs[i]));
  }

  lemma Stolen(sum: GState, rest: GState, gdisk: GState, gdelta: GState, stolen: GState)
    requires sum == Mix(rest, stolen) && Masked(sum) == Masked(Mix(gdisk, gdelta))
    ensures Masked(rest) == Masked(Mix(gdisk, Mix(gdelta, stolen)))
  {
    hide Mix, Masked;
    MixAssociates(rest, stolen, stolen);
    MixSelf(stolen);
    MixZero(rest);
    MixAssociates(gdisk, gdelta, stolen);
    MaskedMix(sum, stolen);
    MaskedMix(Mix(gdisk, gdelta), stolen);
  }

  /** Mounting after any commit recovers what that commit published, up to the in-memory bits. */
  lemma MountRecovers(logs: seq<seq<Rec>>, gdisk: GState)
    requires Masked(Sum(logs)) == Masked(Mix(gdisk, ZERO)) && RecordsMasked(logs)
    ensures Sum(logs) == Masked(gdisk)
  {
    hide Mix, Masked, Sum;
    MixZero(gdisk);
    SumMasked(logs);
  }
}
