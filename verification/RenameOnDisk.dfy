/**
 Power loss during a rename. The disk is the blocks of all metadata pairs; what a mount reads is
 what fetching every pair finds. Wherever power fails in either commit of a rename, programmed in
 part or torn, appended or rewritten, the entry is read at exactly one place.
 */
module RenameOnDisk {
  import opened Common
  import opened Compaction
  import opened DirCommit
  import opened DirLog
  import opened DiskCommit
  import opened GlobalState
  import opened MetadataPair
  import opened PowerLoss
  import opened Rename

  // ---------------------------------------------------------------- what a mount reads

  type Disk = seq<Blocks>

  predicate Mountable(disk: Disk, unit: nat) { forall p :: 0 <= p < |disk| ==> Fetchable(disk[p], unit) }

  /** The logs a mount fetches. */
  function LogsOn(disk: Disk, unit: nat): (d: seq<seq<Rec>>)
    requires Mountable(disk, unit)
    ensures |d| == |disk| && forall p :: 0 <= p < |disk| ==> d[p] == LogOn(disk[p], unit)
  {
    seq(|disk|, p requires 0 <= p < |disk| => LogOn(disk[p], unit))
  }

  /** Each pair holds what means the same as its log in `d`. */
  ghost predicate HoldsAll(disk: Disk, unit: nat, d: seq<seq<Rec>>)
  {
    |disk| == |d| && forall p :: 0 <= p < |disk| ==> Holds(disk[p], unit, d[p])
  }

  /** Every lookup on the mounted disk answers as it would on the logs `d`. */
  ghost predicate ReadsAs(disk: Disk, unit: nat, pairs: seq<Pair>, d: seq<seq<Rec>>)
  {
    && Mountable(disk, unit) && |disk| == |d| == |pairs|
    && forall p, want, id :: 0 <= p < |d| && 0 <= want && 0 <= id && IsAttr(want) ==>
         ReadBack(LogsOn(disk, unit), pairs, p, want, id) == ReadBack(d, pairs, p, want, id)
  }

  /** Logs that mean the same carry the same records. */
  lemma {:induction false} SameSum(f: seq<seq<Rec>>, d: seq<seq<Rec>>)
    requires |f| == |d| && forall p :: 0 <= p < |d| ==> Means(f[p], d[p])
    ensures Sum(f) == Sum(d)
  {
    hide Replay, WellFormed, Mix, RecordOf, Get;
    if d != [] { SameSum(f[..|f| - 1], d[..|d| - 1]); }
  }

  /** A lookup in terms of what it can see of its log. */
  lemma ReadsLog(d: seq<seq<Rec>>, pairs: seq<Pair>, p: nat, want: nat, id: nat)
    requires p < |d| == |pairs| && WellFormed(d[p]) && IsAttr(want)
    ensures ReadBack(d, pairs, p, want, id) ==
            Get(Replay(d[p]), KeyMask(want), want, StartId(HiddenIn(Sum(d), pairs[p]), id))
  {
    hide Replay, WellFormed, Sum, HiddenIn, Lookup, Get;
    ReaderSees(d[p], HiddenIn(Sum(d), pairs[p]), want, id);
  }

  /** A reader cannot tell logs that mean the same apart. */
  lemma HoldsReads(disk: Disk, unit: nat, pairs: seq<Pair>, d: seq<seq<Rec>>)
    requires HoldsAll(disk, unit, d) && |pairs| == |d| && forall p :: 0 <= p < |d| ==> WellFormed(d[p])
    ensures ReadsAs(disk, unit, pairs, d)
  {
    hide Replay, WellFormed, FetchPair, Sum, HiddenIn, Lookup, LogOn, RecordOf, Get, ReadBack;
    var f := LogsOn(disk, unit);
    forall p | 0 <= p < |d| ensures Means(f[p], d[p]) { assert Holds(disk[p], unit, d[p]); }
    SameSum(f, d);
    forall p, want, id | 0 <= p < |d| && 0 <= want && 0 <= id && IsAttr(want)
      ensures ReadBack(f, pairs, p, want, id) == ReadBack(d, pairs, p, want, id)
    {
      assert Means(f[p], d[p]);
      ReadsLog(f, pairs, p, want, id);
      ReadsLog(d, pairs, p, want, id);
    }
  }

  // ---------------------------------------------------------------- a rename's two commits

  /**
   A rename on a disk: `d0` is what a mount finds before it; `c1` is the commit on the target pair
   and `c2` the one on the source pair, and what they write means `d1` and `d2`.
   */
  datatype Renaming = Renaming(disk: Disk, unit: nat, pairs: seq<Pair>,
                               d0: seq<seq<Rec>>, d1: seq<seq<Rec>>, d2: seq<seq<Rec>>,
                               i: nat, oldId: bv10, j: nat, newId: nat, replace: bool, name: Value,
                               c1: PairCommit, c2: PairCommit)
  {
    ghost predicate Runs() { RenameRun(d0, d1, d2, pairs, i, oldId, j, newId, replace, name) }

    ghost predicate Valid()
    {
      && Runs() && Mountable(disk, unit) && |disk| == |d0| && LogsOn(disk, unit) == d0
      && c1.Valid(unit) && c1.Before() == disk[j] && Means(c1.NewLog(), d1[j]) && Means(c1.TriedLog(), d1[j])
      && c2.Valid(unit) && c2.Before() == disk[i] && Means(c2.NewLog(), d2[i]) && Means(c2.TriedLog(), d2[i])
    }

    /** The disk while the first commit is being made, with the target pair as `b`. */
    function InFirst(b: Blocks): Disk
      requires j < |disk|
    {
      disk[j := b]
    }

    /** The disk while the second is, with the target pair as `a` and the source pair as `b`. */
    function InSecond(a: Blocks, b: Blocks): Disk
      requires i < |disk| && j < |disk|
    {
      disk[j := a][i := b]
    }

    /**
     The target pair as the second commit finds it: the first has been finished, or it has been cut
     off where a mount finds it done, and it is recovery that makes the second.
     */
    ghost predicate Filled(a: Blocks)
    {
      a == c1.After() || (c1.CrashImage(unit, a) && j < |d1| && Holds(a, unit, d1[j]))
    }

    /** A disk a power loss somewhere in the rename can leave behind. */
    ghost predicate CutOff(x: Disk)
      requires Valid()
    {
      Parts();
      || (exists b :: c1.CrashImage(unit, b) && x == InFirst(b))
      || (exists a, b :: Filled(a) && c2.CrashImage(unit, b) && x == InSecond(a, b))
    }

    /** What the other lemmas need of the logs. */
    lemma Parts()
      requires Runs()
      ensures i < |d0| == |d1| == |d2| == |pairs| && j < |d0| && i != j
      ensures d1 == d0[j := d1[j]] && d2 == d1[i := d2[i]] && d1[i] == d0[i]
      ensures forall p :: 0 <= p < |d0| ==> WellFormed(d0[p]) && WellFormed(d1[p]) && WellFormed(d2[p])
    {
      hide Sum, Masked, PrepMove, PrepNoMove, StoredLog, MovedValues, RenameRecs, ApplyAll, Apply, Replay, WellFormed;
    }
  }

  /** Logs that differ in one pair are held when that pair is held and the rest was there before. */
  lemma HoldsUpdated(disk: Disk, unit: nat, d: seq<seq<Rec>>, e: seq<seq<Rec>>, p: nat, b: Blocks)
    requires HoldsAll(disk, unit, d) && p < |d| == |e| && e == d[p := e[p]] && Holds(b, unit, e[p])
    ensures HoldsAll(disk[p := b], unit, e)
  {
    hide Holds;
  }

  lemma HoldsBefore(disk: Disk, unit: nat)
    requires Mountable(disk, unit)
    ensures HoldsAll(disk, unit, LogsOn(disk, unit))
  {
    hide LogOn, Means, Fetchable;
    forall p | 0 <= p < |disk| ensures Holds(disk[p], unit, LogsOn(disk, unit)[p]) {
      MeansItself(LogOn(disk[p], unit));
    }
  }

  lemma HoldsLike(b: Blocks, unit: nat, log: seq<Rec>, like: seq<Rec>)
    requires Holds(b, unit, log) && Means(log, like)
    ensures Holds(b, unit, like)
  {
    hide Means, LogOn, Fetchable;
    MeansOn(LogOn(b, unit), log, like);
  }

  lemma FindsHolds(b: Blocks, unit: nat, log: seq<Rec>)
    requires Finds(b, unit, log)
    ensures Holds(b, unit, log)
  {
    MeansItself(log);
  }

  /** The facts about a rename's commits, one by one. */
  lemma Commits(r: Renaming)
    requires r.Valid()
    ensures r.Runs() && r.j < |r.disk| && r.i < |r.disk| && |r.disk| == |r.d0|
    ensures r.c1.Valid(r.unit) && r.c2.Valid(r.unit) && HoldsAll(r.disk, r.unit, r.d0)
    ensures r.j < |r.d0| == |r.d1| == |r.d2| && r.i < |r.d0| && r.c1.OldLog() == r.d0[r.j] && r.c2.OldLog() == r.d0[r.i]
    ensures Means(r.c1.NewLog(), r.d1[r.j]) && Means(r.c1.TriedLog(), r.d1[r.j])
    ensures Means(r.c2.NewLog(), r.d2[r.i]) && Means(r.c2.TriedLog(), r.d2[r.i])
  {
    hide RenameRun, Means, Appends, Rewrites, Abandons, FetchOf, FetchPair, FoundIn, TornBegun;
    r.Parts();
    HoldsBefore(r.disk, r.unit);
    BeforeHolds(r.c1, r.unit);
    BeforeHolds(r.c2, r.unit);
  }

  /** A commit cut off leaves its pair holding what it started from or what it leads to. */
  lemma CutOffHolds(c: PairCommit, unit: nat, b: Blocks, before: seq<Rec>, after: seq<Rec>)
    requires c.Valid(unit) && (c.CrashImage(unit, b) || b == c.After())
    requires Means(c.OldLog(), before) && Means(c.NewLog(), after) && Means(c.TriedLog(), after)
    ensures Holds(b, unit, before) || Holds(b, unit, after)
    ensures b == c.After() ==> Holds(b, unit, after)
  {
    hide *;
    AfterHolds(c, unit);
    if b != c.After() { CrashHolds(c, unit, b); }
    if Finds(b, unit, c.OldLog()) {
      FindsHolds(b, unit, c.OldLog());
      HoldsLike(b, unit, c.OldLog(), before);
    }
    if Holds(b, unit, c.NewLog()) { HoldsLike(b, unit, c.NewLog(), after); }
    if Holds(b, unit, c.TriedLog()) { HoldsLike(b, unit, c.TriedLog(), after); }
  }

  lemma Disks(r: Renaming, a: Blocks, b: Blocks)
    requires r.i < |r.disk| && r.j < |r.disk|
    ensures r.InFirst(b) == r.disk[r.j := b] && r.InSecond(a, b) == r.disk[r.j := a][r.i := b]
    ensures r.InSecond(a, b) == r.InFirst(a)[r.i := b]
  {
  }

  lemma FilledIs(r: Renaming, a: Blocks)
    requires r.Filled(a)
    ensures a == r.c1.After() || (r.c1.CrashImage(r.unit, a) && r.j < |r.d1| && Holds(a, r.unit, r.d1[r.j]))
  {
    hide PairCommit.CrashImage, PairCommit.After, Holds;
  }

  lemma HeldAt(x: Disk, unit: nat, d: seq<seq<Rec>>, p: nat)
    requires HoldsAll(x, unit, d) && p < |d|
    ensures |x| == |d| && Mountable(x, unit) && Holds(x[p], unit, d[p]) && Means(LogsOn(x, unit)[p], d[p])
  {
    hide Means, LogOn, Fetchable;
    assert Holds(x[p], unit, d[p]);
    forall q | 0 <= q < |x| ensures Fetchable(x[q], unit) { assert Holds(x[q], unit, d[q]); }
  }

  /** In the first commit the disk holds what it held before, or what it holds between the two. */
  lemma FirstHolds(r: Renaming, b: Blocks)
    requires r.Valid() && (r.c1.CrashImage(r.unit, b) || b == r.c1.After())
    ensures r.j < |r.disk|
    ensures HoldsAll(r.InFirst(b), r.unit, r.d0) || HoldsAll(r.InFirst(b), r.unit, r.d1)
    ensures r.Filled(b) ==> HoldsAll(r.InFirst(b), r.unit, r.d1)
  {
    hide *;
    Commits(r);
    r.Parts();
    if r.Filled(b) { FilledIs(r, b); }
    Disks(r, b, b);
    MeansItself(r.d0[r.j]);
    CutOffHolds(r.c1, r.unit, b, r.d0[r.j], r.d1[r.j]);
    if Holds(b, r.unit, r.d0[r.j]) { HoldsUpdated(r.disk, r.unit, r.d0, r.d0, r.j, b); }
    if Holds(b, r.unit, r.d1[r.j]) { HoldsUpdated(r.disk, r.unit, r.d0, r.d1, r.j, b); }
  }

  /** In the second what it holds between the two, or what it holds after both. */
  lemma SecondHolds(r: Renaming, a: Blocks, b: Blocks)
    requires r.Valid() && r.Filled(a) && (r.c2.CrashImage(r.unit, b) || b == r.c2.After())
    ensures r.i < |r.disk| && r.j < |r.disk|
    ensures HoldsAll(r.InSecond(a, b), r.unit, r.d1) || HoldsAll(r.InSecond(a, b), r.unit, r.d2)
    ensures b == r.c2.After() ==> HoldsAll(r.InSecond(a, b), r.unit, r.d2)
  {
    hide *;
    Commits(r);
    r.Parts();
    FilledIs(r, a);
    Disks(r, a, b);
    FirstHolds(r, a);
    MeansItself(r.d0[r.i]);
    CutOffHolds(r.c2, r.unit, b, r.d0[r.i], r.d2[r.i]);
    var mid := r.InFirst(a);
    if Holds(b, r.unit, r.d0[r.i]) { HoldsUpdated(mid, r.unit, r.d1, r.d1, r.i, b); }
    if Holds(b, r.unit, r.d2[r.i]) { HoldsUpdated(mid, r.unit, r.d1, r.d2, r.i, b); }
  }

  /** Power loss in the first commit: a mount reads the disk before it, or the one between the two. */
  lemma PowerLossInFirst(r: Renaming, b: Blocks)
    requires r.Valid() && r.c1.CrashImage(r.unit, b)
    ensures r.j < |r.disk|
    ensures ReadsAs(r.InFirst(b), r.unit, r.pairs, r.d0) || ReadsAs(r.InFirst(b), r.unit, r.pairs, r.d1)
  {
    hide *;
    Commits(r);
    r.Parts();
    FirstHolds(r, b);
    if HoldsAll(r.InFirst(b), r.unit, r.d0) {
      HoldsReads(r.InFirst(b), r.unit, r.pairs, r.d0);
    } else {
      HoldsReads(r.InFirst(b), r.unit, r.pairs, r.d1);
    }
  }

  /** Power loss in the second: a mount reads the disk between the two, or the one after both. */
  lemma PowerLossInSecond(r: Renaming, a: Blocks, b: Blocks)
    requires r.Valid() && r.Filled(a) && r.c2.CrashImage(r.unit, b)
    ensures r.i < |r.disk| && r.j < |r.disk|
    ensures ReadsAs(r.InSecond(a, b), r.unit, r.pairs, r.d1) || ReadsAs(r.InSecond(a, b), r.unit, r.pairs, r.d2)
  {
    hide *;
    Commits(r);
    r.Parts();
    SecondHolds(r, a, b);
    if HoldsAll(r.InSecond(a, b), r.unit, r.d1) {
      HoldsReads(r.InSecond(a, b), r.unit, r.pairs, r.d1);
    } else {
      HoldsReads(r.InSecond(a, b), r.unit, r.pairs, r.d2);
    }
  }

  // ---------------------------------------------------------------- at exactly one place

  /** In the logs `f` the entry is at its new place, with the new name and every other attribute of the old. */
  ghost predicate AtNewPlace(f: seq<seq<Rec>>, r: Renaming)
    requires r.j < |f| == |r.pairs| == |r.d0| && r.i < |f|
  {
    forall want :: 0 <= want && IsAttr(want) ==>
      ReadBack(f, r.pairs, r.j, want, r.newId) ==
      if Type1(want) == TYPE_NAME then Some(r.name) else ReadBack(r.d0, r.pairs, r.i, want, r.oldId as nat)
  }

  /** The old directory answers as if the entry were deleted. */
  ghost predicate NotAtOldPlace(f: seq<seq<Rec>>, r: Renaming)
    requires r.i < |f| == |r.pairs| == |r.d0|
  {
    forall want, id :: 0 <= want && IsAttr(want) && 0 <= id ==>
      ReadBack(f, r.pairs, r.i, want, id) ==
        ReadBack(r.d0, r.pairs, r.i, want, if r.oldId as nat <= id then id + 1 else id)
  }

  /** Every other id of the target directory but a replaced one answers as before, also past its end. */
  ghost predicate TargetKept(f: seq<seq<Rec>>, r: Renaming)
    requires r.j < |f| == |r.pairs| == |r.d0|
  {
    forall want, id :: 0 <= want && IsAttr(want) && 0 <= id && !(r.replace && id == r.newId) ==>
      ReadBack(f, r.pairs, r.j, want, ShiftedId(id, r.newId, r.replace)) == ReadBack(r.d0, r.pairs, r.j, want, id)
  }

  /** No other directory has changed. */
  ghost predicate ElsewhereKept(f: seq<seq<Rec>>, r: Renaming)
    requires |f| == |r.pairs| == |r.d0|
  {
    forall p, want, id :: 0 <= p < |f| && p != r.i && p != r.j && 0 <= want && IsAttr(want) && 0 <= id ==>
      ReadBack(f, r.pairs, p, want, id) == ReadBack(r.d0, r.pairs, p, want, id)
  }

  function ShiftedId(id: nat, newId: nat, replace: bool): nat { if id < newId || replace then id else id + 1 }

  /** The entry is at its new place only. */
  ghost predicate OnlyAtNewPlace(x: Disk, r: Renaming)
    requires r.i < |r.d0| && r.j < |r.d0| == |r.pairs|
  {
    && Mountable(x, r.unit) && |x| == |r.d0|
    && AtNewPlace(LogsOn(x, r.unit), r) && NotAtOldPlace(LogsOn(x, r.unit), r)
    && TargetKept(LogsOn(x, r.unit), r) && ElsewhereKept(LogsOn(x, r.unit), r)
  }

  /** A disk read as either of the later logs answers as the first of them. */
  lemma LaterRead(x: Disk, r: Renaming, p: nat, want: nat, id: nat)
    requires r.Runs() && (ReadsAs(x, r.unit, r.pairs, r.d1) || ReadsAs(x, r.unit, r.pairs, r.d2))
    requires IsAttr(want) && p < |r.d0|
    ensures |r.d0| == |r.d1| == |r.pairs| == |LogsOn(x, r.unit)| && r.i < |r.d0| && r.j < |r.d0|
    ensures ReadBack(LogsOn(x, r.unit), r.pairs, p, want, id) == ReadBack(r.d1, r.pairs, p, want, id)
    ensures p != r.i && p != r.j ==> ReadBack(r.d1, r.pairs, p, want, id) == ReadBack(r.d0, r.pairs, p, want, id)
  {
    r.Parts();
    hide RenameRun, ReadBack, Replay, IsAttr, Mountable, WellFormed;
    RenameIsAtomic(r.d0, r.d1, r.d2, r.pairs, r.i, r.oldId, r.j, r.newId, r.replace, r.name, p, want, id);
  }

  /** What reads as the disk between the commits, or after them, has the entry at its new place only. */
  lemma NewPlace(x: Disk, r: Renaming)
    requires r.Runs() && (ReadsAs(x, r.unit, r.pairs, r.d1) || ReadsAs(x, r.unit, r.pairs, r.d2))
    ensures r.i < |r.d0| && r.j < |r.d0| == |r.pairs| && OnlyAtNewPlace(x, r)
  {
    r.Parts();
    assert Mountable(x, r.unit) && |x| == |r.d0|;
    hide RenameRun, ReadsAs, ReadBack, Replay, IsAttr, Type1, Mountable, WellFormed, TargetKept, ElsewhereKept,
         NotAtOldPlace;
    var f := LogsOn(x, r.unit);
    forall want | 0 <= want && IsAttr(want)
      ensures ReadBack(f, r.pairs, r.j, want, r.newId) ==
              if Type1(want) == TYPE_NAME then Some(r.name) else ReadBack(r.d0, r.pairs, r.i, want, r.oldId as nat)
    {
      RenameFillsNew(r.d0, r.d1, r.d2, r.pairs, r.i, r.oldId, r.j, r.newId, r.replace, r.name, want);
      LaterRead(x, r, r.j, want, r.newId);
    }
    OldPlaceLeft(x, r, f);
    TargetIsKept(x, r, f);
    ElsewhereIsKept(x, r, f);
  }

  lemma OldPlaceLeft(x: Disk, r: Renaming, f: seq<seq<Rec>>)
    requires r.Runs() && (ReadsAs(x, r.unit, r.pairs, r.d1) || ReadsAs(x, r.unit, r.pairs, r.d2))
             && f == LogsOn(x, r.unit)
    ensures r.i < |f| == |r.pairs| == |r.d0| && NotAtOldPlace(f, r)
  {
    r.Parts();
    assert Mountable(x, r.unit) && |x| == |r.d0|;
    hide RenameRun, ReadsAs, ReadBack, Replay, IsAttr, Type1, Mountable, WellFormed;
    forall want, id | 0 <= want && IsAttr(want) && 0 <= id
      ensures ReadBack(f, r.pairs, r.i, want, id) ==
              ReadBack(r.d0, r.pairs, r.i, want, if r.oldId as nat <= id then id + 1 else id)
    {
      RenameVacatesOld(r.d0, r.d1, r.d2, r.pairs, r.i, r.oldId, r.j, r.newId, r.replace, r.name, want, id);
      LaterRead(x, r, r.i, want, id);
    }
  }

  lemma TargetIsKept(x: Disk, r: Renaming, f: seq<seq<Rec>>)
    requires r.Runs() && (ReadsAs(x, r.unit, r.pairs, r.d1) || ReadsAs(x, r.unit, r.pairs, r.d2))
             && f == LogsOn(x, r.unit)
    ensures r.j < |f| == |r.pairs| == |r.d0| && TargetKept(f, r)
  {
    r.Parts();
    assert Mountable(x, r.unit) && |x| == |r.d0|;
    hide RenameRun, ReadsAs, ReadBack, Replay, IsAttr, Type1, Mountable, WellFormed;
    forall want, id | 0 <= want && IsAttr(want) && 0 <= id && !(r.replace && id == r.newId)
      ensures ReadBack(f, r.pairs, r.j, want, ShiftedId(id, r.newId, r.replace)) ==
              ReadBack(r.d0, r.pairs, r.j, want, id)
    {
      RenameKeepsOthers(r.d0, r.d1, r.d2, r.pairs, r.i, r.oldId, r.j, r.newId, r.replace, r.name, want, id);
      LaterRead(x, r, r.j, want, ShiftedId(id, r.newId, r.replace));
    }
  }

  lemma ElsewhereIsKept(x: Disk, r: Renaming, f: seq<seq<Rec>>)
    requires r.Runs() && (ReadsAs(x, r.unit, r.pairs, r.d1) || ReadsAs(x, r.unit, r.pairs, r.d2))
             && f == LogsOn(x, r.unit)
    ensures |f| == |r.pairs| == |r.d0| && ElsewhereKept(f, r)
  {
    r.Parts();
    assert Mountable(x, r.unit) && |x| == |r.d0|;
    hide RenameRun, ReadsAs, ReadBack, Replay, IsAttr, Type1, Mountable, WellFormed;
    forall p, want, id | 0 <= p < |f| && p != r.i && p != r.j && 0 <= want && IsAttr(want) && 0 <= id
      ensures ReadBack(f, r.pairs, p, want, id) == ReadBack(r.d0, r.pairs, p, want, id)
    {
      LaterRead(x, r, p, want, id);
    }
  }

  /**
   A rename survives power loss: on every disk it can leave behind, in the middle of either commit
   or between them, or in the recovery that makes the second, a mount reads everything as before the
   rename, or the entry at its new place only.
   */
  lemma RenameSurvivesPowerLoss(r: Renaming, x: Disk)
    requires r.Valid() && r.CutOff(x)
    ensures r.i < |r.d0| && r.j < |r.d0| == |r.pairs|
    ensures HoldsAll(x, r.unit, r.d0) || HoldsAll(x, r.unit, r.d1) || HoldsAll(x, r.unit, r.d2)
    ensures ReadsAs(x, r.unit, r.pairs, r.d0) || OnlyAtNewPlace(x, r)
  {
    CutOffParts(r, x);
    hide *;
    Commits(r);
    r.Parts();
    if HoldsAll(x, r.unit, r.d0) {
      HoldsReads(x, r.unit, r.pairs, r.d0);
    } else if HoldsAll(x, r.unit, r.d1) {
      HoldsReads(x, r.unit, r.pairs, r.d1);
      NewPlace(x, r);
    } else {
      HoldsReads(x, r.unit, r.pairs, r.d2);
      NewPlace(x, r);
    }
  }

  lemma CutOffParts(r: Renaming, x: Disk)
    requires r.Valid() && r.CutOff(x)
    ensures HoldsAll(x, r.unit, r.d0) || HoldsAll(x, r.unit, r.d1) || HoldsAll(x, r.unit, r.d2)
  {
    r.Parts();
    hide RenameRun, HoldsAll, Appends, Rewrites, Abandons, WellFormed, Means, FetchOf, TornBegun;
    if b :| r.c1.CrashImage(r.unit, b) && x == r.InFirst(b) {
      FirstHolds(r, b);
    } else {
      var a, b :| r.Filled(a) && r.c2.CrashImage(r.unit, b) && x == r.InSecond(a, b);
      SecondHolds(r, a, b);
    }
  }

  /** And when both commits are done, the entry is at its new place only. */
  lemma RenameCompletes(r: Renaming)
    requires r.Valid()
    ensures r.i < |r.d0| == |r.disk| && r.j < |r.d0| == |r.pairs|
    ensures OnlyAtNewPlace(r.InSecond(r.c1.After(), r.c2.After()), r)
  {
    Commits(r);
    r.Parts();
    assert r.Filled(r.c1.After());
    hide *;
    SecondHolds(r, r.c1.After(), r.c2.After());
    HoldsReads(r.InSecond(r.c1.After(), r.c2.After()), r.unit, r.pairs, r.d2);
    NewPlace(r.InSecond(r.c1.After(), r.c2.After()), r);
  }

  // ---------------------------------------------------------------- recovery

  /** A mount finds a move pending exactly where a power loss left the disk between the two commits. */
  lemma MountFindsMove(r: Renaming, x: Disk)
    requires r.Valid() && r.CutOff(x)
    ensures Mountable(x, r.unit) && r.i < |r.pairs|
    ensures HiddenIn(Sum(LogsOn(x, r.unit)), r.pairs[r.i]) ==
            if HoldsAll(x, r.unit, r.d1) then Some(r.oldId as nat) else None
  {
    hide *;
    CutOffParts(r, x);
    Commits(r);
    r.Parts();
    HiddenAtSource(r);
    if HoldsAll(x, r.unit, r.d1) {
      HeldSum(x, r.unit, r.d1);
    } else if HoldsAll(x, r.unit, r.d0) {
      HeldSum(x, r.unit, r.d0);
    } else {
      HeldSum(x, r.unit, r.d2);
    }
  }

  lemma HiddenAtSource(r: Renaming)
    requires r.Runs() && r.i < |r.pairs|
    ensures HiddenIn(Sum(r.d0), r.pairs[r.i]) == None && HiddenIn(Sum(r.d2), r.pairs[r.i]) == None
    ensures HiddenIn(Sum(r.d1), r.pairs[r.i]) == Some(r.oldId as nat)
  {
    hide RenameRun, Sum, HiddenIn;
    Hiding(r.d0, r.d1, r.d2, r.pairs, r.i, r.oldId, r.j, r.newId, r.replace, r.name, r.i);
  }

  lemma NoPairs(x: Disk, unit: nat, d: seq<seq<Rec>>)
    requires HoldsAll(x, unit, d) && d == []
    ensures x == [] && Mountable(x, unit)
  {
  }

  lemma HeldSum(x: Disk, unit: nat, d: seq<seq<Rec>>)
    requires HoldsAll(x, unit, d)
    ensures Mountable(x, unit) && Sum(LogsOn(x, unit)) == Sum(d)
  {
    hide *;
    if |d| == 0 { NoPairs(x, unit, d); } else { HeldAt(x, unit, d, 0); }
    forall p | 0 <= p < |d| ensures Means(LogsOn(x, unit)[p], d[p]) { HeldAt(x, unit, d, p); }
    SameSum(LogsOn(x, unit), d);
  }

  /** In the logs found on `x`, `log` for the source pair deletes the old entry and clears the note. */
  ghost predicate Deletes(r: Renaming, x: Disk, log: seq<Rec>)
    requires Mountable(x, r.unit) && r.i < |x|
  {
    var e := LogsOn(x, r.unit);
    && Denotes(log, Apply(Replay(e[r.i]), DeleteRec(r.oldId as nat)))
    && exists g :: Sum(e[r.i := log]) == Masked(PrepNoMove(g))
  }

  /** What deleting the entry leaves, to the bits a reader tests. */
  lemma DeletesParts(r: Renaming, x: Disk, log: seq<Rec>)
    requires Mountable(x, r.unit) && r.i < |x| && |x| == |r.pairs| && Deletes(r, x, log)
    ensures var e := LogsOn(x, r.unit);
            && Denotes(log, Apply(Replay(e[r.i]), DeleteRec(r.oldId as nat)))
            && forall p :: 0 <= p < |r.pairs| ==> HiddenIn(Sum(e[r.i := log]), r.pairs[p]) == None
  {
    hide Replay, WellFormed, Sum, HiddenIn, Get, Apply, Masked, PrepNoMove;
    var e := LogsOn(x, r.unit);
    var g :| Sum(e[r.i := log]) == Masked(PrepNoMove(g));
    forall p | 0 <= p < |r.pairs| ensures HiddenIn(Sum(e[r.i := log]), r.pairs[p]) == None {
      PreparedHides(g, r.oldId, r.pairs[r.i], r.pairs[p]);
      HiddenOnDisk(PrepNoMove(g), r.pairs[p]);
    }
  }

  lemma DeletedFormed(r: Renaming, x: Disk, log: seq<Rec>)
    requires Mountable(x, r.unit) && r.i < |x| && Deletes(r, x, log)
    ensures WellFormed(log)
  {
    hide Replay, WellFormed, Sum, Get, Apply, Masked, PrepNoMove;
  }

  lemma MeansParts(a: seq<Rec>, b: seq<Rec>, want: nat, id: nat)
    requires Means(a, b) && IsAttr(want)
    ensures WellFormed(a) == WellFormed(b)
    ensures Get(Replay(a), KeyMask(want), want, id) == Get(Replay(b), KeyMask(want), want, id)
  {
    hide Replay, WellFormed, RecordOf, Get;
  }

  lemma DenotesParts(log: seq<Rec>, st: State, want: nat, id: nat)
    requires Denotes(log, st) && IsAttr(want)
    ensures WellFormed(log) && Get(Replay(log), KeyMask(want), want, id) == Get(st, KeyMask(want), want, id)
  {
    hide Replay, WellFormed, Get;
  }

  /** The source log after recovery answers as the one after the rename. */
  lemma RecoveredSource(r: Renaming, found: seq<Rec>, log: seq<Rec>, want: nat, id: nat)
    requires r.Runs() && r.i < |r.d0| == |r.d1| == |r.d2| && Means(found, r.d1[r.i]) && Directory(found) && IsAttr(want)
    requires Denotes(log, Apply(Replay(found), DeleteRec(r.oldId as nat)))
    ensures Get(Replay(log), KeyMask(want), want, id) == Get(Replay(r.d2[r.i]), KeyMask(want), want, id)
  {
    hide *;
    r.Parts();
    RunStates(r);
    DirectoryDenotes(found);
    MeansCount(found, r.d1[r.i]);
    DenotesParts(log, Apply(Replay(found), DeleteRec(r.oldId as nat)), want, id);
    DenotesParts(r.d2[r.i], Apply(Replay(r.d0[r.i]), DeleteRec(r.oldId as nat)), want, id);
    DeletedEntry(Replay(found), r.oldId as nat, KeyMask(want), want, id);
    DeletedEntry(Replay(r.d0[r.i]), r.oldId as nat, KeyMask(want), want, id);
    MeansParts(found, r.d1[r.i], want, StartId(Some(r.oldId as nat), id));
  }

  lemma MeansCount(a: seq<Rec>, b: seq<Rec>)
    requires Means(a, b)
    ensures Replay(a).count == Replay(b).count
  {
    hide Replay, WellFormed, RecordOf, Get;
  }

  /** One lookup in the logs that recovery leaves. */
  lemma RecoveredRead(r: Renaming, x: Disk, log: seq<Rec>, p: nat, want: nat, id: nat)
    requires r.Runs() && HoldsAll(x, r.unit, r.d1) && Mountable(x, r.unit) && r.i < |x| && Deletes(r, x, log)
    requires Directory(LogsOn(x, r.unit)[r.i]) && IsAttr(want) && p < |x|
    ensures |x| == |r.pairs| == |r.d2| && r.i < |LogsOn(x, r.unit)| == |x|
    ensures ReadBack(LogsOn(x, r.unit)[r.i := log], r.pairs, p, want, id) == ReadBack(r.d2, r.pairs, p, want, id)
  {
    hide *;
    r.Parts();
    HeldAt(x, r.unit, r.d1, r.i);
    HeldAt(x, r.unit, r.d1, p);
    DeletesParts(r, x, log);
    DeletedFormed(r, x, log);
    var e := LogsOn(x, r.unit);
    var f := e[r.i := log];
    NothingHiddenAfter(r, p);
    MeansParts(e[p], r.d1[p], want, id);
    ReadsLog(f, r.pairs, p, want, id);
    ReadsLog(r.d2, r.pairs, p, want, id);
    NothingHidden(id);
    if p == r.i { RecoveredSource(r, e[r.i], log, want, id); }
  }

  lemma NothingHiddenAfter(r: Renaming, p: nat)
    requires r.Runs() && p < |r.pairs|
    ensures HiddenIn(Sum(r.d2), r.pairs[p]) == None
  {
    hide RenameRun, Sum, HiddenIn;
    Hiding(r.d0, r.d1, r.d2, r.pairs, r.i, r.oldId, r.j, r.newId, r.replace, r.name, p);
  }

  lemma NothingHidden(id: nat)
    ensures StartId(None, id) == id
  {
  }

  /** Logs that recovery leaves read as those after the rename. */
  lemma RecoveredReads(r: Renaming, x: Disk, b: Blocks, log: seq<Rec>)
    requires r.Runs() && HoldsAll(x, r.unit, r.d1) && Mountable(x, r.unit) && r.i < |x| && Deletes(r, x, log)
    requires Directory(LogsOn(x, r.unit)[r.i]) && Holds(b, r.unit, log)
    ensures ReadsAs(x[r.i := b], r.unit, r.pairs, r.d2)
  {
    hide *;
    r.Parts();
    var e := LogsOn(x, r.unit);
    var f := e[r.i := log];
    var y := x[r.i := b];
    HeldAt(x, r.unit, r.d1, r.i);
    HoldsBefore(x, r.unit);
    HoldsUpdated(x, r.unit, e, f, r.i, b);
    DeletedFormed(r, x, log);
    forall p | 0 <= p < |f| ensures WellFormed(f[p]) {
      if p != r.i { HeldAt(x, r.unit, r.d1, p); MeansFormed(e[p], r.d1[p]); }
    }
    HoldsReads(y, r.unit, r.pairs, f);
    forall p, want, id | 0 <= p < |f| && 0 <= want && 0 <= id && IsAttr(want)
      ensures ReadBack(f, r.pairs, p, want, id) == ReadBack(r.d2, r.pairs, p, want, id)
    {
      RecoveredRead(r, x, log, p, want, id);
    }
    ReadsAlike(y, r.unit, r.pairs, f, r.d2);
  }

  lemma MeansFormed(a: seq<Rec>, b: seq<Rec>)
    requires Means(a, b)
    ensures WellFormed(a) == WellFormed(b)
  {
    hide Replay, WellFormed, RecordOf, Get;
  }

  lemma ReadsAlike(x: Disk, unit: nat, pairs: seq<Pair>, f: seq<seq<Rec>>, d: seq<seq<Rec>>)
    requires ReadsAs(x, unit, pairs, f) && |f| == |d| == |pairs|
    requires forall p, want, id :: 0 <= p < |f| && 0 <= want && 0 <= id && IsAttr(want) ==>
               ReadBack(f, pairs, p, want, id) == ReadBack(d, pairs, p, want, id)
    ensures ReadsAs(x, unit, pairs, d)
  {
    hide ReadBack, Mountable, LogsOn, IsAttr;
  }

  /** What a rename's logs denote on the source side. */
  lemma RunStates(r: Renaming)
    requires r.Runs()
    ensures r.i < |r.d0| == |r.d2|
    ensures |Replay(r.d0[r.i]).entries| == Replay(r.d0[r.i]).count && r.oldId as nat < |Replay(r.d0[r.i]).entries|
    ensures Denotes(r.d2[r.i], Apply(Replay(r.d0[r.i]), DeleteRec(r.oldId as nat)))
  {
    hide Replay, Apply, Get, WellFormed, Sum, Masked, PrepMove, PrepNoMove;
  }

  /** A disk to recover from: a mount finds the move pending. */
  ghost predicate Pending(r: Renaming, x: Disk)
  {
    && HoldsAll(x, r.unit, r.d1) && Mountable(x, r.unit) && r.i < |x|
    && Directory(LogsOn(x, r.unit)[r.i])
  }

  /** The recovering commit `c` on `x`, finished or cut off, which leaves the source pair as `b`. */
  ghost predicate Attempt(r: Renaming, x: Disk, c: PairCommit, b: Blocks)
  {
    && Pending(r, x) && c.Valid(r.unit) && c.Before() == x[r.i]
    && Deletes(r, x, c.NewLog()) && Deletes(r, x, c.TriedLog())
    && (c.CrashImage(r.unit, b) || b == c.After())
  }

  /**
   Recovery survives power loss as well: from a disk left between the two commits, wherever power
   fails in the recovering commit, a mount reads the entry at its new place only, and finds either
   the same disk to recover from or the rename completed.
   */
  lemma RecoverySurvivesPowerLoss(r: Renaming, x: Disk, c: PairCommit, b: Blocks)
    requires r.Runs() && Attempt(r, x, c, b)
    ensures r.i < |x| && (Pending(r, x[r.i := b]) || ReadsAs(x[r.i := b], r.unit, r.pairs, r.d2))
    ensures b == c.After() ==> ReadsAs(x[r.i := b], r.unit, r.pairs, r.d2)
    ensures r.i < |r.d0| && r.j < |r.d0| == |r.pairs| && OnlyAtNewPlace(x[r.i := b], r)
  {
    hide *;
    AttemptIs(r, x, c, b);
    PendingIs(r, x);
    r.Parts();
    HeldAt(x, r.unit, r.d1, r.i);
    BeforeHolds(c, r.unit);
    AfterHolds(c, r.unit);
    if b != c.After() { CrashHolds(c, r.unit, b); }
    if Holds(b, r.unit, c.NewLog()) {
      RecoveredReads(r, x, b, c.NewLog());
    } else if Holds(b, r.unit, c.TriedLog()) {
      RecoveredReads(r, x, b, c.TriedLog());
    } else {
      FindsHolds(b, r.unit, c.OldLog());
      FoundAgain(x, r.unit, r.i, b, c.OldLog());
      HoldsLike(b, r.unit, c.OldLog(), r.d1[r.i]);
      HoldsUpdated(x, r.unit, r.d1, r.d1, r.i, b);
      HoldsReads(x[r.i := b], r.unit, r.pairs, r.d1);
      IsPending(r, x[r.i := b]);
    }
    NewPlace(x[r.i := b], r);
  }

  lemma PendingIs(r: Renaming, x: Disk)
    requires Pending(r, x)
    ensures r.i < |x| && HoldsAll(x, r.unit, r.d1) && Mountable(x, r.unit) && Directory(LogsOn(x, r.unit)[r.i])
  {
    hide HoldsAll, Directory, LogsOn, Mountable;
  }

  lemma IsPending(r: Renaming, x: Disk)
    requires HoldsAll(x, r.unit, r.d1) && Mountable(x, r.unit) && r.i < |x| && Directory(LogsOn(x, r.unit)[r.i])
    ensures Pending(r, x)
  {
    hide HoldsAll, Directory, LogsOn, Mountable;
  }

  lemma AttemptIs(r: Renaming, x: Disk, c: PairCommit, b: Blocks)
    requires Attempt(r, x, c, b)
    ensures Pending(r, x) && r.i < |x| && Mountable(x, r.unit) && c.Valid(r.unit) && c.Before() == x[r.i]
    ensures Deletes(r, x, c.NewLog()) && Deletes(r, x, c.TriedLog())
    ensures c.CrashImage(r.unit, b) || b == c.After()
  {
    hide HoldsAll, Directory, LogsOn, Mountable, Deletes, PairCommit.Valid, PairCommit.CrashImage, PairCommit.After;
  }

  lemma FoundAgain(x: Disk, unit: nat, i: nat, b: Blocks, log: seq<Rec>)
    requires Mountable(x, unit) && i < |x| && Finds(b, unit, log)
    ensures Mountable(x[i := b], unit) && LogsOn(x[i := b], unit)[i] == log
  {
    hide Fetchable, LogOn;
  }

  /** A disk with a move pending after power failed in a rename is one to recover from. */
  lemma CutOffIsPending(r: Renaming, x: Disk)
    requires r.Valid() && r.CutOff(x) && HoldsAll(x, r.unit, r.d1) && r.i < |r.d0| && Directory(r.d0[r.i])
    ensures Pending(r, x)
  {
    hide *;
    Commits(r);
    r.Parts();
    HeldAt(x, r.unit, r.d1, r.i);
    SourceFound(r, x);
    IsPending(r, x);
  }

  /** There the source pair is found as it was. */
  lemma SourceFound(r: Renaming, x: Disk)
    requires r.Valid() && r.CutOff(x) && HoldsAll(x, r.unit, r.d1)
    ensures r.i < |x| && Mountable(x, r.unit) && r.i < |r.d0| && LogsOn(x, r.unit)[r.i] == r.d0[r.i]
  {
    r.Parts();
    hide RenameRun, HoldsAll, Appends, Rewrites, Abandons, WellFormed, Means, FetchOf, TornBegun;
    if b :| r.c1.CrashImage(r.unit, b) && x == r.InFirst(b) {
      FirstSource(r, x, b);
    } else {
      var a, b :| r.Filled(a) && r.c2.CrashImage(r.unit, b) && x == r.InSecond(a, b);
      SecondSource(r, x, a, b);
    }
  }

  lemma FirstSource(r: Renaming, x: Disk, b: Blocks)
    requires r.Valid() && r.j < |r.disk| && x == r.InFirst(b) && HoldsAll(x, r.unit, r.d1)
    ensures r.i < |x| && Mountable(x, r.unit) && r.i < |r.d0| && LogsOn(x, r.unit)[r.i] == r.d0[r.i]
  {
    hide *;
    Commits(r);
    r.Parts();
    Disks(r, b, b);
    HeldAt(x, r.unit, r.d1, r.i);
    SourceBefore(r);
  }

  lemma SourceBefore(r: Renaming)
    requires r.Valid()
    ensures r.i < |r.disk| == |r.d0| && Mountable(r.disk, r.unit) && LogsOn(r.disk, r.unit) == r.d0
  {
    hide RenameRun, Means, PairCommit.Valid, LogOn, Fetchable;
    r.Parts();
  }

  lemma SecondSource(r: Renaming, x: Disk, a: Blocks, b: Blocks)
    requires r.Valid() && r.Filled(a) && r.c2.CrashImage(r.unit, b) && r.i < |r.disk| && r.j < |r.disk|
    requires x == r.InSecond(a, b) && HoldsAll(x, r.unit, r.d1)
    ensures r.i < |x| && Mountable(x, r.unit) && r.i < |r.d0| && LogsOn(x, r.unit)[r.i] == r.d0[r.i]
  {
    hide *;
    Commits(r);
    r.Parts();
    Disks(r, a, b);
    HeldAt(x, r.unit, r.d1, r.i);
    SecondFound(r, a, b);
    NotBoth(r, x);
    FoundIs(b, r.unit, r.d0[r.i]);
  }

  lemma FoundIs(b: Blocks, unit: nat, log: seq<Rec>)
    requires Finds(b, unit, log)
    ensures Fetchable(b, unit) && LogOn(b, unit) == log
  {
    hide Fetchable, LogOn;
  }

  /** In the second commit the source pair is found as it was, or the disk holds what it does after both. */
  lemma SecondFound(r: Renaming, a: Blocks, b: Blocks)
    requires r.Valid() && r.Filled(a) && r.c2.CrashImage(r.unit, b)
    ensures r.i < |r.disk| && r.j < |r.disk| && r.i < |r.d0|
    ensures Finds(b, r.unit, r.d0[r.i]) || HoldsAll(r.InSecond(a, b), r.unit, r.d2)
  {
    hide *;
    Commits(r);
    r.Parts();
    FilledIs(r, a);
    Disks(r, a, b);
    FirstHolds(r, a);
    CrashHolds(r.c2, r.unit, b);
    if Holds(b, r.unit, r.c2.NewLog()) { HoldsLike(b, r.unit, r.c2.NewLog(), r.d2[r.i]); }
    if Holds(b, r.unit, r.c2.TriedLog()) { HoldsLike(b, r.unit, r.c2.TriedLog(), r.d2[r.i]); }
    if Holds(b, r.unit, r.d2[r.i]) { HoldsUpdated(r.InFirst(a), r.unit, r.d1, r.d2, r.i, b); }
  }

  lemma NotBoth(r: Renaming, x: Disk)
    requires r.Runs() && HoldsAll(x, r.unit, r.d1)
    ensures !HoldsAll(x, r.unit, r.d2)
  {
    hide *;
    r.Parts();
    HiddenAtSource(r);
    HeldSum(x, r.unit, r.d1);
    if HoldsAll(x, r.unit, r.d2) { HeldSum(x, r.unit, r.d2); }
  }

  function Attempted(r: Renaming, x: Disk, b: Blocks): Disk { if r.i < |x| then x[r.i := b] else x }

  /** Recovery attempted again and again from `x`, each attempt made on what the one before has left. */
  ghost predicate Recovering(r: Renaming, x: Disk, attempts: seq<(PairCommit, Blocks)>, y: Disk)
    decreases |attempts|
  {
    if attempts == [] then x == y
    else
      && Recovering(r, Attempted(r, x, attempts[0].1), attempts[1..], y)
      && Attempt(r, x, attempts[0].0, attempts[0].1)
  }

  lemma AttemptsPending(r: Renaming, x: Disk, attempts: seq<(PairCommit, Blocks)>, y: Disk)
    requires Recovering(r, x, attempts, y) && attempts != []
    ensures Pending(r, x)
  {
    hide Pending, PairCommit.Valid, PairCommit.CrashImage, PairCommit.After, Deletes;
  }

  /** However often power fails in recovery, the entry is read at its new place only. */
  lemma {:induction false} RepeatedRecovery(r: Renaming, x: Disk, attempts: seq<(PairCommit, Blocks)>, y: Disk)
    requires r.Runs() && Pending(r, x) && Recovering(r, x, attempts, y)
    ensures r.i < |r.d0| && r.j < |r.d0| == |r.pairs| && OnlyAtNewPlace(y, r)
    decreases |attempts|
  {
    PendingIs(r, x);
    hide Pending, Attempt, OnlyAtNewPlace, ReadsAs, RenameRun, HoldsAll, Directory;
    if attempts == [] {
      r.Parts();
      HoldsReads(x, r.unit, r.pairs, r.d1);
      NewPlace(x, r);
    } else {
      RecoverySurvivesPowerLoss(r, x, attempts[0].0, attempts[0].1);
      if attempts[1..] != [] {
        AttemptsPending(r, Attempted(r, x, attempts[0].1), attempts[1..], y);
        RepeatedRecovery(r, Attempted(r, x, attempts[0].1), attempts[1..], y);
      }
    }
  }

  /**
   The commit of `Demove` made on the device is such a recovery: `after` is what it leaves in memory,
   having read `x`.
   */
  lemma RecoveryReachesDisk(r: Renaming, x: Disk, c: PairCommit, after: seq<seq<Rec>>, tail: seq<Rec>, noted: bool,
                            g: GState)
    requires r.Runs() && HoldsAll(x, r.unit, r.d1) && Mountable(x, r.unit) && r.i < |x|
    requires c.Valid(r.unit) && c.Before() == x[r.i] && Directory(LogsOn(x, r.unit)[r.i])
    requires var found := LogsOn(x, r.unit)[r.i];
             && after == LogsOn(x, r.unit)[r.i := VacatedLog(found, r.oldId as nat, !c.Append?) + Ending(noted, g)]
             && Denotes(after[r.i], Apply(Replay(found), DeleteRec(r.oldId as nat))) && Directory(after[r.i])
             && Writes(c, [Tagged(DeleteRec(r.oldId as nat))], OneLess(Replay(found).count), tail, noted, g)
    requires exists h :: Sum(after) == Masked(PrepNoMove(h))
    ensures Deletes(r, x, c.NewLog()) && Deletes(r, x, c.TriedLog())
  {
    hide *;
    r.Parts();
    HeldAt(x, r.unit, r.d1, r.i);
    var found, st := LogsOn(x, r.unit)[r.i], Replay(LogsOn(x, r.unit)[r.i]);
    var items, n := [Tagged(DeleteRec(r.oldId as nat))], OneLess(st.count);
    BeforeHolds(c, r.unit);
    OldIdFits(r, found);
    VacatedIs(found, r.oldId as nat, !c.Append?);
    WritesCommitted(c, items, n, tail, noted, g);
    DeletesLike(r, x, after, c.NewLog());
    DeleteItemFits(st, r.oldId as nat);
    if c.Retry? {
      MeansRecord(c.NewLog(), after[r.i]);
      TriedCommitted(c, items, n, tail, noted, g, after[r.i]);
      DeletesLike(r, x, after, c.TriedLog());
    } else {
      NothingTried(c);
    }
  }

  lemma NothingTried(c: PairCommit)
    requires !c.Retry?
    ensures c.TriedLog() == c.NewLog()
  {
  }

  lemma MeansRecord(a: seq<Rec>, b: seq<Rec>)
    requires Means(a, b)
    ensures RecordOf(a) == RecordOf(b)
  {
    hide Replay, WellFormed, RecordOf, Get;
  }

  lemma VacatedIs(log: seq<Rec>, oldId: nat, rewrite: bool)
    ensures VacatedLog(log, oldId, rewrite) ==
            CommittedLog(log, [Tagged(DeleteRec(oldId))], OneLess(Replay(log).count), rewrite)
  {
    hide CommittedLog, Replay, OneLess, DeleteRec;
  }

  /** The moved entry is one of the directory found. */
  lemma OldIdFits(r: Renaming, found: seq<Rec>)
    requires r.Runs() && r.i < |r.d1| && Means(found, r.d1[r.i]) && Directory(found)
    ensures var st := Replay(found);
            |st.entries| == st.count && r.oldId as nat < |st.entries| && AllNamed(st.entries)
  {
    hide *;
    r.Parts();
    RunStates(r);
    MeansCount(found, r.d1[r.i]);
    DirectoryDenotes(found);
  }

  /** What means the same as a log that deletes the entry deletes it. */
  lemma DeletesLike(r: Renaming, x: Disk, after: seq<seq<Rec>>, log: seq<Rec>)
    requires Mountable(x, r.unit) && r.i < |x| == |after| && after == LogsOn(x, r.unit)[r.i := after[r.i]]
    requires Denotes(after[r.i], Apply(Replay(LogsOn(x, r.unit)[r.i]), DeleteRec(r.oldId as nat)))
    requires Means(log, after[r.i]) && exists h :: Sum(after) == Masked(PrepNoMove(h))
    ensures Deletes(r, x, log)
  {
    hide Means, Denotes, Apply, Replay, DeleteRec, Sum, Masked, PrepNoMove, LogOn;
    var e := LogsOn(x, r.unit);
    var f := e[r.i := log];
    MeansDenotes(log, after[r.i], Apply(Replay(e[r.i]), DeleteRec(r.oldId as nat)));
    forall p | 0 <= p < |after| ensures Means(f[p], after[p]) { MeansItself(after[p]); }
    SameSum(f, after);
  }

  // ---------------------------------------------------------------- from the file system to the device

  /**
   The commits of `RenameAcross`, made on the device, are such a rename: the file system read the
   disk, and what is written is what it committed, with whatever tail a rewritten block repeats.
   */
  lemma RenameReachesDisk(r: Renaming, tail1: seq<Rec>, tail2: seq<Rec>, noted1: bool, g1: GState, noted2: bool,
                          g2: GState)
    requires r.Runs() && Mountable(r.disk, r.unit) && |r.disk| == |r.d0| && LogsOn(r.disk, r.unit) == r.d0
    requires r.i < |r.d0| == |r.d1| == |r.d2| && r.j < |r.d0|
    requires r.c1.Valid(r.unit) && r.c1.Before() == r.disk[r.j] && r.c2.Valid(r.unit) && r.c2.Before() == r.disk[r.i]
    requires Mounted(r.d0, r.pairs) && Mounted(r.d2, r.pairs)
    requires r.d1[r.j] == FilledLog(r.d0, r.i, r.oldId as nat, r.j, r.newId, r.replace, r.name, !r.c1.Append?)
             + Ending(noted1, g1)
    requires r.d2[r.i] == VacatedLog(r.d0[r.i], r.oldId as nat, !r.c2.Append?) + Ending(noted2, g2)
    requires Writes(r.c1, RenameItems(r.newId, r.replace, r.name, MovedValues(r.d0[r.i], r.oldId as nat)),
                    NewCount(Replay(r.d0[r.j]).count, r.replace), tail1, noted1, g1)
    requires Writes(r.c2, [Tagged(DeleteRec(r.oldId as nat))], OneLess(Replay(r.d0[r.i]).count), tail2, noted2, g2)
    ensures r.Valid()
  {
    r.Parts();
    hide RenameRun, Means, Replay, Writes, MovedValues, RenameItems, Ending, CommittedLog, Appends, Rewrites, Abandons,
         FetchPair, NewCount, OneLess, TornBegun, FoundIn, Directory, HasMove, Sum;
    BeforeHolds(r.c1, r.unit);
    BeforeHolds(r.c2, r.unit);
    var items := RenameItems(r.newId, r.replace, r.name, MovedValues(r.d0[r.i], r.oldId as nat));
    WritesCommitted(r.c1, items, NewCount(Replay(r.d0[r.j]).count, r.replace), tail1, noted1, g1);
    WritesCommitted(r.c2, [Tagged(DeleteRec(r.oldId as nat))], OneLess(Replay(r.d0[r.i]).count), tail2, noted2, g2);
    TriedFirst(r, items, NewCount(Replay(r.d0[r.j]).count, r.replace), tail1, noted1, g1);
    TriedSecond(r, OneLess(Replay(r.d0[r.i]).count), tail2, noted2, g2);
  }

  /** An append abandoned in the first commit adds up to the same directory. */
  lemma TriedFirst(r: Renaming, items: seq<Item>, n: nat, tail: seq<Rec>, noted: bool, g: GState)
    requires r.Runs() && r.i < |r.d0| == |r.d1| == |r.d2| && r.j < |r.d0|
    requires items == RenameItems(r.newId, r.replace, r.name, MovedValues(r.d0[r.i], r.oldId as nat))
    requires Writes(r.c1, items, n, tail, noted, g) && Means(r.c1.NewLog(), r.d1[r.j]) && r.c1.OldLog() == r.d0[r.j]
    requires Directory(r.d0[r.i]) && Directory(r.d0[r.j]) && Directory(r.d1[r.j])
    ensures Means(r.c1.TriedLog(), r.d1[r.j])
  {
    if r.c1.Retry? {
      FirstStates(r);
      hide RenameRun, Replay, MovedValues, RenameItems, CommittedLog, Directory, ApplyAll, RenameRecs, Denotes,
           CommitItems, AllNamed, WellFormed, Expand, Get, RecordOf, Tries, Behind, Carries, NamesLive;
      var vals := MovedValues(r.d0[r.i], r.oldId as nat);
      DirectoryDenotes(r.d0[r.i]);
      DirectoryDenotes(r.d0[r.j]);
      MovedValuesLive(r.d0[r.i], r.oldId as nat);
      RenameItemsFit(Replay(r.d0[r.j]), r.newId, r.replace, r.name, vals);
      TriedCommitted(r.c1, items, n, tail, noted, g, r.d1[r.j]);
    }
  }

  lemma FirstStates(r: Renaming)
    requires r.Runs()
    ensures r.i < |r.d0| == |r.d1| && r.j < |r.d0|
    ensures r.newId <= |Replay(r.d0[r.j]).entries| && (r.replace ==> r.newId < |Replay(r.d0[r.j]).entries|)
    ensures Type1(r.name.ty) == TYPE_NAME && !IsDeleted(r.name.size)
    ensures var recs := RenameRecs(r.newId, r.replace, r.name, MovedValues(r.d0[r.i], r.oldId as nat));
            Denotes(r.d1[r.j], ApplyAll(Replay(r.d0[r.j]), recs))
  {
    hide Replay, ApplyAll, Get, WellFormed, Sum, Masked, PrepMove, PrepNoMove, MovedValues, RenameRecs;
  }

  /** And one abandoned in the second. */
  lemma TriedSecond(r: Renaming, n: nat, tail: seq<Rec>, noted: bool, g: GState)
    requires r.Runs() && r.i < |r.d0| == |r.d2|
    requires Writes(r.c2, [Tagged(DeleteRec(r.oldId as nat))], n, tail, noted, g) && Means(r.c2.NewLog(), r.d2[r.i])
    requires r.c2.OldLog() == r.d0[r.i] && Directory(r.d0[r.i]) && Directory(r.d2[r.i])
    ensures Means(r.c2.TriedLog(), r.d2[r.i])
  {
    if r.c2.Retry? {
      RunStates(r);
      hide RenameRun, Replay, CommittedLog, Directory, ApplyAll, Apply, Denotes, CommitItems, AllNamed, WellFormed,
           Expand, Get, RecordOf, Tries, Behind, NamesLive, DeleteRec;
      DirectoryDenotes(r.d0[r.i]);
      DeleteItemFits(Replay(r.d0[r.i]), r.oldId as nat);
      TriedCommitted(r.c2, [Tagged(DeleteRec(r.oldId as nat))], n, tail, noted, g, r.d2[r.i]);
    }
  }
}
