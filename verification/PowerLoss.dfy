/**
 What a power loss can leave behind in a metadata pair (lfs_dir_relocatingcommit, lfs_dir_compact).

 A commit either appends to the block in use or rewrites the other block of the pair with the
 next revision. Whatever prefix of the erase and program steps reached the device, a fetch
 finds the directory as it was before the commit or as it is after.
 */
module PowerLoss {
  import opened Common
  import opened Commit
  import opened Crc32
  import opened DirLog
  import opened MetadataPair
  import opened TagChain
  import opened TagWord

  // ---------------------------------------------------------------- power loss during an append

  function Start(b: seq<bv8>): Cursor
    requires |b| >= 4
  {
    StartCursor(b[..4])
  }

  /** The block a directory is in, with its last commit aligned and the rest of it known erased. */
  predicate InUse(b: seq<bv8>, es: seq<Entry>, unit: nat)
    requires unit > 0
  {
    && |b| >= 4 && Written(b, Start(b), es) && Complete(es)
    && AfterAll(Start(b), es).off % unit == 0 && Predicted(b, AfterAll(Start(b), es))
  }

  lemma FetchesInUse(b: seq<bv8>, es: seq<Entry>, unit: nat)
    requires unit > 0 && InUse(b, es, unit)
    ensures FetchBlock(b, unit) == Some(Fetched(AfterAll(Start(b), es), true))
  {
    hide AfterAll, Written, ScanStep, Complete, FcrcMatches;
    ScanWritten(b, Start(b), es, None);
    BestOfComplete(Start(b), es, None);
  }

  /**
   The image after `k` whole program units of a commit at offset `at` reached the device and the
   next unit may have been torn: that one unit holds anything at all.
   */
  predicate Torn(was: seq<bv8>, now: seq<bv8>, at: nat, unit: nat, k: nat, x: seq<bv8>)
  {
    && |x| == |was| == |now| && at + k * unit <= |x|
    && x[..at + k * unit] == now[..at + k * unit]
    && (at + (k + 1) * unit <= |x| ==> x[at + (k + 1) * unit..] == was[at + (k + 1) * unit..])
  }

  /** Whatever a torn unit holds, the image is one of these. */
  lemma TornByAny(was: seq<bv8>, now: seq<bv8>, at: nat, unit: nat, k: nat, junk: seq<bv8>)
    requires |was| == |now| && at + (k + 1) * unit <= |now| && |junk| == unit
    ensures at + k * unit <= at + (k + 1) * unit
    ensures Torn(was, now, at, unit, k, now[..at + k * unit] + junk + was[at + (k + 1) * unit..])
  {
    var lo, hi := at + k * unit, at + (k + 1) * unit;
    assert hi == lo + unit;
    var x := now[..lo] + junk + was[hi..];
    assert x[..lo] == now[..lo] && x[hi..] == was[hi..];
  }

  /** The bytes a checksum speaks for: a whole tag, but of a checksum tag no padding. */
  function Covered(e: Entry): nat { if EndsCommit(e.tag) then 8 else LengthOf(e.tag) }

  predicate SameBytes(x: seq<bv8>, now: seq<bv8>, lo: nat, hi: nat)
  {
    lo <= hi <= |x| && hi <= |now| && x[lo..hi] == now[lo..hi]
  }

  /** From `c` on, `x` and `now` agree in every byte that the checksums among `p` speak for. */
  predicate CoveredAlike(x: seq<bv8>, now: seq<bv8>, c: Cursor, p: seq<Entry>)
    decreases |p|
  {
    p == [] ||
    (SameBytes(x, now, c.off, c.off + Covered(p[0])) && CoveredAlike(x, now, After(c, p[0]), p[1..]))
  }

  /**
   The idealised checksum: tags read from a torn image that end in a matching checksum are, in
   every byte the checksums speak for, what was being written there.
   */
  ghost predicate ChecksumSound(x: seq<bv8>, now: seq<bv8>, c: Cursor)
  {
    forall p :: Reads(x, c, p) && Complete(p) ==> CoveredAlike(x, now, c, p)
  }

  /** Cursors at one place, whatever payloads were passed on the way. */
  predicate SamePlace(c: Cursor, d: Cursor) { c.off == d.off && c.ptag == d.ptag && c.crc == d.crc }

  /** Where the covered bytes agree, the scan of `now` reads the same tag. */
  lemma SameStep(x: seq<bv8>, now: seq<bv8>, c: Cursor, d: Cursor, e: Entry) returns (f: Entry)
    requires |x| == |now| && SamePlace(c, d) && ScanStep(x, c) == Advance(e)
    requires SameBytes(x, now, c.off, c.off + Covered(e))
    ensures ScanStep(now, d) == Advance(f) && Alike(e, f)
  {
    hide XorTag, BeWord, Valid, TypeOf, IdOf, SizeOf, Crc, Le32;
    var lo, to := c.off, c.off + Covered(e);
    StepAdvances(x, c, e);
    f := Entry(e.tag, now[lo + 4..lo + LengthOf(e.tag)]);
    assert x[lo..lo + 4] == x[lo..to][..4] == now[lo..to][..4] == now[lo..lo + 4];
    if EndsCommit(e.tag) {
      assert x[lo + 4..lo + 8] == x[lo..to][4..8] == now[lo..to][4..8] == now[lo + 4..lo + 8];
    } else {
      assert x[lo + 4..to] == x[lo..to][4..] == now[lo..to][4..] == now[lo + 4..to];
    }
  }

  lemma SameAfter(c: Cursor, d: Cursor, e: Entry, f: Entry)
    requires SamePlace(c, d) && Alike(e, f)
    ensures SamePlace(After(c, e), After(d, f))
  {
    hide XorTag, BeBytes, TypeOf, IdOf, SizeOf, Crc;
  }

  /**
   With sound checksums, what is accepted in a torn image is a front part of what was being
   written, up to the padding that no checksum covers. `fs` is all there is to accept in `now`.
   */
  lemma {:induction false} AcceptedWasWritten(x: seq<bv8>, now: seq<bv8>, c: Cursor, d: Cursor, p: seq<Entry>,
                                              fs: seq<Entry>)
    requires |x| == |now| && SamePlace(c, d) && Reads(x, c, p) && CoveredAlike(x, now, c, p) && Complete(p)
    requires Written(now, d, fs) && Scan(now, AfterAll(d, fs), None).best == None
    ensures AlikePrefix(p, fs)
    decreases |p|
  {
    hide After, ScanStep, Shaped, Sealed, Stored, Covered, SameBytes, Alike, SamePlace, Scan, EndsCommit;
    if fs == [] {
      var q := AlikeReads(x, now, c, d, p);
      ReadIsAccepted(now, d, q);
      assert false;
    } else {
      var f := SameStep(x, now, c, d, p[0]);
      ScanStored(now, d, fs[0]);
      SameAfter(c, d, p[0], f);
      if |p| > 1 { AcceptedWasWritten(x, now, After(c, p[0]), After(d, f), p[1..], fs[1..]); }
      forall i | 0 <= i < |p| ensures Alike(p[i], fs[i]) {
        if i > 0 { assert Alike(p[1..][i - 1], fs[1..][i - 1]); }
      }
    }
  }

  /** Where the covered bytes agree, a run read in `x` is read in `now`, up to padding. */
  lemma {:induction false} AlikeReads(x: seq<bv8>, now: seq<bv8>, c: Cursor, d: Cursor, p: seq<Entry>)
      returns (q: seq<Entry>)
    requires |x| == |now| && SamePlace(c, d) && Reads(x, c, p) && CoveredAlike(x, now, c, p)
    ensures Reads(now, d, q) && |q| == |p| && (Complete(p) ==> Complete(q))
    decreases |p|
  {
    hide After, ScanStep, Covered, SameBytes, SamePlace, EndsCommit;
    q := [];
    if p != [] {
      var f := SameStep(x, now, c, d, p[0]);
      SameAfter(c, d, p[0], f);
      var rest := AlikeReads(x, now, After(c, p[0]), After(d, f), p[1..]);
      q := [f] + rest;
      assert q[1..] == rest;
      assert |p| > 1 && Complete(p) ==> Complete(p[1..]);
    }
  }

  /** A scan that reads a run ending in a checksum accepts something. */
  lemma {:induction false} ReadIsAccepted(x: seq<bv8>, c: Cursor, p: seq<Entry>)
    requires Reads(x, c, p) && Complete(p)
    ensures Scan(x, c, None).best.Some?
    decreases |p|
  {
    hide After, ScanStep, EndsCommit;
    var next := After(c, p[0]);
    if EndsCommit(p[0].tag) {
      ScanBest(x, next, Some(next));
    } else {
      ReadIsAccepted(x, next, p[1..]);
    }
  }

  /**
   Writing has begun: `now` is `was` with the tags `fs` behind the old log `es`, and nothing behind
   them can be taken for a commit.
   */
  predicate Begins(was: seq<bv8>, now: seq<bv8>, es: seq<Entry>, fs: seq<Entry>, unit: nat)
    requires unit > 0
  {
    && InUse(was, es, unit) && |now| == |was|
    && var m := AfterAll(Start(was), es);
       m.off <= |was| && now[..m.off] == was[..m.off] && Written(now, m, fs)
       && Scan(now, AfterAll(m, fs), None).best == None
  }

  /** The append in question: `now` is `was` with the commit `fs` behind the old log `es`, and a scan stops there. */
  predicate Appends(was: seq<bv8>, now: seq<bv8>, es: seq<Entry>, fs: seq<Entry>, attrs: seq<Entry>, unit: nat)
    requires unit > 0
  {
    && InUse(was, es, unit) && IsCommit(fs, attrs) && |now| == |was|
    && var m := AfterAll(Start(was), es);
       m.off <= |was| && now[..m.off] == was[..m.off] && Written(now, m, fs)
       && ScanStep(now, AfterAll(m, fs)).Halt? && Midway(m, fs, unit)
  }

  /** An append that ran out of room: `part` of the commit of `attrs` has been handed to the device. */
  predicate Abandons(was: seq<bv8>, now: seq<bv8>, es: seq<Entry>, part: seq<Entry>, attrs: seq<Entry>, unit: nat)
    requires unit > 0
  {
    Begins(was, now, es, part, unit) && Attributes(attrs) && IsPart(part, attrs)
  }

  lemma AppendsBegins(was: seq<bv8>, now: seq<bv8>, es: seq<Entry>, fs: seq<Entry>, attrs: seq<Entry>, unit: nat)
    requires unit > 0 && Appends(was, now, es, fs, attrs, unit)
    ensures Begins(was, now, es, fs, unit) && Attributes(attrs) && IsPart(fs, attrs) && Complete(fs)
  {
    hide AfterAll, Written, InUse, ScanStep, IsCommit, Midway, IsPart, Attributes, Complete;
    CommitIsPart(fs, attrs);
    assert |was| >= 4 by { InUseSized(was, es, unit); }
    HaltFindsNothing(now, AfterAll(AfterAll(Start(was), es), fs));
  }

  lemma HaltFindsNothing(b: seq<bv8>, c: Cursor)
    requires ScanStep(b, c).Halt?
    ensures Scan(b, c, None).best == None
  {
    hide ScanStep;
  }

  lemma InUseSized(b: seq<bv8>, es: seq<Entry>, unit: nat)
    requires unit > 0 && InUse(b, es, unit)
    ensures |b| >= 4
  {
  }

  // When the assumption holds: it rules out no image that differs from a finished or an untouched
  // block only where no checksum reaches.

  lemma {:induction false} ReadsCovered(x: seq<bv8>, c: Cursor, p: seq<Entry>)
    requires Reads(x, c, p)
    ensures CoveredAlike(x, x, c, p)
    decreases |p|
  {
    hide After, ScanStep, LengthOf, EndsCommit;
    if p != [] {
      StepCovered(x, c, p[0]);
      ReadsCovered(x, After(c, p[0]), p[1..]);
    }
  }

  lemma StepCovered(x: seq<bv8>, c: Cursor, e: Entry)
    requires ScanStep(x, c) == Advance(e)
    ensures c.off + Covered(e) <= |x|
  {
    hide XorTag, BeWord, Valid, TypeOf, IdOf, SizeOf, Crc, Le32;
    StepAdvances(x, c, e);
  }

  lemma SoundOfItself(x: seq<bv8>, c: Cursor)
    ensures ChecksumSound(x, x, c)
  {
    hide Reads, Complete, CoveredAlike;
    forall p | Reads(x, c, p) && Complete(p) ensures CoveredAlike(x, x, c, p) { ReadsCovered(x, c, p); }
  }

  /** Where nothing can be read, nothing is accepted. */
  lemma SoundWhereUnread(x: seq<bv8>, now: seq<bv8>, c: Cursor)
    requires ScanStep(x, c).Halt?
    ensures ChecksumSound(x, now, c)
  {
    hide ScanStep;
  }

  /** Torn padding is within the assumption: it binds only what checksums speak for. */
  lemma SoundUpToPadding(x: seq<bv8>, now: seq<bv8>, c: Cursor, fs: seq<Entry>)
    requires |x| == |now| && Written(now, c, fs) && CoveredAlike(now, x, c, fs)
    requires var end := AfterAll(c, fs);
             ScanStep(now, end).Halt? && end.off <= |x| && x[end.off..] == now[end.off..]
    ensures ChecksumSound(x, now, c)
  {
    hide Reads, Complete, CoveredAlike, Written, AfterAll, ScanStep;
    forall p | Reads(x, c, p) && Complete(p) ensures CoveredAlike(x, now, c, p) { PaddingIsFree(x, now, c, c, p, fs); }
  }

  lemma {:induction false} PaddingIsFree(x: seq<bv8>, now: seq<bv8>, c: Cursor, d: Cursor, p: seq<Entry>,
                                         fs: seq<Entry>)
    requires |x| == |now| && SamePlace(c, d) && Reads(x, c, p) && Written(now, d, fs) && CoveredAlike(now, x, d, fs)
    requires var end := AfterAll(d, fs);
             ScanStep(now, end).Halt? && end.off <= |x| && x[end.off..] == now[end.off..]
    ensures CoveredAlike(x, now, c, p)
    decreases |p|
  {
    hide After, ScanStep, Shaped, Sealed, Stored, Alike, SamePlace, EndsCommit, LengthOf;
    if p != [] {
      if fs == [] {
        SameHalt(x, now, c, d);
        assert false;
      } else {
        ScanStored(now, d, fs[0]);
        assert SamePlace(d, c) by { Turned(c, d); }
        var g := SameStep(now, x, d, c, fs[0]);
        SameAfter(d, c, fs[0], g);
        Turned(After(d, fs[0]), After(c, g));
        AlikeCovered(fs[0], g, c, d);
        PaddingIsFree(x, now, After(c, g), After(d, fs[0]), p[1..], fs[1..]);
      }
    }
  }

  lemma Turned(c: Cursor, d: Cursor)
    ensures SamePlace(c, d) == SamePlace(d, c)
  {
  }

  lemma AlikeCovered(e: Entry, f: Entry, c: Cursor, d: Cursor)
    requires Alike(e, f) && SamePlace(c, d)
    ensures Covered(e) == Covered(f) && c.off == d.off
  {
  }

  lemma SameHalt(x: seq<bv8>, now: seq<bv8>, c: Cursor, d: Cursor)
    requires |x| == |now| && SamePlace(c, d) && d.off <= |x| && x[d.off..] == now[d.off..]
    requires ScanStep(now, d).Halt?
    ensures ScanStep(x, c).Halt?
  {
    hide ScanStep;
    if ScanStep(x, c).Advance? {
      var e := ScanStep(x, c).entry;
      StepCovered(x, c, e);
      var n := Covered(e);
      assert x[c.off..c.off + n] == x[c.off..][..n] == now[c.off..][..n] == now[c.off..c.off + n];
      var f := SameStep(x, now, c, d, e);
    }
  }

  lemma OldLogStands(was: seq<bv8>, x: seq<bv8>, es: seq<Entry>, unit: nat)
    requires unit > 0 && InUse(was, es, unit) && |x| == |was|
    requires var m := AfterAll(Start(was), es); m.off <= |was| && x[..m.off] == was[..m.off]
    ensures Start(x) == Start(was) && Written(x, Start(was), es)
    ensures var m := AfterAll(Start(was), es);
            Scan(x, Start(x), None) == Scan(x, m, Some(m)) && 4 <= m.off
  {
    hide AfterAll, Written, ScanStep, Complete, Predicted;
    var m := AfterAll(Start(was), es);
    LogGrows(Start(was), es);
    assert x[..4] == x[..m.off][..4] == was[..4];
    WrittenFrame(was, x, Start(was), es);
    ScanWritten(x, Start(x), es, None);
    BestOfComplete(Start(x), es, None);
  }

  /** A scan of a torn image goes on behind the old log and accepts a front part of what was begun, or nothing. */
  lemma TornScan(was: seq<bv8>, now: seq<bv8>, x: seq<bv8>, es: seq<Entry>, fs: seq<Entry>, unit: nat)
      returns (p: seq<Entry>)
    requires unit > 0 && Begins(was, now, es, fs, unit) && |x| == |was|
    requires var m := AfterAll(Start(was), es);
             x[..m.off] == was[..m.off] && ChecksumSound(x, now, m)
    ensures var m := AfterAll(Start(was), es);
            && FetchBlock(x, unit).Some? && FetchBlock(x, unit).value.at == AfterAll(m, p)
            && AlikePrefix(p, fs) && Reads(x, m, p) && CoveredAlike(x, now, m, p)
            && (p != [] ==> Complete(p)) && Scan(x, m, None).best == (if p == [] then None else Some(AfterAll(m, p)))
  {
    assert |was| >= 4;
    hide AfterAll, Written, ScanStep, InUse, Scan, FcrcMatches, Complete, Reads, CoveredAlike, AlikePrefix;
    var m := AfterAll(Start(was), es);
    OldLogStands(was, x, es, unit);
    ScanBest(x, m, Some(m));
    NothingRead(x, now, m, fs);
    p := ScanAccepts(x, m, None);
    if Scan(x, m, None).best == None {
      p := [];
    } else {
      AcceptedWasWritten(x, now, m, m, p, fs);
    }
  }

  lemma NothingRead(x: seq<bv8>, now: seq<bv8>, m: Cursor, fs: seq<Entry>)
    ensures AfterAll(m, []) == m && Reads(x, m, []) && CoveredAlike(x, now, m, []) && AlikePrefix([], fs)
  {
  }

  /** What a fetch of the block finds after a power loss somewhere in a commit begun on it. */
  lemma CrashedBlock(was: seq<bv8>, now: seq<bv8>, x: seq<bv8>, es: seq<Entry>, fs: seq<Entry>, attrs: seq<Entry>,
                     unit: nat)
    requires unit > 0 && Begins(was, now, es, fs, unit) && Attributes(attrs) && IsPart(fs, attrs) && |x| == |was|
    requires var m := AfterAll(Start(was), es);
             x[..m.off] == was[..m.off] && ChecksumSound(x, now, m)
    ensures var m := AfterAll(Start(was), es);
            FetchBlock(x, unit).Some? &&
            (FetchBlock(x, unit).value.at == m ||
             SameDirectory(AfterAll(m, attrs), FetchBlock(x, unit).value.at))
  {
    assert |was| >= 4;
    hide AfterAll, Written, ScanStep, SameDirectory, InUse, Scan, FcrcMatches, Complete, Reads, CoveredAlike,
         AlikePrefix, FetchBlock, ChecksumSound, Attributes, IsPart;
    var m := AfterAll(Start(was), es);
    var p := TornScan(was, now, x, es, fs, unit);
    if p == [] { NothingRead(x, now, m, fs); } else { CompletePrefix(m, fs, attrs, p); }
  }

  /** Once the first complete part of the commit is on the device, the new directory is found. */
  lemma AppendDurable(was: seq<bv8>, now: seq<bv8>, x: seq<bv8>, es: seq<Entry>, fs: seq<Entry>, attrs: seq<Entry>,
                      p: seq<Entry>, unit: nat)
    requires unit > 0 && Appends(was, now, es, fs, attrs, unit) && |x| == |was|
    requires var m := AfterAll(Start(was), es);
             x[..m.off] == was[..m.off] && ChecksumSound(x, now, m) && Reads(x, m, p)
    requires Complete(p)
    ensures FetchBlock(x, unit).Some?
    ensures SameDirectory(AfterAll(AfterAll(Start(was), es), attrs), FetchBlock(x, unit).value.at)
  {
    assert |was| >= 4;
    hide AfterAll, Written, ScanStep, SameDirectory, InUse, IsCommit, Scan, FcrcMatches, Complete, Reads, CoveredAlike,
         AlikePrefix, FetchBlock, ChecksumSound, Midway;
    var m := AfterAll(Start(was), es);
    AppendsBegins(was, now, es, fs, attrs, unit);
    var q := TornScan(was, now, x, es, fs, unit);
    ReadIsAccepted(x, m, p);
    CompletePrefix(m, fs, attrs, q);
  }

  lemma NotBackWhereItWas(x: seq<bv8>, m: Cursor)
    ensures Scan(x, m, None).best != Some(m)
  {
    hide Scan, AfterAll;
    if Scan(x, m, None).best == Some(m) {
      var p := ScanAccepts(x, m, None);
      LogGrows(m, p);
    }
  }

  /** A scan that sees the first word of a commit does not take it for erased. */
  lemma FirstTagRead(now: seq<bv8>, x: seq<bv8>, m: Cursor, fs: seq<Entry>)
    requires Written(now, m, fs) && fs != [] && |x| == |now| && m.off + 4 <= |x|
    requires x[m.off..m.off + 4] == now[m.off..m.off + 4]
    ensures ScanStep(x, m) != Halt(true)
  {
    hide XorTag, BeWord, TypeField, SizeField, IdField, Crc;
    BeRoundTrip(XorTag(fs[0].tag, m.ptag));
    XorTagTwice(fs[0].tag, m.ptag);
  }

  /** The part of a torn image that is certain: everything before the torn unit. */
  lemma TornPrefix(was: seq<bv8>, now: seq<bv8>, x: seq<bv8>, at: nat, unit: nat, k: nat)
    requires unit >= 4 && Torn(was, now, at, unit, k, x)
    ensures x[..at] == now[..at]
    ensures k > 0 ==> at + 4 <= |x| && x[at..at + 4] == now[at..at + 4]
  {
    var to := at + k * unit;
    assert x[..at] == x[..to][..at] && now[..at] == now[..to][..at];
    if k > 0 {
      assert k * unit >= unit;
      assert x[at..at + 4] == x[..to][at..at + 4] && now[at..at + 4] == now[..to][at..at + 4];
    }
  }

  /** A block taken for erased behind `p` was not read past it, and what follows matches its forward checksum. */
  lemma ErasedAfter(was: seq<bv8>, now: seq<bv8>, x: seq<bv8>, es: seq<Entry>, fs: seq<Entry>, attrs: seq<Entry>,
                    unit: nat)
      returns (p: seq<Entry>)
    requires unit > 0 && Appends(was, now, es, fs, attrs, unit) && |x| == |was|
    requires var m := AfterAll(Start(was), es);
             x[..m.off] == was[..m.off] && ChecksumSound(x, now, m)
    requires FetchBlock(x, unit).Some? && FetchBlock(x, unit).value.erased
    ensures var m := AfterAll(Start(was), es);
            var c := AfterAll(m, p);
            && FetchBlock(x, unit).value.at == c && c.off % unit == 0
            && AlikePrefix(p, fs) && (p != [] ==> Complete(p)) && CoveredAlike(x, now, m, p)
            && ScanStep(x, c) == Halt(true) && FcrcMatches(x, c.off, c.view.fcrc)
  {
    assert |was| >= 4;
    hide AfterAll, Written, ScanStep, InUse, IsCommit, Complete, FcrcMatches, Reads, CoveredAlike, AlikePrefix, Midway,
         ChecksumSound;
    var m := AfterAll(Start(was), es);
    AppendsBegins(was, now, es, fs, attrs, unit);
    p := TornScan(was, now, x, es, fs, unit);
    OldLogStands(was, x, es, unit);
    ScanBest(x, m, Some(m));
    assert Scan(x, m, None).maybeErased;
    if p == [] {
      NothingRead(x, now, m, fs);
      ErasedMeansUnread(x, m);
    } else {
      ErasedBehind(x, m, p);
    }
  }

  /** Where a scan ends as if erased, it stopped right behind the last commit it accepted. */
  lemma {:induction false} ErasedBehind(x: seq<bv8>, c: Cursor, p: seq<Entry>)
    requires Reads(x, c, p) && Complete(p) && Scan(x, c, None).best == Some(AfterAll(c, p))
             && Scan(x, c, None).maybeErased
    ensures ScanStep(x, AfterAll(c, p)) == Halt(true) && Scan(x, c, None).last == AfterAll(c, p)
    decreases |p|
  {
    hide After, ScanStep, EndsCommit, LengthOf;
    var next := After(c, p[0]);
    AfterGrows(c, p[0]);
    if EndsCommit(p[0].tag) { ScanBest(x, next, Some(next)); }
    if |p| == 1 {
      assert p[1..] == [];
      NotBackWhereItWas(x, next);
      ErasedMeansUnread(x, next);
    } else {
      ReadIsAccepted(x, next, p[1..]);
      ErasedBehind(x, next, p[1..]);
    }
  }

  /** Runs that are alike lead to the same place. */
  lemma {:induction false} AlikeSamePlace(c: Cursor, d: Cursor, p: seq<Entry>, fs: seq<Entry>)
    requires SamePlace(c, d) && AlikePrefix(p, fs)
    ensures SamePlace(AfterAll(c, p), AfterAll(d, fs[..|p|]))
    decreases |p|
  {
    hide After, Alike, SamePlace;
    if p != [] {
      SameAfter(c, d, p[0], fs[0]);
      assert AlikePrefix(p[1..], fs[1..]) by {
        forall i | 0 <= i < |p| - 1 ensures Alike(p[1..][i], fs[1..][i]) { assert Alike(p[i + 1], fs[i + 1]); }
      }
      AlikeSamePlace(After(c, p[0]), After(d, fs[0]), p[1..], fs[1..]);
      assert fs[..|p|][1..] == fs[1..][..|p| - 1];
    }
  }

  /**
   After a torn append the block is taken for erased only behind the whole commit, or where not one
   program unit of it was written and the unit there still has the checksum it had while erased.
   Behind a front part of the commit the next append is never tried.
   */
  lemma TornIsNotErased(was: seq<bv8>, now: seq<bv8>, x: seq<bv8>, es: seq<Entry>, fs: seq<Entry>, attrs: seq<Entry>,
                        unit: nat, k: nat)
    requires unit >= 4 && Appends(was, now, es, fs, attrs, unit)
    requires var m := AfterAll(Start(was), es); Torn(was, now, m.off, unit, k, x) && ChecksumSound(x, now, m)
    requires FetchBlock(x, unit).Some? && FetchBlock(x, unit).value.erased
    ensures var m, at := AfterAll(Start(was), es), FetchBlock(x, unit).value.at;
            at.off == AfterAll(m, fs).off ||
            (at == m && k == 0 && FcrcMatches(was, m.off, m.view.fcrc) && FcrcMatches(x, m.off, m.view.fcrc))
  {
    assert |was| >= 4 && Complete(fs);
    assert Predicted(was, AfterAll(Start(was), es));
    hide AfterAll, Written, ScanStep, InUse, IsCommit, FcrcMatches, FetchBlock, ChecksumSound, CoveredAlike, Midway,
         Complete, AlikePrefix;
    var m := AfterAll(Start(was), es);
    TornPrefix(was, now, x, m.off, unit, k);
    var p := ErasedAfter(was, now, x, es, fs, attrs, unit);
    if p == [] {
      NothingRead(x, now, m, fs);
      if k > 0 { FirstTagRead(now, x, m, fs); }
    } else {
      AlikeSamePlace(m, m, p, fs);
      NotMidway(m, p, fs, unit);
    }
  }

  lemma NotMidway(m: Cursor, p: seq<Entry>, fs: seq<Entry>, unit: nat)
    requires unit > 0 && Midway(m, fs, unit) && AlikePrefix(p, fs) && Complete(p)
    requires AfterAll(m, fs[..|p|]).off % unit == 0
    ensures fs[..|p|] == fs
  {
    assert Alike(p[|p| - 1], fs[|p| - 1]);
    if |p| == |fs| { assert fs[..|fs|] == fs; }
  }

  // ---------------------------------------------------------------- power loss, seen by a fetch of the pair

  /** The pair with `mine` as block `u` and `other` as the other one. */
  function PairOf(u: nat, mine: seq<bv8>, other: seq<bv8>): (seq<bv8>, seq<bv8>)
  {
    if u == 0 then (mine, other) else (other, mine)
  }

  function FetchOf(u: nat, mine: seq<bv8>, other: seq<bv8>, unit: nat): Option<(nat, Fetched)>
    requires |mine| >= 4 && |other| >= 4 && unit > 0
  {
    var (b0, b1) := PairOf(u, mine, other);
    FetchPair(b0, b1, unit)
  }

  /**
   Whatever the torn image `x` of the block in use, fetching the pair yields the directory before
   the commit begun on it or the directory after it, and from the same block.
   */
  lemma BegunIsAtomic(u: nat, other: seq<bv8>, was: seq<bv8>, now: seq<bv8>, x: seq<bv8>, es: seq<Entry>,
                      fs: seq<Entry>, attrs: seq<Entry>, unit: nat, k: nat)
    requires u < 2 && |other| >= 4 && unit >= 4
    requires Begins(was, now, es, fs, unit) && Attributes(attrs) && IsPart(fs, attrs)
    requires FetchOf(u, was, other, unit) == Some((u, Fetched(AfterAll(Start(was), es), true)))
    requires var m := AfterAll(Start(was), es); Torn(was, now, m.off, unit, k, x) && ChecksumSound(x, now, m)
    ensures var m := AfterAll(Start(was), es);
            var r := FetchOf(u, x, other, unit);
            r.Some? && r.value.0 == u &&
            (r.value.1.at == m || SameDirectory(AfterAll(m, attrs), r.value.1.at))
  {
    assert |was| >= 4;
    hide AfterAll, Written, InUse, SameDirectory, ChecksumSound, FetchBlock, Newer, RevOf, Scan, Attributes, IsPart;
    var m := AfterAll(Start(was), es);
    TornPrefix(was, now, x, m.off, unit, k);
    CrashedBlock(was, now, x, es, fs, attrs, unit);
    OldLogStands(was, x, es, unit);
    SameRev(was, x, m.off);
    FetchesInUse(was, es, unit);
  }

  /** Atomic append. */
  lemma AppendIsAtomic(u: nat, other: seq<bv8>, was: seq<bv8>, now: seq<bv8>, x: seq<bv8>, es: seq<Entry>,
                       fs: seq<Entry>, attrs: seq<Entry>, unit: nat, k: nat)
    requires u < 2 && |other| >= 4 && unit >= 4 && Appends(was, now, es, fs, attrs, unit)
    requires FetchOf(u, was, other, unit) == Some((u, Fetched(AfterAll(Start(was), es), true)))
    requires var m := AfterAll(Start(was), es); Torn(was, now, m.off, unit, k, x) && ChecksumSound(x, now, m)
    ensures var m := AfterAll(Start(was), es);
            var r := FetchOf(u, x, other, unit);
            r.Some? && r.value.0 == u &&
            (r.value.1.at == m || SameDirectory(AfterAll(m, attrs), r.value.1.at))
  {
    assert |was| >= 4;
    hide AfterAll, Appends, Begins, SameDirectory, ChecksumSound, FetchOf, Torn, Attributes, IsPart;
    AppendsBegins(was, now, es, fs, attrs, unit);
    BegunIsAtomic(u, other, was, now, x, es, fs, attrs, unit, k);
  }

  /**
   An append that ran out of room is atomic as well: until the other block is written, the pair is
   fetched as before, or with the whole new directory where padding had already sealed it.
   */
  lemma AbandonedIsAtomic(u: nat, other: seq<bv8>, was: seq<bv8>, now: seq<bv8>, x: seq<bv8>, es: seq<Entry>,
                          part: seq<Entry>, attrs: seq<Entry>, unit: nat, k: nat)
    requires u < 2 && |other| >= 4 && unit >= 4 && Abandons(was, now, es, part, attrs, unit)
    requires FetchOf(u, was, other, unit) == Some((u, Fetched(AfterAll(Start(was), es), true)))
    requires var m := AfterAll(Start(was), es); Torn(was, now, m.off, unit, k, x) && ChecksumSound(x, now, m)
    ensures var m := AfterAll(Start(was), es);
            var r := FetchOf(u, x, other, unit);
            && r.Some? && r.value.0 == u
            && (r.value.1.at == m || (attrs <= part && SameDirectory(AfterAll(m, attrs), r.value.1.at)))
    ensures var m := AfterAll(Start(was), es);
            part <= attrs ==> FetchOf(u, x, other, unit).value.1.at == m
  {
    assert |was| >= 4;
    hide AfterAll, Begins, SameDirectory, ChecksumSound, FetchOf, Torn, Attributes, FetchBlock;
    BegunIsAtomic(u, other, was, now, x, es, part, attrs, unit, k);
    if part <= attrs { UnsealedPart(u, other, was, now, x, es, part, attrs, unit, k); }
  }

  /** Without a seal there is nothing to accept. */
  lemma UnsealedPart(u: nat, other: seq<bv8>, was: seq<bv8>, now: seq<bv8>, x: seq<bv8>, es: seq<Entry>,
                     part: seq<Entry>, attrs: seq<Entry>, unit: nat, k: nat)
    requires u < 2 && |other| >= 4 && unit >= 4 && Abandons(was, now, es, part, attrs, unit) && part <= attrs
    requires var m := AfterAll(Start(was), es); Torn(was, now, m.off, unit, k, x) && ChecksumSound(x, now, m)
    requires FetchOf(u, x, other, unit).Some? && FetchOf(u, x, other, unit).value.0 == u
    ensures FetchOf(u, x, other, unit).value.1.at == AfterAll(Start(was), es)
  {
    assert |was| >= 4;
    hide AfterAll, Written, InUse, ChecksumSound, FetchBlock, Newer, RevOf, Scan, Reads, CoveredAlike, EndsCommit,
         Shaped;
    var m := AfterAll(Start(was), es);
    TornPrefix(was, now, x, m.off, unit, k);
    var p := TornScan(was, now, x, es, part, unit);
    if p == [] {
      NothingRead(x, now, m, part);
    } else {
      AttributesDoNotEnd(p, part, attrs);
      assert false;
    }
  }

  /** The finished append is what a fetch of the pair finds. */
  lemma AppendFetched(u: nat, other: seq<bv8>, was: seq<bv8>, now: seq<bv8>, es: seq<Entry>, fs: seq<Entry>,
                      attrs: seq<Entry>, unit: nat)
    requires u < 2 && |other| >= 4 && unit >= 4 && Appends(was, now, es, fs, attrs, unit)
    requires FetchOf(u, was, other, unit) == Some((u, Fetched(AfterAll(Start(was), es), true)))
    ensures var r := FetchOf(u, now, other, unit);
            r.Some? && r.value.0 == u && SameDirectory(AfterAll(AfterAll(Start(was), es), attrs), r.value.1.at)
  {
    assert |was| >= 4 && Complete(fs);
    hide AfterAll, Written, InUse, IsCommit, SameDirectory, ChecksumSound, FetchBlock, Newer, RevOf, Midway, ScanStep,
         Reads, Complete;
    var m := AfterAll(Start(was), es);
    WrittenReads(now, m, fs);
    SoundOfItself(now, m);
    AppendDurable(was, now, now, es, fs, attrs, fs, unit);
    OldLogStands(was, now, es, unit);
    SameRev(was, now, m.off);
    FetchesInUse(was, es, unit);
  }

  lemma SameRev(b: seq<bv8>, d: seq<bv8>, to: nat)
    requires 4 <= to <= |b| && |b| == |d| && b[..to] == d[..to]
    ensures RevOf(b) == RevOf(d)
  {
    assert b[..4] == b[..to][..4] && d[..4] == d[..to][..4];
  }

  /** The block a compaction writes: the next revision, then one commit, and a scan stops there. */
  predicate Rewrites(mine: seq<bv8>, now: seq<bv8>, fs: seq<Entry>, attrs: seq<Entry>)
  {
    && |mine| >= 4 && |now| >= 4 && RevOf(now) == RevOf(mine) + 1
    && IsCommit(fs, attrs) && Written(now, Start(now), fs) && ScanStep(now, AfterAll(Start(now), fs)).Halt?
  }

  /** The idealised checksum for a block being rewritten: its first checksum speaks for the revision word as well. */
  ghost predicate RewriteSound(x: seq<bv8>, now: seq<bv8>)
    requires |x| >= 4 && |now| >= 4
  {
    forall p :: Reads(x, Start(x), p) && Complete(p) ==> x[..4] == now[..4] && CoveredAlike(x, now, Start(x), p)
  }

  lemma SameRevWords(b: seq<bv8>, d: seq<bv8>)
    requires |b| >= 4 && |d| >= 4 && b[..4] == d[..4]
    ensures RevOf(b) == RevOf(d)
  {
  }

  /** A block with the next revision and a complete commit wins the fetch. */
  lemma NextRevisionWins(u: nat, mine: seq<bv8>, x: seq<bv8>, f: Fetched, unit: nat)
    requires u < 2 && unit > 0 && |mine| >= 4 && |x| >= 4
    requires RevOf(x) == RevOf(mine) + 1 && FetchBlock(x, unit) == Some(f)
    ensures FetchOf(u, mine, x, unit) == Some((1 - u, f))
  {
    hide Newer, RevOf, FetchBlock;
    NextRevision(RevOf(mine));
  }

  /** A block without a complete commit loses it, whatever its first word. */
  lemma NoCommitLoses(u: nat, mine: seq<bv8>, x: seq<bv8>, f: Fetched, unit: nat)
    requires u < 2 && unit > 0 && |mine| >= 4 && |x| >= 4
    requires FetchBlock(x, unit) == None && FetchBlock(mine, unit) == Some(f)
    ensures FetchOf(u, mine, x, unit) == Some((u, f))
  {
    hide Newer, RevOf, FetchBlock;
  }

  lemma FetchedFrom(u: nat, mine: seq<bv8>, other: seq<bv8>, f: Fetched, unit: nat)
    requires u < 2 && unit > 0 && |mine| >= 4 && |other| >= 4
    requires FetchOf(u, mine, other, unit) == Some((u, f))
    ensures FetchBlock(mine, unit) == Some(f)
  {
    hide Newer, RevOf, FetchBlock;
  }

  /** A torn block that is fetched at all holds the new directory. */
  lemma RewriteFetched(mine: seq<bv8>, x: seq<bv8>, now: seq<bv8>, fs: seq<Entry>, attrs: seq<Entry>, unit: nat)
    requires unit > 0 && |x| == |now| && Rewrites(mine, now, fs, attrs) && RewriteSound(x, now)
    ensures FetchBlock(x, unit).Some? ==>
              RevOf(x) == RevOf(now) && SameDirectory(AfterAll(Start(now), attrs), FetchBlock(x, unit).value.at)
  {
    hide AfterAll, Written, IsCommit, SameDirectory, RevOf, Scan, ScanStep, Complete, FcrcMatches, Reads, CoveredAlike,
         AlikePrefix;
    var r := Scan(x, Start(x), None).best;
    if r.Some? {
      var p := ScanAccepts(x, Start(x), None);
      SameRevWords(x, now);
      HaltFindsNothing(now, AfterAll(Start(now), fs));
      CommitIsPart(fs, attrs);
      AcceptedWasWritten(x, now, Start(now), Start(now), p, fs);
      CompletePrefix(Start(now), fs, attrs, p);
    }
  }

  /**
   Atomic compaction: while the other block is erased and rewritten, a fetch yields the directory
   before or after, also when the revision counter wraps around. `x` is that block untouched, or
   erased and then programmed up to a torn unit.
   */
  lemma CompactionIsAtomic(u: nat, mine: seq<bv8>, other: seq<bv8>, erased: seq<bv8>, now: seq<bv8>, x: seq<bv8>,
                           fs: seq<Entry>, attrs: seq<Entry>, f: Fetched, unit: nat, k: nat)
    requires u < 2 && unit > 0 && |other| >= 4 && Rewrites(mine, now, fs, attrs)
    requires FetchOf(u, mine, other, unit) == Some((u, f))
    requires x == other || (Torn(erased, now, 0, unit, k, x) && RewriteSound(x, now))
    ensures var r := FetchOf(u, mine, x, unit);
            r == Some((u, f)) ||
            (r.Some? && r.value.0 == 1 - u && SameDirectory(AfterAll(Start(now), attrs), r.value.1.at))
  {
    if x != other {
      hide AfterAll, Written, IsCommit, SameDirectory, Newer, RevOf, FetchBlock, FetchOf, RewriteSound, ScanStep;
      FetchedFrom(u, mine, other, f, unit);
      RewriteFetched(mine, x, now, fs, attrs, unit);
      match FetchBlock(x, unit)
      case None => NoCommitLoses(u, mine, x, f, unit);
      case Some(g) => NextRevisionWins(u, mine, x, g, unit);
    }
  }

  /** Once the rewritten block is whole, the new directory is found. */
  lemma CompactionDurable(u: nat, mine: seq<bv8>, now: seq<bv8>, fs: seq<Entry>, attrs: seq<Entry>, unit: nat)
    requires u < 2 && unit > 0 && Rewrites(mine, now, fs, attrs)
    ensures var r := FetchOf(u, mine, now, unit);
            r.Some? && r.value.0 == 1 - u && SameDirectory(AfterAll(Start(now), attrs), r.value.1.at)
  {
    assert Complete(fs);
    hide AfterAll, Written, IsCommit, SameDirectory, RevOf, FetchOf, RewriteSound, Complete, FetchBlock, ScanStep;
    assert RewriteSound(now, now) by { RewriteSoundOfItself(now); }
    WholeIsFound(now, fs, unit);
    RewriteFetched(mine, now, now, fs, attrs, unit);
    NextRevisionWins(u, mine, now, FetchBlock(now, unit).value, unit);
  }

  lemma RewriteSoundOfItself(x: seq<bv8>)
    requires |x| >= 4
    ensures RewriteSound(x, x)
  {
    hide Reads, Complete, CoveredAlike, Start;
    forall p | Reads(x, Start(x), p) && Complete(p) ensures CoveredAlike(x, x, Start(x), p) {
      ReadsCovered(x, Start(x), p);
    }
  }

  lemma WholeIsFound(now: seq<bv8>, fs: seq<Entry>, unit: nat)
    requires unit > 0 && |now| >= 4 && Written(now, Start(now), fs) && Complete(fs)
    ensures FetchBlock(now, unit).Some?
  {
    hide AfterAll, Written, Scan, Complete, FcrcMatches;
    ScanWritten(now, Start(now), fs, None);
    BestOfComplete(Start(now), fs, None);
    ScanBest(now, AfterAll(Start(now), fs), Some(AfterAll(Start(now), fs)));
  }

  // ---------------------------------------------------------------- the writer meets these terms

  /** What a successful `Writer.CommitAll` on the block in use leaves is an append in this sense. */
  lemma WriterAppends(was: seq<bv8>, now: seq<bv8>, es: seq<Entry>, fs: seq<Entry>, attrs: seq<Entry>, unit: nat)
    requires unit > 0 && InUse(was, es, unit) && Attributes(attrs)
    requires var m := AfterAll(Start(was), es);
             Written(now, m, fs) && m.off <= |was| && Framed(was, now, m.off, AfterAll(m, fs).off)
    requires attrs <= fs && SealsOnly(fs[|attrs|..]) && Complete(fs) && Midway(AfterAll(Start(was), es), fs, unit)
    requires var c := AfterAll(AfterAll(Start(was), es), fs); c.off + 4 <= |now| ==> Predicted(now, c)
    ensures Appends(was, now, es, fs, attrs, unit)
  {
    assert |was| >= 4;
    hide AfterAll, Written, InUse, SealsOnly, Complete, Attributes, Midway;
    StopsBehind(now, AfterAll(AfterAll(Start(was), es), fs));
  }

  lemma StopsBehind(b: seq<bv8>, c: Cursor)
    requires c.off + 4 <= |b| ==> Predicted(b, c)
    ensures ScanStep(b, c).Halt?
  {
  }

  /** And if room is left behind it, the block is in use again, ready for the next append. */
  lemma AppendKeepsInUse(was: seq<bv8>, now: seq<bv8>, es: seq<Entry>, fs: seq<Entry>, attrs: seq<Entry>, unit: nat)
    requires unit > 0 && Appends(was, now, es, fs, attrs, unit)
    requires var c := AfterAll(AfterAll(Start(was), es), fs); c.off % unit == 0 && Predicted(now, c)
    ensures InUse(now, es + fs, unit)
    ensures FetchBlock(now, unit) == Some(Fetched(AfterAll(Start(was), es + fs), true))
  {
    assert |was| >= 4 && Complete(es + fs);
    hide AfterAll, Written, InUse, Predicted, IsCommit, FetchBlock, Complete;
    OldLogStands(was, now, es, unit);
    WrittenConcat(now, Start(was), es, fs);
    NowInUse(now, es + fs, unit);
    FetchesInUse(now, es + fs, unit);
  }

  lemma NowInUse(b: seq<bv8>, es: seq<Entry>, unit: nat)
    requires unit > 0 && |b| >= 4 && Written(b, Start(b), es) && Complete(es)
    requires AfterAll(Start(b), es).off % unit == 0 && Predicted(b, AfterAll(Start(b), es))
    ensures InUse(b, es, unit)
  {
  }

  lemma CompleteResets(c: Cursor, es: seq<Entry>)
    requires Complete(es)
    ensures AfterAll(c, es).crc == CRC_START
  {
    var front, e := es[..|es| - 1], es[|es| - 1];
    assert es == front + [e];
    hide After;
    AfterLast(c, front, e);
    CommitResets(AfterAll(c, front), e);
  }

  lemma CommitResets(c: Cursor, e: Entry)
    requires EndsCommit(e.tag)
    ensures After(c, e).crc == CRC_START
  {
    hide Crc, XorTag, TypeOf, SizeOf, IdOf, Noted, NextPtag, LengthOf;
  }

  /** The append path of a commit: program the attributes and the seal behind the last commit. */
  method AppendCommit(block: array<bv8>, off: nat, etag: Word, ghost es: seq<Entry>, attrs: seq<Entry>,
                      limit: nat, progSize: bv32) returns (ok: bool, ghost fs: seq<Entry>)
    requires progSize as nat > 0 && block.Length % (progSize as nat) == 0 && limit + 8 <= block.Length
    requires InUse(block[..], es, progSize as nat) && Attributes(attrs)
    requires var m := AfterAll(Start(block[..]), es); off == m.off && etag == m.ptag && off <= limit
    modifies block
    ensures ok ==> Appends(old(block[..]), block[..], es, fs, attrs, progSize as nat)
    ensures |block[..]| >= 4
    ensures ok ==> var c := AfterAll(AfterAll(Start(old(block[..])), es), fs);
                   c.off % (progSize as nat) == 0 && (c.off + 4 <= block.Length ==> Predicted(block[..], c))
    ensures var end := AfterAll(AfterAll(Start(old(block[..])), es), attrs).off;
            CommitFits(ok, end, block.Length, limit, progSize as nat)
    // out of room: what is left is abandoned, where the byte behind it is erased to a set top bit
    ensures !ok ==> Written(block[..], AfterAll(Start(old(block[..])), es), fs) && IsPart(fs, attrs)
    ensures !ok ==> (fs <= attrs <==> var end := AfterAll(AfterAll(Start(old(block[..])), es), attrs).off;
                                      end > limit || OneTag(end, block.Length, progSize as nat))
    ensures !ok && BlankBehind(block[..], AfterAll(AfterAll(Start(old(block[..])), es), fs).off) ==>
              Abandons(old(block[..]), block[..], es, fs, attrs, progSize as nat)
  {
    ghost var was := block[..];
    ghost var m := AfterAll(Start(was), es);
    assert Complete(es);
    hide AfterAll, Written, InUse, Predicted, SealsOnly, Complete, Attributes, Framed, Midway, OneTag, RoomForSeal,
         Appends, Abandons, IsPart, CommitFits, TagWord.Valid, BlankBehind;
    CompleteResets(Start(was), es);
    NothingWritten(was, m);
    var w := new Writer(block, limit, off, etag, CRC_START, m);
    ok := w.CommitAll(attrs, progSize);
    fs := w.es;
    CommitFitsIs(ok, AfterAll(m, attrs).off, block.Length, limit, progSize as nat);
    if ok {
      WriterAppends(was, block[..], es, fs, attrs, progSize as nat);
    } else if BlankBehind(block[..], AfterAll(m, fs).off) {
      WriterAbandons(was, block[..], es, fs, attrs, progSize as nat);
    }
  }

  /** The next byte has its top bit set, as erased flash has. */
  predicate BlankBehind(b: seq<bv8>, off: nat) { off < |b| ==> b[off] & 0x80 != 0 }

  /** What a `Writer.CommitAll` that runs out of room leaves is an abandoned append in this sense. */
  lemma WriterAbandons(was: seq<bv8>, now: seq<bv8>, es: seq<Entry>, part: seq<Entry>, attrs: seq<Entry>, unit: nat)
    requires unit > 0 && InUse(was, es, unit) && Attributes(attrs) && IsPart(part, attrs)
    requires var m := AfterAll(Start(was), es);
             && Written(now, m, part) && m.off <= |was| && Framed(was, now, m.off, AfterAll(m, part).off)
             && (part != [] ==> TagWord.Valid(AfterAll(m, part).ptag)) && BlankBehind(now, AfterAll(m, part).off)
    ensures Abandons(was, now, es, part, attrs, unit)
  {
    assert |was| >= 4 && Predicted(was, AfterAll(Start(was), es));
    hide AfterAll, Written, InUse, Attributes, IsPart, TagWord.Valid, ScanStep;
    var m := AfterAll(Start(was), es);
    if part == [] {
      NothingWritten(now, m);
      assert now == now[..m.off] + now[m.off..] && was == was[..m.off] + was[m.off..];
    } else {
      StopsAtBlank(now, AfterAll(m, part));
    }
    HaltFindsNothing(now, AfterAll(m, part));
  }

  lemma NothingWritten(b: seq<bv8>, c: Cursor)
    ensures Written(b, c, []) && AfterAll(c, []) == c
  {
  }

  /** The outcome `ok` of a commit whose attributes end at `end`: it succeeds if and only if they and the seal fit. */
  predicate CommitFits(ok: bool, end: nat, blockSize: nat, limit: nat, unit: nat)
    requires unit > 0 && blockSize % unit == 0
  {
    && (end > limit ==> !ok)
    && (end <= limit && OneTag(end, blockSize, unit) ==> (ok <==> RoomForSeal(end, blockSize, limit, unit)))
  }

  lemma CommitFitsIs(ok: bool, end: nat, blockSize: nat, limit: nat, unit: nat)
    requires unit > 0 && blockSize % unit == 0 && (end > limit ==> !ok)
    requires end <= limit && OneTag(end, blockSize, unit) ==> (ok <==> RoomForSeal(end, blockSize, limit, unit))
    ensures CommitFits(ok, end, blockSize, limit, unit)
  {
  }

  /**
   With program units up to 1006 bytes, and commits allowed up to eight bytes in front of the end of
   the block, a commit succeeds if and only if its attributes end there at the latest.
   */
  lemma CommitFitsLimit(ok: bool, end: nat, blockSize: nat, unit: nat)
    requires 0 < unit <= 1006 && blockSize % unit == 0 && blockSize >= 8
    requires CommitFits(ok, end, blockSize, blockSize - 8, unit)
    ensures ok <==> end <= blockSize - 8
  {
    hide OneTag, RoomForSeal;
    if end <= blockSize - 8 {
      SmallUnitsTakeOneTag(end, blockSize, unit);
      AlwaysRoomForSeal(end, blockSize, unit);
    }
  }

  /** The rewrite path of a commit: the block is erased, then revision word, attributes, seal. */
  method RewriteBlock(block: array<bv8>, rev: bv32, mine: seq<bv8>, attrs: seq<Entry>, limit: nat, progSize: bv32,
                      blank: bv8)
      returns (ok: bool, ghost erased: seq<bv8>, ghost fs: seq<Entry>)
    requires progSize as nat > 0 && block.Length % (progSize as nat) == 0 && 4 <= limit && limit + 8 <= block.Length
    requires |mine| >= 4 && rev == RevOf(mine) + 1 && Attributes(attrs)
    modifies block
    ensures erased == seq(block.Length, _ => blank)
    ensures ok ==> Rewrites(mine, block[..], fs, attrs)
    ensures |block[..]| >= 4
    ensures CommitFits(ok, AfterAll(StartCursor(Le32(rev)), attrs).off, block.Length, limit, progSize as nat)
    ensures ok ==> var c := AfterAll(Start(block[..]), fs);
                   c.off % (progSize as nat) == 0 && (c.off + 4 <= block.Length ==> Predicted(block[..], c))
  {
    hide AfterAll, Written, Predicted, SealsOnly, Complete, Attributes, Framed, Crc, Midway, OneTag, RoomForSeal,
         LeWord, Le32, CommitFits, IsPart, LengthOf;
    Erase(block, blank);
    erased := block[..];
    var word := Le32(rev);
    PutRevision(block, word);
    var crc := LfsCrc(CRC_START, word);
    ghost var was := block[..];
    ghost var start := StartCursor(word);
    assert Running(start, 4, FIRST, crc) by { StartRuns(word, crc); }
    NothingWritten(was, start);
    var w := new Writer(block, limit, 4, FIRST, crc, start);
    ok := w.CommitAll(attrs, progSize);
    fs := w.es;
    CommitFitsIs(ok, AfterAll(start, attrs).off, block.Length, limit, progSize as nat);
    if ok {
      assert block[..][..4] == word by { FramedFront(was, block[..], 4, w.off); }
      LeRoundTrip(rev);
      StopsBehind(block[..], AfterAll(start, fs));
    }
  }

  /** Erasing a block is one step. */
  method Erase(block: array<bv8>, blank: bv8)
    modifies block
    ensures block[..] == seq(block.Length, _ => blank)
  {
    forall i | 0 <= i < block.Length {
      block[i] := blank;
    }
  }

  /** A rewritten block with room left behind the commit is in use, ready for the next append. */
  lemma RewriteInUse(mine: seq<bv8>, now: seq<bv8>, fs: seq<Entry>, attrs: seq<Entry>, unit: nat)
    requires unit > 0 && Rewrites(mine, now, fs, attrs)
    requires AfterAll(Start(now), fs).off % unit == 0 && Predicted(now, AfterAll(Start(now), fs))
    ensures InUse(now, fs, unit)
    ensures FetchBlock(now, unit) == Some(Fetched(AfterAll(Start(now), fs), true))
  {
    assert Complete(fs);
    hide AfterAll, Written, InUse, Predicted, IsCommit, FetchBlock, Complete;
    NowInUse(now, fs, unit);
    FetchesInUse(now, fs, unit);
  }

  /** The revision word, in front of the log. */
  method PutRevision(block: array<bv8>, word: seq<bv8>)
    requires |word| == 4 <= block.Length
    modifies block
    ensures block[..4] == word && block[..][..4] == word
  {
    forall i | 0 <= i < 4 {
      block[i] := word[i];
    }
    assert block[..][..4] == block[..4] == word;
  }

  lemma StartRuns(word: seq<bv8>, crc: Register)
    requires crc == Crc(CRC_START, word)
    ensures Running(StartCursor(word), 4, FIRST, crc)
  {
  }

  lemma FramedFront(was: seq<bv8>, now: seq<bv8>, lo: nat, hi: nat)
    requires Framed(was, now, lo, hi)
    ensures lo <= |now| && now[..lo] == was[..lo]
  {
  }
}
