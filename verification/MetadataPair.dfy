/** Fetching a metadata pair (lfs_dir_fetchmatch): which block, which commit, which directory. */
module MetadataPair {
  import opened Common
  import opened Commit
  import opened Crc32
  import opened DirLog
  import opened TagChain
  import opened TagWord

  // ---------------------------------------------------------------- one block

  /** The fetch loop over one block. */
  method ScanBlock(b: seq<bv8>, rev: seq<bv8>) returns (r: Scanned)
    ensures r == Scan(b, StartCursor(rev), None)
  {
    hide Crc, XorTag, BeWord, Valid, TypeOf, IdOf, SizeOf, Noted, NextPtag, LengthOf;
    var crc := LfsCrc(CRC_START, rev);
    var off: nat, ptag, view := 4, FIRST, NOTHING;
    var best: Option<Cursor> := None;
    while true
      invariant Scan(b, StartCursor(rev), None) == Scan(b, Cursor(off, ptag, crc, view), best)
      decreases |b| - off
    {
      var c := Cursor(off, ptag, crc, view);
      if off + 4 > |b| { return Scanned(best, c, false); }
      var word := b[off..off + 4];
      var tag := XorTag(BeWord(word), ptag);
      if !Valid(tag) { return Scanned(best, c, EndsCommit(ptag)); }
      if off + LengthOf(tag) > |b| { return Scanned(best, c, false); }
      var e := Entry(tag, b[off + 4..off + LengthOf(tag)]);
      WordBack(word, tag, ptag);
      crc := LfsCrc(crc, word);
      if EndsCommit(tag) {
        if off + 8 > |b| || b[off + 4..off + 8] != Le32(crc.bits) { return Scanned(best, c, false); }
        crc := CRC_START;
      } else {
        if (Type1(TypeOf(tag)) == TYPE_TAIL || TypeOf(tag) == TYPE_FCRC) && |e.data| < 8 {
          return Scanned(best, c, false);
        }
        CrcConcat(c.crc, word, e.data);
        crc := BdCrc(crc, e.data);
      }
      off, ptag, view := off + LengthOf(tag), NextPtag(tag), Noted(view, e);
      if EndsCommit(tag) { best := Some(Cursor(off, ptag, crc, view)); }
    }
  }

  lemma WordBack(word: seq<bv8>, tag: Word, ptag: Word)
    requires |word| == 4 && tag == XorTag(BeWord(word), ptag)
    ensures BeBytes(XorTag(tag, ptag)) == word
  {
    XorTagTwice(BeWord(word), ptag);
    BytesOfWord(word);
  }

  /** What a fetch of one block concludes: the last commit, and whether the rest is known erased. */
  datatype Fetched = Fetched(at: Cursor, erased: bool)

  function Concluded(b: seq<bv8>, r: Scanned, progSize: nat): Option<Fetched>
    requires progSize > 0
  {
    match r.best
    case None => None
    case Some(c) =>
      Some(Fetched(c, r.maybeErased && c.off % progSize == 0 && FcrcMatches(b, c.off, r.last.view.fcrc)))
  }

  function FetchBlock(b: seq<bv8>, progSize: nat): Option<Fetched>
    requires |b| >= 4 && progSize > 0
  {
    Concluded(b, Scan(b, StartCursor(b[..4]), None), progSize)
  }

  // ---------------------------------------------------------------- two blocks

  /** Sequence comparison of revision counts: their distance ignoring overflow is positive. */
  predicate Newer(a: bv32, b: bv32) { a != b && (a - b) & 0x8000_0000 == 0 }

  function RevOf(b: seq<bv8>): bv32
    requires |b| >= 4
  {
    LeWord(b[..4])
  }

  /** The block a fetch tries first: block 1 only if its revision is newer. */
  function FirstTried(b0: seq<bv8>, b1: seq<bv8>): nat
    requires |b0| >= 4 && |b1| >= 4
  {
    if Newer(RevOf(b1), RevOf(b0)) then 1 else 0
  }

  /** The outcome of fetching a pair: which block, and what was found in it. */
  function FetchPair(b0: seq<bv8>, b1: seq<bv8>, progSize: nat): Option<(nat, Fetched)>
    requires |b0| >= 4 && |b1| >= 4 && progSize > 0
  {
    var r := FirstTried(b0, b1);
    match FetchBlock(if r == 0 then b0 else b1, progSize)
    case Some(f) => Some((r, f))
    case None =>
      match FetchBlock(if r == 0 then b1 else b0, progSize)
      case Some(f) => Some((1 - r, f))
      case None => None
  }

  method Fetch(b0: seq<bv8>, b1: seq<bv8>, progSize: nat) returns (r: Option<(nat, Fetched)>)
    requires |b0| >= 4 && |b1| >= 4 && progSize > 0
    ensures r == FetchPair(b0, b1, progSize)
  {
    hide Scan, Newer, FcrcMatches;
    var revs := [RevOf(b0), RevOf(b1)];
    var first := if Newer(revs[1], revs[0]) then 1 else 0;
    for i := 0 to 2
      invariant i == 1 ==> FetchBlock(if first == 0 then b0 else b1, progSize) == None
      invariant i == 2 ==> FetchPair(b0, b1, progSize) == None
    {
      var which := if i == 0 then first else 1 - first;
      var b := if which == 0 then b0 else b1;
      var scanned := ScanBlock(b, b[..4]);
      var f := Concluded(b, scanned, progSize);
      if f.Some? { return Some((which, f.value)); }
    }
    return None;
  }

  /** The next revision is newer and the present one is not, also when the counter wraps. */
  lemma NextRevision(rev: bv32)
    ensures Newer(rev + 1, rev) && !Newer(rev, rev + 1)
  {
  }

  /** A distance as a signed number that is positive: how far `a` is in front of `b`. */
  predicate Ahead(a: bv32, b: bv32) { 0 < a - b <= 0x7fff_ffff }

  /** Exactly the next 2^31 - 1 revisions are newer. */
  lemma NewerIsAhead(a: bv32, b: bv32)
    ensures Newer(a, b) <==> Ahead(a, b)
  {
  }

  /** A fetch takes the block whose revision is ahead, if there is a commit in it, and otherwise the other. */
  lemma FetchPrefers(b0: seq<bv8>, b1: seq<bv8>, progSize: nat)
    requires |b0| >= 4 && |b1| >= 4 && progSize > 0
    ensures Ahead(RevOf(b1), RevOf(b0)) ==>
              FetchPair(b0, b1, progSize) == if FetchBlock(b1, progSize).Some? then InBlock(1, FetchBlock(b1, progSize))
                                             else InBlock(0, FetchBlock(b0, progSize))
    ensures !Ahead(RevOf(b1), RevOf(b0)) ==>
              FetchPair(b0, b1, progSize) == if FetchBlock(b0, progSize).Some? then InBlock(0, FetchBlock(b0, progSize))
                                             else InBlock(1, FetchBlock(b1, progSize))
  {
    hide FetchBlock, Newer, Ahead, RevOf;
    NewerIsAhead(RevOf(b1), RevOf(b0));
  }

  function InBlock(which: nat, f: Option<Fetched>): Option<(nat, Fetched)>
  {
    match f
    case Some(x) => Some((which, x))
    case None => None
  }

  // ---------------------------------------------------------------- what a scan can accept

  /** A scan from `c` reads the tags `p`. */
  predicate Reads(b: seq<bv8>, c: Cursor, p: seq<Entry>)
    decreases |p|
  {
    p == [] || (ScanStep(b, c) == Advance(p[0]) && Reads(b, After(c, p[0]), p[1..]))
  }

  /** What a scan accepts, it has read; its cursor is the one the tags read lead to. */
  lemma {:induction false} ScanAccepts(b: seq<bv8>, c: Cursor, best: Option<Cursor>) returns (p: seq<Entry>)
    ensures Scan(b, c, best).best == best ||
            (Complete(p) && Reads(b, c, p) && Scan(b, c, best).best == Some(AfterAll(c, p)))
    decreases |b| - c.off
  {
    hide After, EndsCommit, ScanStep, Complete, AfterAll, Reads;
    p := [];
    if ScanStep(b, c).Advance? {
      var e := ScanStep(b, c).entry;
      var next := After(c, e);
      AfterGrows(c, e);
      StepAdvances(b, c, e);
      var best' := if EndsCommit(e.tag) then Some(next) else best;
      var q := ScanAccepts(b, next, best');
      if Scan(b, next, best').best == best' {
        p := [e];
        MoreAccepted(b, c, e, []);
      } else {
        p := [e] + q;
        MoreAccepted(b, c, e, q);
      }
    }
  }

  /** What is read is well shaped as far as tails go. */
  lemma {:induction false} ReadTailsShaped(b: seq<bv8>, c: Cursor, p: seq<Entry>)
    requires Reads(b, c, p)
    ensures TailsShaped(p)
    decreases |p|
  {
    hide After, IsTailTag, ScanStep;
    if p != [] {
      if IsTailTag(p[0]) { StepTailShaped(b, c, p[0]); }
      ReadTailsShaped(b, After(c, p[0]), p[1..]);
      forall k | 0 <= k < |p| && IsTailTag(p[k]) ensures |p[k].data| >= 8 {
        if k > 0 { assert p[k] == p[1..][k - 1]; }
      }
    }
  }

  lemma StepTailShaped(b: seq<bv8>, c: Cursor, e: Entry)
    requires ScanStep(b, c) == Advance(e) && IsTailTag(e)
    ensures |e.data| >= 8
  {
    hide XorTag, BeWord, Valid, TypeField, Crc;
    assert !EndsCommit(e.tag) by { TailEndsNothing(e); }
  }

  lemma TailEndsNothing(e: Entry)
    requires IsTailTag(e)
    ensures !EndsCommit(e.tag)
  {
    hide TypeOf;
  }

  /**
   What a fetch restores of tails: the newest tail tag it has read decides the next pair and
   whether the directory goes on there.
   */
  lemma FetchedTail(b: seq<bv8>, progSize: nat)
    requires |b| >= 4 && progSize > 0 && FetchBlock(b, progSize).Some?
    ensures var v := FetchBlock(b, progSize).value.at.view;
            && Reads(b, StartCursor(b[..4]), v.log)
            && match NewestTail(v.log)
               case None => v.tail == None && !v.split
               case Some(e) =>
                 |e.data| >= 8 && v.tail == Some(e.data[..8]) && (v.split <==> e.tag.bits & 0x10_0000 != 0)
  {
    hide Reads, AfterAll, NotedAll, NewestTail, Scan;
    var p := ScanAccepts(b, StartCursor(b[..4]), None);
    ReadTailsShaped(b, StartCursor(b[..4]), p);
    LogGrows(StartCursor(b[..4]), p);
    ViewAfterAll(StartCursor(b[..4]), p);
    TailRemembered(p);
    assert [] + p == p;
  }

  lemma MoreAccepted(b: seq<bv8>, c: Cursor, e: Entry, q: seq<Entry>)
    requires ScanStep(b, c) == Advance(e)
    ensures AfterAll(c, [e] + q) == AfterAll(After(c, e), q)
    ensures (Complete(q) ==> Complete([e] + q)) && (EndsCommit(e.tag) ==> Complete([e]))
    ensures Reads(b, After(c, e), q) ==> Reads(b, c, [e] + q)
    ensures [e] + [] == [e] && AfterAll(After(c, e), []) == After(c, e) && Reads(b, After(c, e), [])
  {
    hide After, EndsCommit, ScanStep;
    assert ([e] + q)[1..] == q;
  }

  /** What is written is read. */
  lemma {:induction false} WrittenReads(b: seq<bv8>, c: Cursor, es: seq<Entry>)
    requires Written(b, c, es)
    ensures Reads(b, c, es)
    decreases |es|
  {
    hide After, ScanStep, Shaped, Sealed, Stored;
    if es != [] {
      ScanStored(b, c, es[0]);
      WrittenReads(b, After(c, es[0]), es[1..]);
    }
  }

  lemma StepAdvances(b: seq<bv8>, c: Cursor, e: Entry)
    requires ScanStep(b, c) == Advance(e)
    ensures c.off + 4 <= c.off + LengthOf(e.tag) <= |b|
  {
    hide XorTag, BeWord, Valid, TypeOf, Crc;
  }

  /** What was best before a scan only matters if the scan accepts nothing. */
  lemma {:induction false} ScanBest(b: seq<bv8>, c: Cursor, best: Option<Cursor>)
    ensures var r, q := Scan(b, c, best), Scan(b, c, None);
            r == q.(best := if q.best.Some? then q.best else best)
    decreases |b| - c.off
  {
    hide After, EndsCommit, ScanStep;
    if ScanStep(b, c).Advance? {
      var e := ScanStep(b, c).entry;
      var next := After(c, e);
      AfterGrows(c, e);
      StepAdvances(b, c, e);
      if !EndsCommit(e.tag) {
        ScanBest(b, next, best);
      } else {
        ScanBest(b, next, Some(next));
      }
    }
  }

  /** A scan that accepts nothing and may be erased has not read a single tag. */
  lemma {:induction false} ErasedMeansUnread(b: seq<bv8>, c: Cursor)
    requires Scan(b, c, None).best == None && Scan(b, c, None).maybeErased
    ensures ScanStep(b, c).Halt? && Scan(b, c, None).last == c
    decreases |b| - c.off
  {
    hide After, EndsCommit, LengthOf, NextPtag;
    if ScanStep(b, c).Advance? {
      var e := ScanStep(b, c).entry;
      var next := After(c, e);
      AfterGrows(c, e);
      StepAdvances(b, c, e);
      if EndsCommit(e.tag) {
        ScanBest(b, next, Some(next));
        assert false;
      }
      ErasedMeansUnread(b, next);
      HaltsAfterCommit(b, next);
      PlainPtag(e.tag);
    }
  }

  lemma HaltsAfterCommit(b: seq<bv8>, c: Cursor)
    requires ScanStep(b, c) == Halt(true)
    ensures EndsCommit(c.ptag)
  {
    hide XorTag, BeWord, Valid, Crc;
  }

  lemma PlainPtag(w: Word)
    requires !EndsCommit(w)
    ensures !EndsCommit(NextPtag(w))
  {
  }

  // ---------------------------------------------------------------- which directory was found

  /** Two logs mean the same: entries, and global state record. */
  predicate SameLog(a: seq<Rec>, b: seq<Rec>)
  {
    Replay(a) == Replay(b) && NewestGlobal(a, TYPE_MOVESTATE) == NewestGlobal(b, TYPE_MOVESTATE)
    && WellFormed(a) == WellFormed(b)
  }

  /** Two cursors restore the same directory: entries, count, tail and global state record. */
  predicate SameDirectory(c: Cursor, d: Cursor)
  {
    && c.view.count == d.view.count && c.view.tail == d.view.tail && c.view.split == d.view.split
    && SameLog(RecsOf(c.view.log), RecsOf(d.view.log))
  }

  lemma SealIsInert(v: View, st: State, e: Entry)
    requires IsSeal(e) || e.tag == FCRC_TAG
    ensures Noted(v, e).(log := v.log, fcrc := v.fcrc) == v && Apply(st, RecOf(e)) == st
    ensures RecOf(e).tag.ty != TYPE_MOVESTATE && !IsSplice(RecOf(e).tag.ty)
  {
    if e.tag == FCRC_TAG { UnpackMkTag(0x5ff, 0x3ff, 8); }
  }

  /** Checksum tags at the end of a log change nothing about the directory. */
  lemma {:induction false} SealsChangeNothing(c: Cursor, seals: seq<Entry>)
    requires SealsOnly(seals)
    ensures SameDirectory(c, AfterAll(c, seals))
    decreases |seals|
  {
    hide After, SameDirectory, IsSeal, AfterAll;
    if seals == [] {
      NoEntries(c);
    } else {
      var front, e := seals[..|seals| - 1], seals[|seals| - 1];
      assert seals == front + [e];
      SealsChangeNothing(c, front);
      AfterLast(c, front, e);
      OneSeal(c, AfterAll(c, front), e);
    }
  }

  lemma NoEntries(c: Cursor)
    ensures AfterAll(c, []) == c && SameDirectory(c, c)
  {
  }

  lemma OneSeal(c: Cursor, d: Cursor, e: Entry)
    requires SameDirectory(c, d) && (IsSeal(e) || e.tag == FCRC_TAG)
    ensures SameDirectory(c, After(d, e))
  {
    hide After, Noted, Apply, IsSeal, TypeField, IdField, SizeField, WellFormed, IsSplice;
    AfterGrows(d, e);
    var log := After(d, e).view.log;
    assert RecsOf(log)[..|log| - 1] == RecsOf(d.view.log) && RecsOf(log)[|log| - 1] == RecOf(e);
    SealIsInert(d.view, Replay(RecsOf(d.view.log)), e);
    LastSplice(RecsOf(log));
  }

  lemma LastSplice(log: seq<Rec>)
    requires log != [] && !IsSplice(log[|log| - 1].tag.ty)
    ensures WellFormed(log) == WellFormed(log[..|log| - 1])
  {
    var front := log[..|log| - 1];
    if WellFormed(front) {
      forall i | 0 <= i < |log| && IsSplice(log[i].tag.ty)
        ensures (log[i].tag.ty == TYPE_CREATE || log[i].tag.ty == TYPE_DELETE) && log[i].tag.size == 0
      {
        assert log[i] == front[i];
      }
    } else {
      var i :| 0 <= i < |front| && IsSplice(front[i].tag.ty)
          && !((front[i].tag.ty == TYPE_CREATE || front[i].tag.ty == TYPE_DELETE) && front[i].tag.size == 0);
      assert log[i] == front[i];
    }
  }

  /** A commit as written: attributes, then checksum tags. */
  predicate IsCommit(fs: seq<Entry>, attrs: seq<Entry>)
  {
    attrs <= fs && Attributes(attrs) && SealsOnly(fs[|attrs|..]) && Complete(fs)
  }

  /** The same tag with the same payload, except for what a checksum tag is padded with. */
  predicate Alike(e: Entry, f: Entry) { e.tag == f.tag && (EndsCommit(e.tag) || e.data == f.data) }

  /** `p` is a front part of `fs`, up to padding. */
  predicate AlikePrefix(p: seq<Entry>, fs: seq<Entry>)
  {
    |p| <= |fs| && forall i :: 0 <= i < |p| ==> Alike(p[i], fs[i])
  }

  /** A front part of a commit that ends in a checksum already holds every attribute of it. */
  lemma CompletePrefix(c: Cursor, fs: seq<Entry>, attrs: seq<Entry>, p: seq<Entry>)
    requires Attributes(attrs) && IsPart(fs, attrs) && AlikePrefix(p, fs) && Complete(p)
    ensures SameDirectory(AfterAll(c, attrs), AfterAll(c, p))
  {
    hide After, SameDirectory, IsSeal, AfterAll, Shaped, EndsCommit;
    if |p| <= |attrs| {
      AttributesDoNotEnd(p, fs, attrs);
      assert false;
    }
    assert p[..|attrs|] == attrs by {
      forall i | 0 <= i < |attrs| ensures p[i] == attrs[i] { assert Alike(p[i], fs[i]) && fs[i] == attrs[i]; }
    }
    var seals := p[|attrs|..];
    assert p == attrs + seals;
    WrittenConcat([], c, attrs, seals);
    assert SealsOnly(seals) by {
      forall i | 0 <= i < |seals| ensures IsSeal(seals[i]) || seals[i].tag == FCRC_TAG {
        var f := fs[|attrs|..][i];
        assert Alike(p[|attrs| + i], fs[|attrs| + i]) && f == fs[|attrs| + i];
        SealByTag(seals[i], f);
      }
    }
    SealsChangeNothing(AfterAll(c, attrs), seals);
  }

  /** No run of attributes ends a commit. */
  lemma AttributesDoNotEnd(p: seq<Entry>, fs: seq<Entry>, attrs: seq<Entry>)
    requires Attributes(attrs) && AlikePrefix(p, fs) && |p| <= |attrs| && (fs <= attrs || attrs <= fs)
    ensures !Complete(p)
  {
    hide EndsCommit, Shaped;
    if p != [] {
      var k := |p| - 1;
      assert Alike(p[k], fs[k]);
      assert fs[k] == attrs[k] by { if attrs <= fs { assert fs[..|attrs|][k] == attrs[k]; } }
    }
  }

  lemma CommitIsPart(fs: seq<Entry>, attrs: seq<Entry>)
    requires IsCommit(fs, attrs)
    ensures IsPart(fs, attrs) && Attributes(attrs) && Complete(fs)
  {
  }

  lemma SealByTag(e: Entry, f: Entry)
    requires e.tag == f.tag
    ensures IsSeal(e) == IsSeal(f)
  {
  }
}
