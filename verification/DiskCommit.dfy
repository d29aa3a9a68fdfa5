/**
 Commits on the device: what mounting reads from a metadata pair before a commit, after it, and
 wherever power fails in between. The directories are those the fetch finds, as logs of tags.
 */
module DiskCommit {
  import opened Commit
  import opened Common
  import opened Compaction
  import opened Crc32
  import opened DirCommit
  import opened DirLog
  import opened GlobalState
  import opened MetadataPair
  import opened PowerLoss
  import Splitting
  import opened TagChain
  import opened TagWord

  /** The two blocks of a metadata pair. */
  type Blocks = (seq<bv8>, seq<bv8>)

  predicate Fetchable(b: Blocks, unit: nat)
  {
    |b.0| >= 4 && |b.1| >= 4 && unit > 0 && FetchPair(b.0, b.1, unit).Some?
  }

  /** The log a fetch of the pair finds. */
  function LogOn(b: Blocks, unit: nat): seq<Rec>
    requires Fetchable(b, unit)
  {
    RecsOf(FetchPair(b.0, b.1, unit).value.1.at.view.log)
  }

  /** Two logs mean the same to every reader: the count, the record, and every lookup. */
  ghost predicate Means(a: seq<Rec>, b: seq<Rec>)
  {
    && Replay(a).count == Replay(b).count && RecordOf(a) == RecordOf(b) && WellFormed(a) == WellFormed(b)
    && forall want: nat, id: nat :: IsAttr(want) ==>
         Get(Replay(a), KeyMask(want), want, id) == Get(Replay(b), KeyMask(want), want, id)
  }

  /** A fetch finds a log that means the same as `log`. */
  ghost predicate Holds(b: Blocks, unit: nat, log: seq<Rec>)
  {
    Fetchable(b, unit) && Means(LogOn(b, unit), log)
  }

  /** A fetch finds exactly `log`. */
  predicate Finds(b: Blocks, unit: nat, log: seq<Rec>)
  {
    Fetchable(b, unit) && LogOn(b, unit) == log
  }

  // ---------------------------------------------------------------- commits

  /**
   A commit to a pair whose block in use is block `u`.

   Append: behind the log `es` of that block, which turns it from `was` into `now`.
   Rewrite: to the other block, which is erased first, `mine` being the block in use.
   Retry: an append that ran out of room after `part` of it, which left the block as `left` with
   `flushed` units of that programmed, and then a rewrite of the other block.
   */
  datatype PairCommit =
    | Append(u: nat, was: seq<bv8>, now: seq<bv8>, other: seq<bv8>, es: seq<Entry>, fs: seq<Entry>, attrs: seq<Entry>)
    | Rewrite(u: nat, mine: seq<bv8>, other: seq<bv8>, erased: seq<bv8>, now: seq<bv8>, at: Fetched,
              fs: seq<Entry>, attrs: seq<Entry>)
    | Retry(u: nat, was: seq<bv8>, other: seq<bv8>, es: seq<Entry>, begun: seq<bv8>, part: seq<Entry>,
            tried: seq<Entry>, flushed: nat, left: seq<bv8>, erased: seq<bv8>, now: seq<bv8>,
            fs: seq<Entry>, attrs: seq<Entry>)
  {
    function Before(): Blocks { PairOf(u, if Rewrite? then mine else was, other) }

    function After(): Blocks
    {
      if Append? then PairOf(u, now, other) else PairOf(u, if Rewrite? then mine else left, now)
    }

    /** The log the fetch finds before the commit. */
    function OldLog(): seq<Rec> { if Rewrite? then RecsOf(at.at.view.log) else RecsOf(es) }

    /** The tags the block in use holds after it, up to its checksums. */
    function NewLog(): seq<Rec> { if Append? then RecsOf(es + attrs) else RecsOf(attrs) }

    /** The tags the abandoned append was to add up to, which its padding may have sealed already. */
    function TriedLog(): seq<Rec> { if Retry? then RecsOf(es + tried) else NewLog() }

    /** The writer really makes this commit on this pair. */
    ghost predicate Valid(unit: nat)
    {
      && u < 2 && unit >= 4 && |other| >= 4
      && match this {
           case Append(_, _, _, _, _, _, _) =>
             Appends(was, now, es, fs, attrs, unit) && FoundIn(u, was, other, es, unit)
           case Rewrite(_, _, _, _, _, _, _, _) =>
             |mine| >= 4 && Rewrites(mine, now, fs, attrs) && FetchOf(u, mine, other, unit) == Some((u, at))
           case Retry(_, _, _, _, _, _, _, _, _, _, _, _, _) =>
             && Abandons(was, begun, es, part, tried, unit) && FoundIn(u, was, other, es, unit)
             && TornBegun(was, begun, es, unit, flushed, left) && Rewrites(left, now, fs, attrs)
         }
    }

    /** The pair as power loss leaves it somewhere in this commit. */
    ghost predicate CrashImage(unit: nat, b: Blocks)
    {
      match this
      case Append(_, _, _, _, _, _, _) => BegunImage(u, was, now, other, es, unit, b)
      case Rewrite(_, _, _, _, _, _, _, _) => RewriteImage(u, mine, other, erased, now, unit, b)
      case Retry(_, _, _, _, _, _, _, _, _, _, _, _, _) =>
        BegunImage(u, was, begun, other, es, unit, b) || RewriteImage(u, left, other, erased, now, unit, b)
    }
  }

  /** The pair is fetched from block `u` with the log `es`, erased behind it. */
  predicate FoundIn(u: nat, was: seq<bv8>, other: seq<bv8>, es: seq<Entry>, unit: nat)
  {
    && |was| >= 4 && |other| >= 4 && unit > 0
    && FetchOf(u, was, other, unit) == Some((u, Fetched(AfterAll(Start(was), es), true)))
  }

  /** Block `was` after `k` units and a torn one of turning it into `now`; checksums are sound on it. */
  ghost predicate TornBegun(was: seq<bv8>, now: seq<bv8>, es: seq<Entry>, unit: nat, k: nat, x: seq<bv8>)
  {
    |was| >= 4 && var m := AfterAll(Start(was), es); Torn(was, now, m.off, unit, k, x) && ChecksumSound(x, now, m)
  }

  /** The pair while block `u` is appended to. */
  ghost predicate BegunImage(u: nat, was: seq<bv8>, now: seq<bv8>, other: seq<bv8>, es: seq<Entry>, unit: nat,
                             b: Blocks)
  {
    exists k: nat, x :: TornBegun(was, now, es, unit, k, x) && b == PairOf(u, x, other)
  }

  /** The other block while it is erased and rewritten. */
  ghost predicate TornRewrite(other: seq<bv8>, erased: seq<bv8>, now: seq<bv8>, unit: nat, k: nat, x: seq<bv8>)
  {
    x == other || (|now| >= 4 && Torn(erased, now, 0, unit, k, x) && RewriteSound(x, now))
  }

  /** The pair while the other block is rewritten and block `u` is `mine`. */
  ghost predicate RewriteImage(u: nat, mine: seq<bv8>, other: seq<bv8>, erased: seq<bv8>, now: seq<bv8>, unit: nat,
                               b: Blocks)
  {
    exists k: nat, x :: TornRewrite(other, erased, now, unit, k, x) && b == PairOf(u, mine, x)
  }

  /** Every image of an append cut off after `k` units and a torn one, if checksums are sound on it, is in view. */
  lemma AppendImages(c: PairCommit, unit: nat, k: nat, junk: seq<bv8>)
    requires c.Append? && |c.was| == |c.now| >= 4 && |junk| == unit
    requires var at := AfterAll(Start(c.was), c.es).off;
             at + k * unit <= at + (k + 1) * unit <= |c.now|
    requires var at := AfterAll(Start(c.was), c.es).off;
             ChecksumSound(c.now[..at + k * unit] + junk + c.was[at + (k + 1) * unit..], c.now,
                           AfterAll(Start(c.was), c.es))
    ensures var at := AfterAll(Start(c.was), c.es).off;
            c.CrashImage(unit, PairOf(c.u, c.now[..at + k * unit] + junk + c.was[at + (k + 1) * unit..], c.other))
  {
    hide AfterAll, ChecksumSound, Torn, PairOf;
    var m := AfterAll(Start(c.was), c.es);
    TornByAny(c.was, c.now, m.off, unit, k, junk);
    assert TornBegun(c.was, c.now, c.es, unit, k, c.now[..m.off + k * unit] + junk + c.was[m.off + (k + 1) * unit..]);
  }

  // ---------------------------------------------------------------- what is found

  lemma MeansItself(log: seq<Rec>)
    ensures Means(log, log)
  {
  }

  lemma SameLogMeans(a: seq<Rec>, b: seq<Rec>)
    requires SameLog(a, b)
    ensures Means(a, b)
  {
    hide Replay, NewestGlobal, WellFormed;
  }

  /** A fetch of blocks put together as a pair. */
  lemma FetchedHolds(u: nat, mine: seq<bv8>, other: seq<bv8>, unit: nat, log: seq<Rec>)
    requires |mine| >= 4 && |other| >= 4 && unit > 0 && FetchOf(u, mine, other, unit).Some?
    requires Means(RecsOf(FetchOf(u, mine, other, unit).value.1.at.view.log), log)
    ensures Holds(PairOf(u, mine, other), unit, log)
    ensures LogOn(PairOf(u, mine, other), unit) == RecsOf(FetchOf(u, mine, other, unit).value.1.at.view.log)
  {
    hide Means, FetchPair;
  }

  /** The log a run of tags from the start of a block leaves in its cursor is that run. */
  lemma LogFromStart(b: seq<bv8>, es: seq<Entry>, more: seq<Entry>)
    requires |b| >= 4
    ensures AfterAll(Start(b), es).view.log == es
    ensures AfterAll(AfterAll(Start(b), es), more).view.log == es + more
  {
    hide AfterAll;
    LogGrows(Start(b), es);
    LogGrows(AfterAll(Start(b), es), more);
    assert [] + es == es;
  }

  lemma SameDirectoryMeans(c: Cursor, d: Cursor)
    requires SameDirectory(c, d)
    ensures Means(RecsOf(d.view.log), RecsOf(c.view.log))
  {
    hide Means, Replay, NewestGlobal, WellFormed;
    SameLogMeans(RecsOf(d.view.log), RecsOf(c.view.log));
  }

  /** Before the commit the fetch finds exactly its old log. */
  lemma BeforeHolds(c: PairCommit, unit: nat)
    requires c.Valid(unit)
    ensures Fetchable(c.Before(), unit) && LogOn(c.Before(), unit) == c.OldLog()
  {
    hide Means, FetchPair, Appends, Rewrites, Abandons, AfterAll, TornBegun;
    MeansItself(c.OldLog());
    if c.Rewrite? {
      FetchedHolds(c.u, c.mine, c.other, unit, c.OldLog());
    } else {
      LogFromStart(c.was, c.es, []);
      FetchedHolds(c.u, c.was, c.other, unit, c.OldLog());
    }
  }

  lemma AppendsSized(was: seq<bv8>, now: seq<bv8>, es: seq<Entry>, fs: seq<Entry>, attrs: seq<Entry>, unit: nat)
    requires unit > 0 && Appends(was, now, es, fs, attrs, unit)
    ensures |now| == |was| >= 4
  {
  }

  /** After it, what means the same as its new log. */
  lemma AfterHolds(c: PairCommit, unit: nat)
    requires c.Valid(unit)
    ensures Holds(c.After(), unit, c.NewLog())
  {
    hide Means, FetchPair, Appends, Rewrites, Abandons, AfterAll, SameDirectory, FetchOf, TornBegun;
    match c {
      case Append(u, was, now, other, es, fs, attrs) =>
        assert |now| == |was| >= 4 by { AppendsSized(was, now, es, fs, attrs, unit); }
        AppendFetched(u, other, was, now, es, fs, attrs, unit);
        LogFromStart(was, es, attrs);
        SameDirectoryMeans(AfterAll(AfterAll(Start(was), es), attrs), FetchOf(u, now, other, unit).value.1.at);
        FetchedHolds(u, now, other, unit, c.NewLog());
      case Rewrite(u, mine, _, _, now, _, fs, attrs) =>
        RewritesSized(mine, now, fs, attrs);
        CompactionDurable(u, mine, now, fs, attrs, unit);
        RewrittenHolds(u, mine, now, now, fs, attrs, unit);
      case Retry(u, _, _, _, _, _, _, _, left, _, now, fs, attrs) =>
        RewritesSized(left, now, fs, attrs);
        CompactionDurable(u, left, now, fs, attrs, unit);
        RewrittenHolds(u, left, now, now, fs, attrs, unit);
    }
  }

  lemma RewrittenHolds(u: nat, mine: seq<bv8>, now: seq<bv8>, x: seq<bv8>, fs: seq<Entry>, attrs: seq<Entry>, unit: nat)
    requires u < 2 && unit > 0 && |mine| >= 4 && |now| >= 4 && |x| >= 4
    requires FetchOf(u, mine, x, unit).Some?
    requires SameDirectory(AfterAll(Start(now), attrs), FetchOf(u, mine, x, unit).value.1.at)
    ensures Holds(PairOf(u, mine, x), unit, RecsOf(attrs))
  {
    hide Means, FetchPair, AfterAll, SameDirectory, FetchOf;
    LogFromStart(now, attrs, []);
    SameDirectoryMeans(AfterAll(Start(now), attrs), FetchOf(u, mine, x, unit).value.1.at);
    FetchedHolds(u, mine, x, unit, RecsOf(attrs));
  }

  /** The cursor of a fetch that finds the old log or the log tried. */
  predicate OldOrTried(at: Cursor, m: Cursor, tried: seq<Entry>)
  {
    at == m || SameDirectory(AfterAll(m, tried), at)
  }

  /** While block `u` is appended to, also in vain, the old log is found or the one the append adds up to. */
  lemma BegunHolds(u: nat, was: seq<bv8>, now: seq<bv8>, x: seq<bv8>, other: seq<bv8>, es: seq<Entry>, fs: seq<Entry>,
                   tried: seq<Entry>, unit: nat, k: nat)
    requires u < 2 && unit >= 4 && Begins(was, now, es, fs, unit) && Attributes(tried) && IsPart(fs, tried)
    requires FoundIn(u, was, other, es, unit) && TornBegun(was, now, es, unit, k, x)
    ensures |x| >= 4 && FetchOf(u, x, other, unit).Some? && FetchOf(u, x, other, unit).value.0 == u
    ensures OldOrTried(FetchOf(u, x, other, unit).value.1.at, AfterAll(Start(was), es), tried)
    ensures Finds(PairOf(u, x, other), unit, RecsOf(es)) || Holds(PairOf(u, x, other), unit, RecsOf(es + tried))
  {
    hide Means, FetchPair, Begins, Attributes, IsPart, AfterAll, SameDirectory, FetchOf, Torn, ChecksumSound;
    var m := AfterAll(Start(was), es);
    assert |x| == |was| by { TornSized(was, now, m.off, unit, k, x); }
    BegunIsAtomic(u, other, was, now, x, es, fs, tried, unit, k);
    var at := FetchOf(u, x, other, unit).value.1.at;
    LogFromStart(was, es, tried);
    if at == m {
      MeansItself(RecsOf(es));
      FetchedHolds(u, x, other, unit, RecsOf(es));
    } else {
      SameDirectoryMeans(AfterAll(m, tried), at);
      FetchedHolds(u, x, other, unit, RecsOf(es + tried));
    }
  }

  /** While the other block is rewritten, what block `u` holds is found, or the new log. */
  lemma RewriteHolds(u: nat, mine: seq<bv8>, other: seq<bv8>, erased: seq<bv8>, now: seq<bv8>, f: Fetched,
                     fs: seq<Entry>, attrs: seq<Entry>, unit: nat, b: Blocks)
    requires u < 2 && unit > 0 && |other| >= 4 && |mine| >= 4 && Rewrites(mine, now, fs, attrs)
    requires FetchOf(u, mine, other, unit) == Some((u, f)) && RewriteImage(u, mine, other, erased, now, unit, b)
    ensures Finds(b, unit, RecsOf(f.at.view.log)) || Holds(b, unit, RecsOf(attrs))
  {
    hide Means, FetchPair, Rewrites, AfterAll, SameDirectory, FetchOf, Torn, RewriteSound;
    var k: nat, x :| TornRewrite(other, erased, now, unit, k, x) && b == PairOf(u, mine, x);
    assert |now| >= 4 by { RewritesSized(mine, now, fs, attrs); }
    assert |x| >= 4 by { if x != other { TornSized(erased, now, 0, unit, k, x); } }
    CompactionIsAtomic(u, mine, other, erased, now, x, fs, attrs, f, unit, k);
    if FetchOf(u, mine, x, unit) == Some((u, f)) {
      MeansItself(RecsOf(f.at.view.log));
      FetchedHolds(u, mine, x, unit, RecsOf(f.at.view.log));
    } else {
      RewrittenHolds(u, mine, now, x, fs, attrs, unit);
    }
  }

  /**
   And wherever power fails in it, exactly the old log or what means the same as the new; between an
   abandoned append and the end of the rewrite also the log that append was to add up to.
   */
  lemma CrashHolds(c: PairCommit, unit: nat, b: Blocks)
    requires c.Valid(unit) && c.CrashImage(unit, b)
    ensures Finds(b, unit, c.OldLog()) || Holds(b, unit, c.NewLog()) || Holds(b, unit, c.TriedLog())
  {
    hide Holds, Finds, Appends, Rewrites, Abandons, FoundIn, TornBegun, TornRewrite, FetchOf;
    match c {
      case Append(u, was, now, other, es, fs, attrs) =>
        var k: nat, x :| TornBegun(was, now, es, unit, k, x) && b == PairOf(u, x, other);
        AppendsBegins(was, now, es, fs, attrs, unit);
        BegunHolds(u, was, now, x, other, es, fs, attrs, unit, k);
      case Rewrite(u, mine, other, erased, now, f, fs, attrs) =>
        RewriteHolds(u, mine, other, erased, now, f, fs, attrs, unit, b);
      case Retry(u, was, other, es, begun, part, tried, flushed, left, erased, now, fs, attrs) =>
        AbandonsBegins(was, begun, es, part, tried, unit);
        if BegunImage(u, was, begun, other, es, unit, b) {
          var k: nat, x :| TornBegun(was, begun, es, unit, k, x) && b == PairOf(u, x, other);
          BegunHolds(u, was, begun, x, other, es, part, tried, unit, k);
        } else {
          RetryHolds(c, unit, b);
        }
    }
  }

  /** The rewrite after an abandoned append starts from what that left. */
  lemma RetryHolds(c: PairCommit, unit: nat, b: Blocks)
    requires c.Valid(unit) && c.Retry? && RewriteImage(c.u, c.left, c.other, c.erased, c.now, unit, b)
    ensures Finds(b, unit, c.OldLog()) || Holds(b, unit, c.NewLog()) || Holds(b, unit, c.TriedLog())
  {
    hide Means, Rewrites, Abandons, FetchPair, FetchOf, AfterAll, SameDirectory, RewriteImage, TornBegun;
    AbandonsBegins(c.was, c.begun, c.es, c.part, c.tried, unit);
    BegunHolds(c.u, c.was, c.begun, c.left, c.other, c.es, c.part, c.tried, unit, c.flushed);
    var f := FetchOf(c.u, c.left, c.other, unit).value.1;
    RewriteHolds(c.u, c.left, c.other, c.erased, c.now, f, c.fs, c.attrs, unit, b);
    if Finds(b, unit, RecsOf(f.at.view.log)) {
      var m := AfterAll(Start(c.was), c.es);
      LogFromStart(c.was, c.es, c.tried);
      if f.at != m {
        SameDirectoryMeans(AfterAll(m, c.tried), f.at);
      }
    }
  }

  lemma MeansOn(a: seq<Rec>, b: seq<Rec>, c: seq<Rec>)
    requires Means(a, b) && Means(b, c)
    ensures Means(a, c)
  {
    hide Replay, WellFormed, RecordOf;
  }

  lemma AbandonsBegins(was: seq<bv8>, now: seq<bv8>, es: seq<Entry>, part: seq<Entry>, attrs: seq<Entry>, unit: nat)
    requires unit > 0 && Abandons(was, now, es, part, attrs, unit)
    ensures Begins(was, now, es, part, unit) && Attributes(attrs) && IsPart(part, attrs)
  {
  }

  lemma TornSized(was: seq<bv8>, now: seq<bv8>, at: nat, unit: nat, k: nat, x: seq<bv8>)
    requires Torn(was, now, at, unit, k, x)
    ensures |x| == |now| == |was|
  {
  }

  lemma RewritesSized(mine: seq<bv8>, now: seq<bv8>, fs: seq<Entry>, attrs: seq<Entry>)
    requires Rewrites(mine, now, fs, attrs)
    ensures |mine| >= 4 && |now| >= 4
  {
  }

  // ---------------------------------------------------------------- what the commit means

  /** The tags that may follow a commit's attributes: a tail, and a global state record. */
  function Behind(tail: seq<Rec>, noted: bool, g: GState): seq<Rec> { tail + if noted then [MoveStateRec(g)] else [] }

  predicate IsTail(tail: seq<Rec>) { forall k :: 0 <= k < |tail| ==> Type1(tail[k].tag.ty) == TYPE_TAIL }

  /**
   The commit writes `items`: as they are behind the old log, or compacted together with it. An
   append abandoned before was of the same items and would have left the same record.
   */
  ghost predicate Writes(c: PairCommit, items: seq<Item>, n: nat, tail: seq<Rec>, noted: bool, g: GState)
  {
    && IsTail(tail) && c.NewLog() == CommittedLog(c.OldLog(), items, n, !c.Append?) + Behind(tail, noted, g)
    && (c.Retry? ==> Tries(c, items) && RecordOf(c.TriedLog()) == RecordOf(c.NewLog()))
  }

  /** What the abandoned append adds up to is the old log with the items, and perhaps a tail and a record. */
  ghost predicate Tries(c: PairCommit, items: seq<Item>)
  {
    exists tail, noted, g :: IsTail(tail) && c.TriedLog() == c.OldLog() + Expand(items) + Behind(tail, noted, g)
  }

  lemma BehindInert(tail: seq<Rec>, noted: bool, g: GState)
    requires IsTail(tail)
    ensures Inert(Behind(tail, noted, g)) && Inert(Ending(noted, g))
  {
  }

  lemma MeansDenotes(a: seq<Rec>, b: seq<Rec>, st: State)
    requires Means(a, b) && Denotes(b, st)
    ensures Denotes(a, st)
  {
    hide Replay, WellFormed, RecordOf;
  }

  /** The log an abandoned append adds up to denotes the same directory as the new log. */
  lemma TriedDenotes(c: PairCommit, items: seq<Item>)
    requires c.Retry? && Tries(c, items) && WellFormed(c.OldLog()) && WellFormedItems(items)
    requires var st := ApplyAll(Replay(c.OldLog()), Expand(items)); |st.entries| == st.count
    ensures Denotes(c.TriedLog(), ApplyAll(Replay(c.OldLog()), Expand(items)))
    ensures Replay(c.TriedLog()) == ApplyAll(Replay(c.OldLog()), Expand(items))
  {
    hide Replay, Expand, ApplyAll, Denotes, Behind, WellFormed;
    var tail, noted, g :| IsTail(tail) && c.TriedLog() == c.OldLog() + Expand(items) + Behind(tail, noted, g);
    BehindInert(tail, noted, g);
    AppendDenotes(c.OldLog(), items, Behind(tail, noted, g));
    ReplayConcat(c.OldLog(), Expand(items));
    ReplayConcat(c.OldLog() + Expand(items), Behind(tail, noted, g));
    InertReplay(ApplyAll(Replay(c.OldLog()), Expand(items)), Behind(tail, noted, g));
  }

  /**
   A commit is atomic on the device: wherever power fails in it, appended, rewritten, or rewritten
   after an append that ran out of room, mounting finds the directory as it was or the old directory
   with the commit's items applied: those entries, and no others.
   */
  lemma CommitIsAtomic(c: PairCommit, unit: nat, b: Blocks, items: seq<Item>, n: nat, tail: seq<Rec>, noted: bool,
                       g: GState)
    requires c.Valid(unit) && c.CrashImage(unit, b) && Writes(c, items, n, tail, noted, g)
    requires Directory(c.OldLog()) && CommitItems(items)
    requires var st := ApplyAll(Replay(c.OldLog()), Expand(items)); |st.entries| == st.count == n
    ensures Fetchable(b, unit)
    ensures LogOn(b, unit) == c.OldLog() || Denotes(LogOn(b, unit), ApplyAll(Replay(c.OldLog()), Expand(items)))
  {
    hide Replay, Expand, Compacted, ApplyAll, Denotes, Directory, CommitItems, Means, FetchPair, Behind, WellFormed,
         Tries, RecordOf;
    var log, more := c.OldLog(), Behind(tail, noted, g);
    CrashHolds(c, unit, b);
    DirectoryParts(log);
    StoredItems(log);
    FollowsLog(log, items);
    ItemsWellFormed(items);
    BehindInert(tail, noted, g);
    if c.Append? { AppendDenotes(log, items, more); } else { RewriteDenotes(log, items, n, more); }
    var st := ApplyAll(Replay(log), Expand(items));
    if Holds(b, unit, c.NewLog()) {
      MeansDenotes(LogOn(b, unit), c.NewLog(), st);
    } else if c.Retry? && Holds(b, unit, c.TriedLog()) {
      TriedDenotes(c, items);
      MeansDenotes(LogOn(b, unit), c.TriedLog(), st);
    }
  }

  /** What is written means the same as the log the commit leaves in memory, whatever tail is repeated. */
  lemma WritesCommitted(c: PairCommit, items: seq<Item>, n: nat, tail: seq<Rec>, noted: bool, g: GState)
    requires Writes(c, items, n, tail, noted, g)
    ensures Means(c.NewLog(), CommittedLog(c.OldLog(), items, n, !c.Append?) + Ending(noted, g))
  {
    hide Replay, Behind, Ending, CommittedLog, WellFormed, NewestGlobal, Means, Tries, RecordOf;
    var log := CommittedLog(c.OldLog(), items, n, !c.Append?);
    BehindInert(tail, noted, g);
    ReplayConcat(log, Behind(tail, noted, g));
    ReplayConcat(log, Ending(noted, g));
    InertReplay(Replay(log), Behind(tail, noted, g));
    InertReplay(Replay(log), Ending(noted, g));
    InertWellFormed(log, Behind(tail, noted, g));
    InertWellFormed(log, Ending(noted, g));
    SameRecord(log, tail, noted, g);
    SameLogMeans(c.NewLog(), log + Ending(noted, g));
  }

  /** Two directories that denote the same count the same: each entry has a name, and nothing else has. */
  lemma CountFromNames(a: seq<Rec>, st: State)
    requires Directory(a) && Denotes(a, st) && AllNamed(st.entries)
    ensures Replay(a).count == st.count
  {
    hide Replay, WellFormed, Newest, Get, AllNamed;
    NameKey();
    var n, k := Replay(a).count, st.count;
    NamedExactly(Replay(a), n);
    NamedExactly(st, n);
    NamedExactly(Replay(a), k);
    NamedExactly(st, k);
  }

  /** An id has a name exactly if it is one of the entries. */
  lemma NamedExactly(st: State, id: int)
    requires AllNamed(st.entries)
    ensures 0 <= id ==> (Get(st, KeyMask(TYPE_NAME), TYPE_NAME, id).Some? <==> id < |st.entries|)
  {
    hide Newest;
    NameKey();
    if 0 <= id < |st.entries| { assert NamedEntry(st.entries[id]); }
  }

  /** So does what an abandoned append adds up to. */
  lemma TriedCommitted(c: PairCommit, items: seq<Item>, n: nat, tail: seq<Rec>, noted: bool, g: GState, after: seq<Rec>)
    requires c.Retry? && Writes(c, items, n, tail, noted, g) && Directory(c.OldLog()) && CommitItems(items)
    requires var st := ApplyAll(Replay(c.OldLog()), Expand(items));
             |st.entries| == st.count && AllNamed(st.entries) && Denotes(after, st)
    requires Directory(after) && RecordOf(after) == RecordOf(c.NewLog())
    ensures Means(c.TriedLog(), after)
  {
    hide Replay, Expand, ApplyAll, Directory, CommitItems, WellFormed, Behind, RecordOf, AllNamed, Tries, CommittedLog;
    DirectoryParts(c.OldLog());
    DirectoryParts(after);
    ItemsWellFormed(items);
    TriedDenotes(c, items);
    CountFromNames(after, ApplyAll(Replay(c.OldLog()), Expand(items)));
  }

  lemma InertWellFormed(log: seq<Rec>, more: seq<Rec>)
    requires Inert(more)
    ensures WellFormed(log + more) == WellFormed(log)
  {
    if WellFormed(log) {
      WellFormedConcat(log, more);
    } else {
      var i :| 0 <= i < |log| && IsSplice(log[i].tag.ty)
          && !((log[i].tag.ty == TYPE_CREATE || log[i].tag.ty == TYPE_DELETE) && log[i].tag.size == 0);
      assert (log + more)[i] == log[i];
    }
  }

  lemma SameRecord(log: seq<Rec>, tail: seq<Rec>, noted: bool, g: GState)
    requires IsTail(tail)
    ensures NewestGlobal(log + Behind(tail, noted, g), TYPE_MOVESTATE) ==
            NewestGlobal(log + Ending(noted, g), TYPE_MOVESTATE)
  {
    hide NewestGlobal;
    forall k | 0 <= k < |tail| ensures tail[k].tag.ty != TYPE_MOVESTATE { assert Type1(TYPE_MOVESTATE) == 0x700; }
    NewestBehind(log, tail);
    NewestBehind(log + tail, []);
    if noted {
      assert log + Behind(tail, noted, g) == log + tail + [MoveStateRec(g)];
      assert log + Ending(noted, g) == log + [MoveStateRec(g)] + [SEAL];
      NewestBehind(log + [MoveStateRec(g)], [SEAL]);
      NewestLast(log + tail, MoveStateRec(g));
      NewestLast(log, MoveStateRec(g));
    } else {
      assert log + Behind(tail, noted, g) == log + tail;
      assert log + Ending(noted, g) == log + [SEAL];
      NewestBehind(log, [SEAL]);
    }
  }

  lemma NewestLast(log: seq<Rec>, r: Rec)
    requires r.tag.ty == TYPE_MOVESTATE
    ensures NewestGlobal(log + [r], TYPE_MOVESTATE) == Some(r)
  {
    assert (log + [r])[|log|] == r;
  }

  lemma {:induction false} NewestBehind(log: seq<Rec>, more: seq<Rec>)
    requires forall k :: 0 <= k < |more| ==> more[k].tag.ty != TYPE_MOVESTATE
    ensures NewestGlobal(log + more, TYPE_MOVESTATE) == NewestGlobal(log, TYPE_MOVESTATE)
  {
    if more == [] {
      assert log + more == log;
    } else {
      var front := more[..|more| - 1];
      assert (log + more)[..|log + more| - 1] == log + front;
      NewestBehind(log, front);
    }
  }

  // ---------------------------------------------------------------- tags as entries

  /** An eleven-bit number. */
  function Eleven(n: nat): (x: bv11)
    requires n < 0x800
    ensures x as nat == n
  {
    if n == 0 then 0 else Eleven(n - 1) + 1
  }

  /** Tags that fit a 32-bit word and that a caller may commit. */
  /**
   The outcome of a commit of `recs` from `from` on. With program units up to 1006 bytes, and commits
   allowed up to eight bytes in front of the end of the block, it succeeds exactly if the tags end there.
   */
  predicate Outcome(ok: bool, from: nat, recs: seq<Rec>, blockSize: nat, limit: nat, unit: nat)
  {
    && (from + Splitting.SizeOf(recs) > limit ==> !ok)
    && (unit <= 1006 && limit + 8 == blockSize ==> (ok <==> from + Splitting.SizeOf(recs) <= limit))
  }

  lemma OutcomeIs(ok: bool, c: Cursor, recs: seq<Rec>, blockSize: nat, limit: nat, unit: nat)
    requires unit > 0 && blockSize % unit == 0 && limit + 8 <= blockSize
    requires forall k :: 0 <= k < |recs| ==> Storable(recs[k])
    requires CommitFits(ok, AfterAll(c, EntriesOf(recs)).off, blockSize, limit, unit)
    ensures Outcome(ok, c.off, recs, blockSize, limit, unit)
  {
    hide AfterAll, OneTag, RoomForSeal, Storable;
    SizeIsRoom(c, EntriesOf(recs));
    EntriesRoundTrip(recs);
    if unit <= 1006 && limit + 8 == blockSize {
      CommitFitsLimit(ok, AfterAll(c, EntriesOf(recs)).off, blockSize, unit);
    }
  }

  lemma {:induction false} SizeConcat(a: seq<Rec>, b: seq<Rec>)
    ensures Splitting.SizeOf(a + b) == Splitting.SizeOf(a) + Splitting.SizeOf(b)
  {
    if a == [] {
      assert a + b == b;
    } else {
      assert (a + b)[1..] == a[1..] + b;
      SizeConcat(a[1..], b);
    }
  }

  /** At most one tail, of two block addresses. */
  predicate OneTail(tail: seq<Rec>) { |tail| <= 1 && forall k :: 0 <= k < |tail| ==> tail[k].tag.size == 8 }

  /**
   The forty bytes that splitting leaves free are enough: what it finds to fit can be written on an
   erased block behind its revision, with a tail and a record.
   */
  lemma FitsOnBlock(out: seq<Rec>, tail: seq<Rec>, noted: bool, g: GState, blockSize: nat)
    requires blockSize >= 40 && Splitting.SizeOf(out) <= blockSize - 40 && OneTail(tail)
    ensures 4 + Splitting.SizeOf(out + Behind(tail, noted, g)) <= blockSize - 8
  {
    hide Encode;
    SizeConcat(out, Behind(tail, noted, g));
    SizeConcat(tail, if noted then [MoveStateRec(g)] else []);
    assert tail == [] || tail == [tail[0]];
  }

  /** What `SizeOf` measures is the room the tags take on a block. */
  lemma {:induction false} SizeIsRoom(c: Cursor, es: seq<Entry>)
    ensures AfterAll(c, es).off == c.off + Splitting.SizeOf(RecsOf(es))
    decreases |es|
  {
    hide After, LengthOf;
    if es != [] {
      AfterGrows(c, es[0]);
      SizeIsRoom(After(c, es[0]), es[1..]);
      assert RecsOf(es)[1..] == RecsOf(es[1..]);
      LengthOfRec(es[0]);
    }
  }

  lemma LengthOfRec(e: Entry)
    ensures LengthOf(e.tag) == DiskSize(RecOf(e).tag)
  {
  }

  predicate Storable(r: Rec)
  {
    && r.tag.ty < 0x800 && r.tag.id < 0x400 && r.tag.size < 0x400 && |r.data| == DiskSize(r.tag) - 4
    && r.tag.ty / 0x80 != 10 && (Type1(r.tag.ty) == TYPE_TAIL || r.tag.ty == TYPE_FCRC ==> |r.data| >= 8)
  }

  /** Every tag a scan can read, other than a commit's checksum, can be handed to the writer again. */
  lemma ReadIsStorable(e: Entry)
    requires Shaped(e) && !EndsCommit(e.tag)
    ensures Storable(RecOf(e))
  {
  }

  function EntryOf(r: Rec): (e: Entry)
    requires Storable(r)
  {
    Entry(MkTag(Eleven(r.tag.ty), Ten(r.tag.id), Ten(r.tag.size)), r.data)
  }

  function EntriesOf(recs: seq<Rec>): (es: seq<Entry>)
    requires forall k :: 0 <= k < |recs| ==> Storable(recs[k])
    ensures |es| == |recs| && forall k :: 0 <= k < |recs| ==> es[k] == EntryOf(recs[k])
  {
    seq(|recs|, k requires 0 <= k < |recs| => EntryOf(recs[k]))
  }

  lemma EntryRoundTrip(r: Rec)
    requires Storable(r)
    ensures RecOf(EntryOf(r)) == r && Shaped(EntryOf(r)) && !EndsCommit(EntryOf(r).tag)
  {
    hide MkTag, TypeField, IdField, SizeField, Valid, Ten, Eleven;
    UnpackMkTag(Eleven(r.tag.ty), Ten(r.tag.id), Ten(r.tag.size));
  }

  /** Every such log can be handed to the writer, and reads back as itself. */
  lemma EntriesRoundTrip(recs: seq<Rec>)
    requires forall k :: 0 <= k < |recs| ==> Storable(recs[k])
    ensures RecsOf(EntriesOf(recs)) == recs && Attributes(EntriesOf(recs))
  {
    hide Storable, EntryOf, RecOf, Shaped, EndsCommit;
    var es := EntriesOf(recs);
    forall k | 0 <= k < |recs| ensures RecOf(es[k]) == recs[k] && Shaped(es[k]) && !EndsCommit(es[k].tag) {
      EntryRoundTrip(recs[k]);
    }
  }

  // ---------------------------------------------------------------- making the commit

  /** Appends `recs` behind the log of the block in use, `block`; the pair's other block is `other`. */
  method AppendOnDisk(block: array<bv8>, other: seq<bv8>, u: nat, off: nat, etag: Word, ghost es: seq<Entry>,
                      recs: seq<Rec>, limit: nat, progSize: bv32) returns (ok: bool, ghost c: PairCommit)
    requires u < 2 && |other| >= 4 && progSize as nat >= 4 && block.Length % (progSize as nat) == 0
             && limit + 8 <= block.Length
    requires forall k :: 0 <= k < |recs| ==> Storable(recs[k])
    requires InUse(block[..], es, progSize as nat)
    requires var m := AfterAll(Start(block[..]), es); off == m.off && etag == m.ptag && off <= limit
    requires FetchOf(u, block[..], other, progSize as nat) == Some((u, Fetched(AfterAll(Start(block[..]), es), true)))
    modifies block
    ensures Outcome(ok, off, recs, block.Length, limit, progSize as nat)
    ensures ok ==> c.Append? && c.Valid(progSize as nat) && c.OldLog() == RecsOf(es) && c.NewLog() == RecsOf(es) + recs
    ensures ok ==> c.Before() == PairOf(u, old(block[..]), other) && c.After() == PairOf(u, block[..], other)
  {
    hide AfterAll, InUse, FetchOf, Appends, Predicted, EntriesOf, Storable, Outcome, CommitFits;
    var attrs := EntriesOf(recs);
    EntriesRoundTrip(recs);
    ghost var was := block[..];
    ghost var fs;
    ok, fs := AppendCommit(block, off, etag, es, attrs, limit, progSize);
    OutcomeIs(ok, AfterAll(Start(was), es), recs, block.Length, limit, progSize as nat);
    c := Append(u, was, block[..], other, es, fs, attrs);
    RecsConcat(es, attrs);
  }

  /**
   An append of `tried` that may run out of room: then `begun` is the block with all that was handed
   to the device, and the block is left with `flushed` units of it programmed, the rest having been
   dropped with the program cache.
   */
  method AbandonOnDisk(block: array<bv8>, off: nat, etag: Word, ghost es: seq<Entry>, tried: seq<Rec>, flushed: nat,
                       limit: nat, progSize: bv32)
      returns (appended: bool, ghost begun: seq<bv8>, ghost part: seq<Entry>)
    requires progSize as nat >= 4 && block.Length % (progSize as nat) == 0 && limit + 8 <= block.Length
    requires forall k :: 0 <= k < |tried| ==> Storable(tried[k])
    requires InUse(block[..], es, progSize as nat) && off + flushed * progSize as nat <= block.Length
    requires var m := AfterAll(Start(block[..]), es); off == m.off && etag == m.ptag && off <= limit
    modifies block
    ensures Outcome(appended, off, tried, block.Length, limit, progSize as nat)
    ensures !appended ==> Torn(old(block[..]), begun, off, progSize as nat, flushed, block[..])
    ensures !appended && BlankBehind(begun, AfterAll(AfterAll(Start(old(block[..])), es), part).off) ==>
              Abandons(old(block[..]), begun, es, part, EntriesOf(tried), progSize as nat)
  {
    hide AfterAll, InUse, Appends, Predicted, EntriesOf, Storable, Abandons, OneTag, IsPart, Written, BlankBehind, Torn,
         Outcome, CommitFits;
    var attrs := EntriesOf(tried);
    EntriesRoundTrip(tried);
    var copy := block[..];
    appended, part := AppendCommit(block, off, etag, es, attrs, limit, progSize);
    begun := block[..];
    OutcomeIs(appended, AfterAll(Start(copy), es), tried, block.Length, limit, progSize as nat);
    if !appended {
      var unit := progSize as nat;
      var keep := off + flushed * unit;
      PutBack(block, copy, keep);
      LeftIsTorn(copy, begun, block[..], off, unit, flushed);
    }
  }

  /** The bytes of a block from `keep` on as they were. */
  method PutBack(block: array<bv8>, was: seq<bv8>, keep: nat)
    requires keep <= block.Length == |was|
    modifies block
    ensures block[..keep] == old(block[..keep]) && block[keep..] == was[keep..]
  {
    forall i | keep <= i < block.Length {
      block[i] := was[i];
    }
  }

  /** What an append abandoned on block `u` has left there. */
  ghost predicate Left(u: nat, was: seq<bv8>, other: seq<bv8>, es: seq<Entry>, begun: seq<bv8>, part: seq<Entry>,
                       tried: seq<Entry>, flushed: nat, left: seq<bv8>, unit: nat)
  {
    && unit > 0 && Abandons(was, begun, es, part, tried, unit) && FoundIn(u, was, other, es, unit)
    && TornBegun(was, begun, es, unit, flushed, left)
  }

  /** After such an append, the rewrite of the other block, `block`; `left` is what the append has left. */
  method RetryOnDisk(block: array<bv8>, left: seq<bv8>, u: nat, recs: seq<Rec>, limit: nat, progSize: bv32, blank: bv8,
                     ghost was: seq<bv8>, ghost es: seq<Entry>, ghost begun: seq<bv8>, ghost part: seq<Entry>,
                     ghost tried: seq<Rec>, ghost flushed: nat) returns (ok: bool, ghost c: PairCommit)
    requires u < 2 && |left| >= 4 && progSize as nat >= 4 && block.Length % (progSize as nat) == 0
    requires 4 <= limit && limit + 8 <= block.Length
    requires forall k :: 0 <= k < |recs| ==> Storable(recs[k])
    requires forall k :: 0 <= k < |tried| ==> Storable(tried[k])
    requires Left(u, was, block[..], es, begun, part, EntriesOf(tried), flushed, left, progSize as nat)
    modifies block
    ensures Outcome(ok, 4, recs, block.Length, limit, progSize as nat)
    ensures ok ==> c.Retry? && c.Valid(progSize as nat)
    ensures ok ==> c.OldLog() == RecsOf(es) && c.TriedLog() == RecsOf(es) + tried && c.NewLog() == recs
    ensures ok ==> c.Before() == PairOf(u, was, old(block[..])) && c.After() == PairOf(u, left, block[..])
  {
    hide AfterAll, FetchOf, Abandons, Rewrites, Predicted, EntriesOf, Storable, TornBegun, FoundIn, Outcome, CommitFits;
    var attrs := EntriesOf(recs);
    EntriesRoundTrip(recs);
    EntriesRoundTrip(tried);
    ghost var other := block[..];
    ghost var erased, fs;
    ok, erased, fs := RewriteBlock(block, RevOf(left) + 1, left, attrs, limit, progSize, blank);
    OutcomeIs(ok, StartCursor(Le32(RevOf(left) + 1)), recs, block.Length, limit, progSize as nat);
    c := Retry(u, was, other, es, begun, part, EntriesOf(tried), flushed, left, erased, block[..], fs, attrs);
    RecsConcat(es, EntriesOf(tried));
  }

  lemma LeftIsTorn(was: seq<bv8>, begun: seq<bv8>, left: seq<bv8>, at: nat, unit: nat, flushed: nat)
    requires |was| == |begun| == |left| && at + flushed * unit <= |left|
    requires left[..at + flushed * unit] == begun[..at + flushed * unit]
    requires left[at + flushed * unit..] == was[at + flushed * unit..]
    ensures Torn(was, begun, at, unit, flushed, left)
  {
    var keep, to := at + flushed * unit, at + (flushed + 1) * unit;
    assert to == keep + unit;
    if to <= |left| { assert left[to..] == left[keep..][unit..] && was[to..] == was[keep..][unit..]; }
  }

  lemma RecsConcat(a: seq<Entry>, b: seq<Entry>)
    ensures RecsOf(a + b) == RecsOf(a) + RecsOf(b)
  {
  }

  /** Writes `recs` to `block`, the pair's other block, with the next revision; `mine` is the block in use. */
  method RewriteOnDisk(block: array<bv8>, mine: seq<bv8>, u: nat, ghost at: Fetched, recs: seq<Rec>,
                       limit: nat, progSize: bv32, blank: bv8) returns (ok: bool, ghost c: PairCommit)
    requires u < 2 && |mine| >= 4 && progSize as nat >= 4 && block.Length % (progSize as nat) == 0
    requires 4 <= limit && limit + 8 <= block.Length
    requires forall k :: 0 <= k < |recs| ==> Storable(recs[k])
    requires FetchOf(u, mine, block[..], progSize as nat) == Some((u, at))
    modifies block
    ensures Outcome(ok, 4, recs, block.Length, limit, progSize as nat)
    ensures ok ==> c.Rewrite? && c.Valid(progSize as nat) && c.OldLog() == RecsOf(at.at.view.log) && c.NewLog() == recs
    ensures ok ==> c.Before() == PairOf(u, mine, old(block[..])) && c.After() == PairOf(u, mine, block[..])
  {
    hide AfterAll, FetchOf, Rewrites, Predicted, EntriesOf, Storable, Outcome, CommitFits;
    var attrs := EntriesOf(recs);
    EntriesRoundTrip(recs);
    ghost var was := block[..];
    ghost var erased, fs;
    ok, erased, fs := RewriteBlock(block, RevOf(mine) + 1, mine, attrs, limit, progSize, blank);
    OutcomeIs(ok, StartCursor(Le32(RevOf(mine) + 1)), recs, block.Length, limit, progSize as nat);
    c := Rewrite(u, mine, was, erased, block[..], at, fs, attrs);
  }
}
