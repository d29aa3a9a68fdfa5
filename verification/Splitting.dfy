/**
 Splitting compaction (lfs_dir_splittingcompact, lfs_dir_split): a directory that no longer
 fits one metadata pair is cut into a chain of pairs linked by hard tails.
 */
module Splitting {
  import opened Common
  import opened DirLog
  import opened Compaction

  /** The tail a metadata pair carries: the next pair and whether it continues this directory. */
  datatype Link = Link(next: Option<nat>, split: bool)

  /** One compacted metadata pair: its name, the ids it took over, its log and its tail. */
  datatype Block = Block(name: nat, begin: nat, end: nat, log: seq<Rec>, link: Link)

  function SizeOf(log: seq<Rec>): nat
  {
    if log == [] then 0 else DiskSize(log[0].tag) + SizeOf(log[1..])
  }

  /** The measure that stops halving: few enough ids, and small enough on disk. */
  predicate Fits(items: seq<Item>, begin: nat, end: nat, cap: nat)
    requires begin <= end
  {
    end - begin <= 1 || (end - begin < 0xff && SizeOf(Compacted(items, begin, end)) <= cap)
  }

  /** What fits has fewer than 255 entries, and unless it is a single one its tags take up no more than `cap`. */
  lemma FitsBelow(items: seq<Item>, begin: nat, end: nat, cap: nat)
    requires begin <= end && Fits(items, begin, end, cap)
    ensures end - begin < 255
    ensures end - begin > 1 ==> SizeOf(Compacted(items, begin, end)) <= cap
  {
  }

  /** Where the back part begins after `k` halvings. */
  function Halved(begin: nat, end: nat, k: nat): (split: nat)
    requires begin <= end
    ensures begin <= split <= end
  {
    if k == 0 then begin else var split := Halved(begin, end, k - 1); split + (end - split) / 2
  }

  /** The first `k` halvings leave a back part that does not fit. */
  predicate NoneFits(items: seq<Item>, begin: nat, end: nat, cap: nat, k: nat)
    requires begin <= end
  {
    forall j :: 0 <= j < k ==> !Fits(items, Halved(begin, end, j), end, cap)
  }

  /** Halves the range from the front until the back part fits: no more often than it must be. */
  method FindSplit(items: seq<Item>, begin: nat, end: nat, cap: nat) returns (split: nat)
    requires begin <= end
    ensures begin <= split <= end && (begin < end ==> split < end)
    ensures Fits(items, split, end, cap)
    ensures exists k: nat :: split == Halved(begin, end, k) && NoneFits(items, begin, end, cap, k)
    ensures split == begin <==> Fits(items, begin, end, cap)
  {
    hide Compacted;
    split := begin;
    ghost var k: nat := 0;
    while end - split > 1
      invariant begin <= split <= end && (begin < end ==> split < end)
      invariant split == Halved(begin, end, k) && NoneFits(items, begin, end, cap, k)
      invariant k > 0 ==> split > begin
    {
      var out := Traverse(items, split, end);
      if end - split < 0xff && SizeOf(out) <= cap { break; }
      split, k := split + (end - split) / 2, k + 1;
    }
    assert k > 0 ==> !Fits(items, Halved(begin, end, 0), end, cap);
  }

  /** A chain of pairs that takes over [begin, end) in order and ends in the link `last`. */
  predicate Covers(chain: seq<Block>, items: seq<Item>, begin: nat, end: nat, last: Link)
  {
    && |chain| > 0
    && chain[0].begin == begin && chain[|chain| - 1].end == end
    && chain[|chain| - 1].link == last
    && (forall i :: 0 <= i < |chain| ==> Written(chain[i], items))
    && (forall i :: 0 <= i < |chain| - 1 ==> Joined(chain[i], chain[i + 1]))
    && (begin < end ==> forall i :: 0 < i < |chain| ==> chain[i].begin < chain[i].end)
  }

  predicate Written(b: Block, items: seq<Item>)
  {
    b.begin <= b.end && b.log == Compacted(items, b.begin, b.end)
  }

  /** `b` continues `a` through a hard tail. */
  predicate Joined(a: Block, b: Block)
  {
    a.end == b.begin && a.link == Link(Some(b.name), true)
  }

  /** Every block holds no more than the measure allows. */
  predicate AllFit(chain: seq<Block>, items: seq<Item>, cap: nat)
  {
    forall i :: 0 <= i < |chain| ==> chain[i].begin <= chain[i].end && Fits(items, chain[i].begin, chain[i].end, cap)
  }

  /** Putting one more block in front of a chain of tails. */
  lemma Prepended(b: Block, tails: seq<Block>, items: seq<Item>, top: nat, end: nat, last: Link)
    requires Written(b, items) && b.end == top <= end
    requires tails == [] ==> b.link == last && top == end
    requires tails != [] ==> Covers(tails, items, top, end, last) && b.link == Link(Some(tails[0].name), true)
    requires tails != [] && b.begin < end ==> tails[0].begin < tails[0].end && top < end
    ensures Covers([b] + tails, items, b.begin, end, last)
  {
    var chain := [b] + tails;
    assert forall i :: 0 < i < |chain| ==> chain[i] == tails[i - 1];
    forall i | 0 <= i < |chain| ensures Written(chain[i], items) {
      if i > 0 { assert Written(tails[i - 1], items); }
    }
    forall i | 0 <= i < |chain| - 1 ensures Joined(chain[i], chain[i + 1]) {
      if i > 0 { assert Joined(tails[i - 1], tails[i]); }
    }
  }

  /** The tails split off so far, and the link the block in front of them must carry. */
  predicate Pending(tails: seq<Block>, items: seq<Item>, top: nat, end: nat, last: Link, link: Link)
  {
    if tails == [] then link == last && top == end
    else
      && Covers(tails, items, top, end, last)
      && (top < end ==> tails[0].begin < tails[0].end)
      && link == Link(Some(tails[0].name), true)
  }

  /** The pairs split off carry the names handed out, the newest in front. */
  predicate NewestFirst(tails: seq<Block>, free: seq<nat>)
  {
    |tails| <= |free| && forall i :: 0 <= i < |tails| ==> tails[i].name == free[|tails| - 1 - i]
  }

  lemma TakenNext(chain: seq<Block>, tails: seq<Block>, free: seq<nat>)
    requires |tails| < |free| && NewestFirst(tails, free)
    requires |chain| > 0 && chain[1..] == tails && chain[0].name == free[|tails|]
    ensures NewestFirst(chain, free)
  {
    forall i | 0 <= i < |chain| ensures chain[i].name == free[|chain| - 1 - i] {
      if i > 0 { assert chain[i] == tails[i - 1]; }
    }
  }

  lemma NoneTaken(free: seq<nat>)
    ensures NewestFirst([], free)
  {
  }

  /** The pair compacted in place is the only one that was not handed out. */
  lemma OneMore(chain: seq<Block>, tails: seq<Block>, free: seq<nat>)
    requires |chain| > 0 && chain[1..] == tails && NewestFirst(tails, free)
    ensures FromPool(chain, free) && |chain| == |tails| + 1
  {
  }

  lemma FitsInFront(chain: seq<Block>, tails: seq<Block>, items: seq<Item>, cap: nat)
    requires |chain| > 0 && chain[1..] == tails && AllFit(tails, items, cap)
    requires chain[0].begin <= chain[0].end && Fits(items, chain[0].begin, chain[0].end, cap)
    ensures AllFit(chain, items, cap)
  {
    forall i | 0 <= i < |chain|
      ensures chain[i].begin <= chain[i].end && Fits(items, chain[i].begin, chain[i].end, cap)
    {
      if i > 0 { assert chain[i] == tails[i - 1]; }
    }
  }

  lemma NoneFit(items: seq<Item>, cap: nat)
    ensures AllFit([], items, cap)
  {
  }

  lemma EmptyFits(items: seq<Item>, begin: nat, cap: nat)
    ensures Fits(items, begin, begin, cap)
  {
  }

  predicate FromPool(chain: seq<Block>, free: seq<nat>) { |chain| > 0 && NewestFirst(chain[1..], free) }

  /**
   Compacts [begin, end) of a directory named `name` whose tail was `oldTail`. `free` are the
   pairs the allocator can still hand out; when it runs dry the rest is compacted as it is.
   `expand` is the decision to push a worn superblock's whole contents into a new pair.
   */
  method SplittingCompact(items: seq<Item>, name: nat, begin: nat, end: nat, cap: nat, oldTail: Link,
                          free: seq<nat>, expand: bool)
      returns (chain: seq<Block>, exhausted: bool)
    requires begin <= end
    ensures Covers(chain, items, begin, end, oldTail) && chain[0].name == name
    ensures !expand && begin < end ==> chain[0].begin < chain[0].end
    ensures !exhausted ==> AllFit(chain, items, cap)
    ensures !expand && Fits(items, begin, end, cap) ==> |chain| == 1 && !exhausted
    ensures exhausted ==> |chain| == |free| + 1
    ensures exhausted && !expand ==> !Fits(items, begin, chain[0].end, cap)
    ensures FromPool(chain, free)
  {
    hide Covers, Fits, AllFit, NewestFirst, FromPool;
    var top, link, pool := end, oldTail, free;
    exhausted := false;
    NoneTaken(free);
    NoneFit(items, cap);
    var tails: seq<Block> := [];
    while true
      invariant begin <= top <= end && (begin < end ==> begin < top)
      invariant Pending(tails, items, top, end, oldTail, link) && (tails != [] ==> top < end)
      invariant AllFit(tails, items, cap)
      invariant !exhausted && |tails| <= |free| && pool == free[|tails|..] && NewestFirst(tails, free)
      invariant tails == [] || !Fits(items, begin, end, cap)
      decreases top
    {
      var split := FindSplit(items, begin, top, cap);
      if split == begin { break; }
      if pool == [] {
        exhausted := true;
        break;
      }
      ghost var behind := tails;
      tails := SplitOff(items, pool[0], split, top, end, oldTail, link, tails);
      TakenNext(tails, behind, free);
      FitsInFront(tails, behind, items, cap);
      link, pool, top := Link(Some(pool[0]), true), pool[1..], split;
    }
    if expand {
      if pool == [] {
        exhausted := true;
      } else {
        ghost var behind := tails;
        tails := SplitOff(items, pool[0], begin, top, end, oldTail, link, tails);
        TakenNext(tails, behind, free);
        if !exhausted { FitsInFront(tails, behind, items, cap); }
        EmptyFits(items, begin, cap);
        link, top := Link(Some(pool[0]), true), begin;
      }
    }
    chain := SplitOff(items, name, begin, top, end, oldTail, link, tails);
    OneMore(chain, tails, free);
    if !exhausted { FitsInFront(chain, tails, items, cap); }
  }

  /** Compacts [split, top) into the pair `name` and links it in front of `tails`. */
  method SplitOff(items: seq<Item>, name: nat, split: nat, top: nat, end: nat, last: Link, link: Link,
                  tails: seq<Block>)
      returns (chain: seq<Block>)
    requires split <= top <= end && Pending(tails, items, top, end, last, link)
    requires tails != [] && split < end ==> top < end
    ensures |chain| > 0 && chain[1..] == tails && chain[0].name == name
    ensures chain[0].begin == split && chain[0].end == top
    ensures Covers(chain, items, split, end, last)
  {
    var log := Traverse(items, split, top);
    var b := Block(name, split, top, log, link);
    Prepended(b, tails, items, top, end, last);
    chain := [b] + tails;
  }

  // ---------------------------------------------------------------- reading the chain back

  /** Follows hard tails from block `k` to the one that holds running id `id`. */
  function Seek(chain: seq<Block>, k: nat, id: nat): (nat, nat)
    requires k < |chain|
    requires forall i :: 0 <= i < |chain| ==> chain[i].begin <= chain[i].end
    decreases |chain| - k
  {
    var count := chain[k].end - chain[k].begin;
    if id >= count && chain[k].link.split && k + 1 < |chain| then Seek(chain, k + 1, id - count)
    else (k, id)
  }

  /** Every id of the original range is found on the chain, in the block that took it over. */
  lemma {:induction false} SeekFinds(chain: seq<Block>, items: seq<Item>, begin: nat, end: nat, last: Link, k: nat,
                                     id: nat)
    requires Covers(chain, items, begin, end, last) && k < |chain|
    requires chain[k].begin <= id < end
    ensures forall i :: 0 <= i < |chain| ==> chain[i].begin <= chain[i].end
    ensures var (j, x) := Seek(chain, k, id - chain[k].begin);
            k <= j < |chain| && chain[j].begin <= id < chain[j].end && x == id - chain[j].begin
    decreases |chain| - k
  {
    forall i | 0 <= i < |chain| ensures chain[i].begin <= chain[i].end { assert Written(chain[i], items); }
    if id >= chain[k].end {
      assert k + 1 < |chain|;
      assert Joined(chain[k], chain[k + 1]);
      SeekFinds(chain, items, begin, end, last, k + 1, id);
    }
  }

  /** Splitting preserves meaning: read through the chain, every entry answers as before. */
  lemma SplitPreservesEntries(chain: seq<Block>, items: seq<Item>, begin: nat, end: nat, last: Link, want: nat, id: nat)
    requires WellFormedItems(items) && MovesStand(items) && IsAttr(want)
    requires Covers(chain, items, begin, end, last) && begin <= id < end
    ensures forall i :: 0 <= i < |chain| ==> chain[i].begin <= chain[i].end
    ensures var (j, x) := Seek(chain, 0, id - begin);
            j < |chain| && x < chain[j].end - chain[j].begin &&
            Get(Replay(chain[j].log), KeyMask(want), want, x) == Get(Replay(Expand(items)), KeyMask(want), want, id)
  {
    hide *;
    ChainParts(chain, items, begin, end, last);
    SeekFinds(chain, items, begin, end, last, 0, id);
    var (j, x) := Seek(chain, 0, id - begin);
    WrittenEntry(chain[j], items, want, id);
  }

  lemma ChainParts(chain: seq<Block>, items: seq<Item>, begin: nat, end: nat, last: Link)
    requires Covers(chain, items, begin, end, last)
    ensures |chain| > 0 && chain[0].begin == begin
    ensures forall i :: 0 <= i < |chain| ==> Written(chain[i], items)
  {
    hide Compacted;
  }

  lemma WrittenEntry(b: Block, items: seq<Item>, want: nat, id: nat)
    requires WellFormedItems(items) && MovesStand(items) && IsAttr(want)
    requires Written(b, items) && b.begin <= id < b.end
    ensures Get(Replay(b.log), KeyMask(want), want, id - b.begin) == Get(Replay(Expand(items)), KeyMask(want), want, id)
  {
    hide Replay, Get, KeyMask, Expand, Compacted, WellFormedItems, MovesStand, IsAttr;
    CompactionPreservesEntries(items, b.begin, b.end, want, id);
  }

  function Sizes(chain: seq<Block>): int
  {
    if chain == [] then 0 else chain[0].end - chain[0].begin + Sizes(chain[1..])
  }

  /** No entry is lost or duplicated: the blocks of a chain add up to the range they took over. */
  lemma {:induction false} ChainSizes(chain: seq<Block>, items: seq<Item>, begin: nat, end: nat, last: Link)
    requires Covers(chain, items, begin, end, last)
    ensures Sizes(chain) == end - begin
  {
    if |chain| == 1 {
      assert chain[1..] == [];
    } else {
      assert Joined(chain[0], chain[1]);
      forall i | 0 <= i < |chain| - 2 ensures Joined(chain[1..][i], chain[1..][i + 1]) {
        assert Joined(chain[i + 1], chain[i + 2]);
      }
      ChainSizes(chain[1..], items, chain[1].begin, end, last);
    }
  }
}
