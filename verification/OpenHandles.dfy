/**
 Keeping open handles pointed at their entries (the fixmlist step of lfs_dir_relocatingcommit).

 A commit may create and delete ids and may split the directory. Every open handle on the
 committed pair is renumbered and, if its id moved past the end of the first pair, walked
 along the hard tails.
 */
module OpenHandles {
  import opened Common
  import Compaction
  import opened Splitting

  /** The two splices a commit's attribute list can contain. */
  datatype Edit = Create(id: nat) | Delete(id: nat)

  /** One metadata pair of a directory, in hard-tail order. */
  datatype Segment = Segment(name: nat, count: nat, split: bool)

  // ---------------------------------------------------------------- what edits do to entries

  predicate EditFits(n: nat, e: Edit)
  {
    match e
    case Create(id) => id <= n
    case Delete(id) => id < n
  }

  function Edited<T>(es: seq<T>, e: Edit, made: T): (r: seq<T>)
    requires EditFits(|es|, e)
    ensures |r| == if e.Create? then |es| + 1 else |es| - 1
  {
    match e
    case Create(id) => es[..id] + [made] + es[id..]
    case Delete(id) => es[..id] + es[id + 1..]
  }

  predicate EditsFit(n: nat, edits: seq<Edit>)
    decreases |edits|
  {
    edits == [] ||
    (EditFits(n, edits[0]) && EditsFit(if edits[0].Create? then n + 1 else n - 1, edits[1..]))
  }

  function EditedAll<T>(es: seq<T>, edits: seq<Edit>, made: T): seq<T>
    requires EditsFit(|es|, edits)
    decreases |edits|
  {
    if edits == [] then es else EditedAll(Edited(es, edits[0], made), edits[1..], made)
  }

  // ---------------------------------------------------------------- what edits do to a handle

  /** The id of a handle after the edits, and whether its entry was deleted among them. */
  function Renumbered(id: nat, gone: bool, edits: seq<Edit>): (nat, bool)
    decreases |edits|
  {
    if edits == [] then (id, gone)
    else match edits[0]
      case Delete(d) =>
        if id == d then Renumbered(id, true, edits[1..])
        else if id > d then Renumbered(id - 1, gone, edits[1..])
        else Renumbered(id, gone, edits[1..])
      case Create(c) => Renumbered(if id >= c then id + 1 else id, gone, edits[1..])
  }

  lemma {:induction false} StaysGone(id: nat, edits: seq<Edit>)
    ensures Renumbered(id, true, edits).1
    decreases |edits|
  {
    if edits != [] {
      match edits[0] {
        case Delete(d) => StaysGone(if id > d then id - 1 else id, edits[1..]);
        case Create(c) => StaysGone(if id >= c then id + 1 else id, edits[1..]);
      }
    }
  }

  /**
   A handle keeps naming its entry `x` through any list of edits, and is marked gone exactly
   when the edits removed that entry.
   */
  lemma {:induction false} HandleFollowsEntry<T>(es: seq<T>, id: nat, x: T, edits: seq<Edit>, made: T)
    requires id < |es| && es[id] == x && x != made
    requires forall i :: 0 <= i < |es| && i != id ==> es[i] != x
    requires EditsFit(|es|, edits)
    ensures var (id', gone) := Renumbered(id, false, edits);
            var after := EditedAll(es, edits, made);
            (gone <==> x !in after) && (!gone ==> id' < |after| && after[id'] == x)
    decreases |edits|
  {
    if edits != [] {
      var next := Edited(es, edits[0], made);
      match edits[0] {
        case Delete(d) =>
          if id == d {
            StaysGone(id, edits[1..]);
            NeverReturns(next, x, edits[1..], made);
          } else {
            HandleFollowsEntry(next, if id > d then id - 1 else id, x, edits[1..], made);
          }
        case Create(c) =>
          HandleFollowsEntry(next, if id >= c then id + 1 else id, x, edits[1..], made);
      }
    }
  }

  lemma {:induction false} NeverReturns<T>(es: seq<T>, x: T, edits: seq<Edit>, made: T)
    requires x !in es && x != made && EditsFit(|es|, edits)
    ensures x !in EditedAll(es, edits, made)
    decreases |edits|
  {
    if edits != [] { NeverReturns(Edited(es, edits[0], made), x, edits[1..], made); }
  }

  // ---------------------------------------------------------------- walking along the hard tails

  function Start(chain: seq<Segment>, k: nat): nat
    requires k <= |chain|
  {
    if k == 0 then 0 else Start(chain, k - 1) + chain[k - 1].count
  }

  /** Only the last pair of a directory has no hard tail. */
  predicate HardLinked(chain: seq<Segment>)
  {
    |chain| > 0 && forall k :: 0 <= k < |chain| ==> (chain[k].split <==> k + 1 < |chain|)
  }

  /** Where a handle that had id `before` may point after the commit. */
  ghost predicate Fixed(before: nat, edits: seq<Edit>, chain: seq<Segment>, pair: Option<nat>, id: nat)
  {
    var (moved, gone) := Renumbered(before, false, edits);
    exists k: nat :: k < |chain| && Start(chain, k) <= moved && id == moved - Start(chain, k) &&
      (id < chain[k].count || k + 1 == |chain|) &&
      pair == (if gone && k == 0 then None else Some(chain[k].name))
  }

  class Handle {
    var pair: Option<nat>
    var id: nat

    constructor (pair: Option<nat>, id: nat)
      ensures this.pair == pair && this.id == id
    {
      this.pair, this.id := pair, id;
    }

    /** Brings one handle up to date after a commit whose directory is now `chain`. */
    method Fix(edits: seq<Edit>, chain: seq<Segment>)
      requires HardLinked(chain)
      modifies this
      ensures Fixed(old(id), edits, chain, pair, id)
    {
      pair := Some(chain[0].name);
      var i := 0;
      ghost var gone := false;
      while i < |edits|
        invariant 0 <= i <= |edits|
        invariant Renumbered(old(id), false, edits) == Renumbered(id, gone, edits[i..])
        invariant pair == if gone then None else Some(chain[0].name)
      {
        assert edits[i..][0] == edits[i] && edits[i..][1..] == edits[i + 1..];
        match edits[i] {
          case Delete(d) =>
            if id == d {
              pair := None;
              gone := true;
            } else if id > d {
              id := id - 1;
            }
          case Create(c) =>
            if id >= c { id := id + 1; }
        }
        i := i + 1;
      }
      assert edits[i..] == [];
      ghost var moved := id;
      var k := 0;
      while id >= chain[k].count && chain[k].split
        invariant k < |chain|
        invariant Start(chain, k) <= moved && id == moved - Start(chain, k)
        invariant pair == if gone && k == 0 then None else Some(chain[k].name)
        decreases |chain| - k
      {
        id := id - chain[k].count;
        k := k + 1;
        pair := Some(chain[k].name);
      }
    }
  }

  /** Walks the list of open handles and fixes those on the committed pair. */
  method FixAll(handles: seq<Handle>, committed: nat, edits: seq<Edit>, chain: seq<Segment>)
    requires HardLinked(chain)
    requires forall i, j :: 0 <= i < j < |handles| ==> handles[i] != handles[j]
    modifies handles
    ensures forall h :: h in handles ==>
              if old(h.pair) == Some(committed) then Fixed(old(h.id), edits, chain, h.pair, h.id)
              else h.pair == old(h.pair) && h.id == old(h.id)
  {
    for n := 0 to |handles|
      invariant forall i :: n <= i < |handles| ==>
                  handles[i].pair == old(handles[i].pair) && handles[i].id == old(handles[i].id)
      invariant forall i :: 0 <= i < n ==>
                  if old(handles[i].pair) == Some(committed)
                  then Fixed(old(handles[i].id), edits, chain, handles[i].pair, handles[i].id)
                  else handles[i].pair == old(handles[i].pair) && handles[i].id == old(handles[i].id)
    {
      if handles[n].pair == Some(committed) { handles[n].Fix(edits, chain); }
    }
  }

  lemma {:induction false} StartMonotone(chain: seq<Segment>, j: nat, k: nat)
    requires j <= k <= |chain|
    ensures Start(chain, j) <= Start(chain, k)
    decreases k - j
  {
    if j < k { StartMonotone(chain, j, k - 1); }
  }

  /** The contents of a directory laid out pair by pair. */
  ghost predicate LaidOut<T>(chain: seq<Segment>, parts: seq<seq<T>>, all: seq<T>)
  {
    && |parts| == |chain|
    && Start(chain, |chain|) == |all|
    && (forall k :: 0 <= k < |chain| ==> |parts[k]| == chain[k].count)
    && (forall k, i :: 0 <= k < |chain| && 0 <= i < |parts[k]| ==>
         Offset(chain, k, i) < |all| && parts[k][i] == all[Offset(chain, k, i)])
  }

  function Offset(chain: seq<Segment>, k: nat, i: nat): nat
    requires k < |chain|
  {
    Start(chain, k) + i
  }

  /**
   Handle stability: after the edits and however the directory was split over `chain`, a handle
   that is as `Fix` leaves it names, by its pair and its id there, the entry it named before, unless
   that was deleted.
   */
  lemma FixedHandleNamesEntry<T>(es: seq<T>, before: nat, x: T, edits: seq<Edit>, made: T,
                                 chain: seq<Segment>, parts: seq<seq<T>>, pair: Option<nat>, id: nat)
    requires before < |es| && es[before] == x && x != made
    requires forall i :: 0 <= i < |es| && i != before ==> es[i] != x
    requires EditsFit(|es|, edits) && HardLinked(chain)
    requires LaidOut(chain, parts, EditedAll(es, edits, made))
    requires x in EditedAll(es, edits, made)
    requires Fixed(before, edits, chain, pair, id)
    ensures exists k :: 0 <= k < |chain| && pair == Some(chain[k].name) && id < |parts[k]| && parts[k][id] == x
  {
    hide EditedAll, Renumbered, EditsFit, Start, LaidOut, HardLinked;
    HandleFollowsEntry(es, before, x, edits, made);
    var (moved, gone) := Renumbered(before, false, edits);
    var k: nat :| k < |chain| && Start(chain, k) <= moved && id == moved - Start(chain, k) &&
      (id < chain[k].count || k + 1 == |chain|) &&
      pair == (if gone && k == 0 then None else Some(chain[k].name));
    InSegment(chain, parts, EditedAll(es, edits, made), k, id);
    assert pair == Some(chain[k].name) && id < |parts[k]| && parts[k][id] == x;
  }

  lemma InSegment<T>(chain: seq<Segment>, parts: seq<seq<T>>, all: seq<T>, k: nat, id: nat)
    requires LaidOut(chain, parts, all) && k < |chain| && Start(chain, k) + id < |all|
    requires id < chain[k].count || k + 1 == |chain|
    ensures |parts| == |chain| && id < |parts[k]| && parts[k][id] == all[Start(chain, k) + id]
  {
    assert Start(chain, |chain|) == Start(chain, |chain| - 1) + chain[|chain| - 1].count;
    assert Offset(chain, k, id) == Start(chain, k) + id;
  }

  /**
   A handle whose entry was deleted is left without a pair, except when its id is at or past the
   end of the first pair of a split directory: then the walk along the tails gives it a pair again.
   */
  lemma DeletedHandle(before: nat, edits: seq<Edit>, chain: seq<Segment>, pair: Option<nat>, id: nat)
    requires HardLinked(chain) && Fixed(before, edits, chain, pair, id)
    ensures var (moved, gone) := Renumbered(before, false, edits);
            pair == None <==> gone && !(moved >= chain[0].count && chain[0].split)
  {
    var (moved, gone) := Renumbered(before, false, edits);
    var k: nat :| k < |chain| && Start(chain, k) <= moved && id == moved - Start(chain, k) &&
      (id < chain[k].count || k + 1 == |chain|) &&
      pair == (if gone && k == 0 then None else Some(chain[k].name));
    assert Start(chain, 1) == chain[0].count;
    if k > 0 { StartMonotone(chain, 1, k); }
  }

  /** Deleting the first entry of the second pair is such a case: its handle is given that pair again. */
  lemma DeletedHandleRevived()
    ensures var chain, edits := [Segment(7, 1, true), Segment(8, 1, false)], [Delete(1)];
            && HardLinked(chain) && EditsFit(3, edits) && Renumbered(1, false, edits).1
            && Fixed(1, edits, chain, Some(8), 0)
  {
    var chain, edits := [Segment(7, 1, true), Segment(8, 1, false)], [Delete(1)];
    assert edits[1..] == [] && Renumbered(1, false, edits) == (1, true);
    var k: nat := 1;
    assert Start(chain, 1) == 1;
    assert k < |chain| && Start(chain, k) <= 1;
  }

  /** The pairs a splitting compaction leaves behind are laid out like this. */
  lemma {:induction false} SplitChainLaysOut(chain: seq<Block>, k: nat, items: seq<Compaction.Item>, end: nat,
                                             last: Link)
    requires Covers(chain, items, 0, end, last) && k <= |chain|
    ensures Start(SegmentsOf(chain), k) == if k == |chain| then end else chain[k].begin
    ensures last.split || HardLinked(SegmentsOf(chain))
  {
    forall i | 0 <= i < |chain| ensures chain[i].begin <= chain[i].end && (i + 1 < |chain| ==> chain[i].link.split) {
      assert Written(chain[i], items);
      if i + 1 < |chain| { assert Joined(chain[i], chain[i + 1]); }
    }
    if k > 0 {
      SplitChainLaysOut(chain, k - 1, items, end, last);
      assert Written(chain[k - 1], items);
      if k < |chain| { assert Joined(chain[k - 1], chain[k]); }
    }
  }

  function SegmentsOf(chain: seq<Block>): (r: seq<Segment>)
    ensures |r| == |chain|
    ensures forall k :: 0 <= k < |chain| && chain[k].begin <= chain[k].end ==>
              r[k] == Segment(chain[k].name, chain[k].end - chain[k].begin, chain[k].link.split)
  {
    seq(|chain|, k requires 0 <= k < |chain| =>
      Segment(chain[k].name,
              if chain[k].begin <= chain[k].end then chain[k].end - chain[k].begin else 0,
              chain[k].link.split))
  }
}
