/**
 Walks along the list of all metadata pairs (lfs_rawmount, lfs_fs_rawtraverse, lfs_fs_pred,
 lfs_fs_parent), with Brent's algorithm against cycles.

 The list may be corrupt: a tail may lead anywhere, as long as it can be read.
 */
module TailList {
  import opened Common

  const NULL: nat := 0xffff_ffff

  /** The two blocks of a metadata pair, in either order. */
  datatype Pair = Pair(first: nat, second: nat)

  predicate IsNull(p: Pair) { p.first == NULL || p.second == NULL }

  /** lfs_pair_issync: the same two blocks. */
  predicate IsSync(p: Pair, q: Pair)
  {
    (p.first == q.first && p.second == q.second) || (p.first == q.second && p.second == q.first)
  }

  /** A pair is no pair as soon as one of its blocks is none. */
  lemma NullPairs(p: Pair)
    ensures IsNull(p) <==> 0xffff_ffff in {p.first, p.second}
  {
  }

  lemma SyncIsSame(p: Pair, q: Pair)
    ensures IsSync(p, q) <==> multiset{p.first, p.second} == multiset{q.first, q.second}
  {
    var a, b := multiset{p.first, p.second}, multiset{q.first, q.second};
    if a == b {
      assert p.first in b && p.second in b;
      if p.first == p.second { assert a[p.first] == 2; }
    }
  }

  const ROOT := Pair(0, 1)

  /** What each readable pair names as its tail. */
  type Tails = map<Pair, Pair>

  /** Every pair the list can lead to is readable. */
  ghost predicate Readable(tails: Tails)
  {
    ROOT in tails && forall p :: p in tails ==> IsNull(tails[p]) || tails[p] in tails
  }

  /** Fetching a pair reads both blocks, so the order they are named in does not matter. */
  ghost predicate OrderFree(tails: Tails)
  {
    forall p, q :: p in tails && q in tails && IsSync(p, q) ==> tails[p] == tails[q]
  }

  /** `s` follows the list from its start. */
  ghost predicate Path(tails: Tails, s: seq<Pair>)
  {
    && (s != [] ==> s[0] == ROOT)
    && (forall i :: 0 <= i < |s| ==> s[i] in tails && !IsNull(s[i]))
    && (forall i, j :: 0 <= i && j == i + 1 < |s| ==> s[j] == tails[s[i]])
  }

  /** `s` is the whole list. */
  ghost predicate Complete(tails: Tails, s: seq<Pair>)
  {
    Path(tails, s) && s != [] && IsNull(tails[s[|s| - 1]])
  }

  /** Some pair comes twice. */
  predicate Repeats(s: seq<Pair>) { exists i, j :: 0 <= i < j < |s| && IsSync(s[i], s[j]) }

  /** The list comes back to a pair it has been at. */
  ghost predicate Cyclic(tails: Tails) { exists s :: Path(tails, s) && Repeats(s) }

  // ---------------------------------------------------------------- cycles and ends

  /** There is one way to follow the list. */
  lemma {:induction false} PathsAgree(tails: Tails, s: seq<Pair>, t: seq<Pair>, i: nat)
    requires Path(tails, s) && Path(tails, t) && i < |s| && i < |t|
    ensures s[i] == t[i]
  {
    if i > 0 { PathsAgree(tails, s, t, i - 1); }
  }

  lemma PathStep(tails: Tails, s: seq<Pair>, i: nat)
    requires Path(tails, s) && i + 1 < |s|
    ensures s[i] in tails && s[i + 1] == tails[s[i]] && !IsNull(tails[s[i]])
  {
  }

  lemma NotLonger(tails: Tails, s: seq<Pair>, t: seq<Pair>)
    requires Complete(tails, s) && Path(tails, t)
    ensures |t| <= |s|
  {
    if |t| > |s| {
      PathsAgree(tails, s, t, |s| - 1);
      PathStep(tails, t, |s| - 1);
    }
  }

  /** From two places at the same pair on, the list goes the same way. */
  lemma {:induction false} SameAfter(tails: Tails, s: seq<Pair>, i: nat, j: nat, n: nat)
    requires Path(tails, s) && OrderFree(tails) && i < j && j + n < |s| && IsSync(s[i], s[j])
    ensures IsSync(s[i + n], s[j + n])
  {
    if n > 0 {
      SameAfter(tails, s, i, j, n - 1);
      assert s[i + n] == tails[s[i + n - 1]] && s[j + n] == tails[s[j + n - 1]];
    }
  }

  /** A list that ends has no pair twice. */
  lemma CompleteHasNoRepeat(tails: Tails, s: seq<Pair>)
    requires Complete(tails, s) && OrderFree(tails)
    ensures !Repeats(s)
  {
    if Repeats(s) {
      var i, j :| 0 <= i < j < |s| && IsSync(s[i], s[j]);
      var n := |s| - 1 - j;
      SameAfter(tails, s, i, j, n);
      PathStep(tails, s, i + n);
    }
  }

  /** The list is cyclic or ends, never both. */
  lemma CompleteIsNotCyclic(tails: Tails, s: seq<Pair>)
    requires Complete(tails, s) && OrderFree(tails)
    ensures !Cyclic(tails)
  {
    CompleteHasNoRepeat(tails, s);
    if Cyclic(tails) {
      var t :| Path(tails, t) && Repeats(t);
      NotLonger(tails, s, t);
      var i, j :| 0 <= i < j < |t| && IsSync(t[i], t[j]);
      PathsAgree(tails, s, t, i);
      PathsAgree(tails, s, t, j);
      assert Repeats(s);
    }
  }

  // ---------------------------------------------------------------- how long it can take

  /** More places than pairs: one comes twice. */
  lemma {:induction false} Pigeonhole(s: seq<Pair>, keys: set<Pair>) returns (i: nat, j: nat)
    requires |s| > |keys| && forall k :: 0 <= k < |s| ==> s[k] in keys
    ensures i < j < |s| && s[i] == s[j]
  {
    var last := |s| - 1;
    if x :| 0 <= x < last && s[x] == s[last] {
      return x, last;
    }
    i, j := Pigeonhole(s[..last], keys - {s[last]});
  }

  /** Once round, and every later place repeats. */
  lemma {:induction false} Periodic(tails: Tails, s: seq<Pair>, i: nat, j: nat, k: nat)
    requires Path(tails, s) && i < j < |s| && s[i] == s[j] && i <= k && k + j - i < |s|
    ensures s[k] == s[k + j - i]
  {
    if k > i {
      Periodic(tails, s, i, j, k - 1);
      assert s[k] == tails[s[k - 1]] && s[k + j - i] == tails[s[k - 1 + j - i]];
    }
  }

  /**
   A tortoise that has waited as many places as there are pairs, behind as many, has been met:
   places `t` and `t + period` of a path are at most that far apart.
   */
  lemma Met(tails: Tails, s: seq<Pair>, t: nat) returns (k: nat)
    requires Path(tails, s) && |tails| <= t && t + |tails| < |s|
    ensures t < k <= t + |tails| && s[k] == s[t]
  {
    var front := s[..|tails| + 1];
    var i, j := Pigeonhole(front, tails.Keys);
    Periodic(tails, s, i, j, t);
    k := t + j - i;
  }

  // ---------------------------------------------------------------- the walk

  /**
   The walk: `fetched` lists the pairs in the order they are fetched. It ends on every list, ends
   with an error exactly on cyclic ones, and otherwise has fetched each pair once.
   */
  method WalkTails(tails: Tails) returns (r: Result<seq<Pair>>)
    requires Readable(tails)
    ensures r.Err? ==> r == Err(Corrupt) && Cyclic(tails)
    ensures r.Ok? ==> Complete(tails, r.value)
    ensures OrderFree(tails) ==> (r.Err? <==> Cyclic(tails))
    ensures OrderFree(tails) && r.Ok? ==> !Repeats(r.value)
    ensures Cyclic(tails) || r.Ok?
  {
    var fetched: seq<Pair> := [];
    var tail := ROOT;
    var tortoise := Pair(NULL, NULL);
    var tortoiseI, period := 1, 1;
    ghost var t, n := 0, |tails|;
    while !IsNull(tail)
      invariant IsNull(tail) || tail in tails
      invariant fetched == [] ==> tail == ROOT && tortoiseI == 1 && period == 1 && IsNull(tortoise)
      invariant Path(tails, fetched)
      invariant fetched != [] ==> tail == tails[fetched[|fetched| - 1]]
      invariant fetched != [] ==> t < |fetched| <= t + period && period == t + 2 && tortoiseI == |fetched| - t
      invariant fetched != [] ==> tortoise == fetched[t]
      invariant forall k {:trigger fetched[k]} :: 0 <= t < k < |fetched| ==> !IsSync(fetched[k], fetched[t])
      invariant t < 2 * n + 2
      invariant |fetched| <= 3 * n + 3
      decreases 3 * n + 3 - |fetched|
    {
      ghost var s := fetched + [tail];
      PathOn(tails, fetched, tail);
      if IsSync(tail, tortoise) {
        assert IsSync(s[t], s[|fetched|]);
        assert Repeats(s);
        return Err(Corrupt);
      }
      if n <= t && t + n < |s| {
        var k := Met(tails, s, t);
        assert false;
      }
      if tortoiseI == period {
        tortoise := tail;
        tortoiseI := 0;
        period := period * 2;
        t := |fetched|;
      }
      tortoiseI := tortoiseI + 1;
      fetched := fetched + [tail];
      tail := tails[tail];
    }
    if OrderFree(tails) {
      CompleteIsNotCyclic(tails, fetched);
      CompleteHasNoRepeat(tails, fetched);
    }
    return Ok(fetched);
  }

  lemma PathOn(tails: Tails, s: seq<Pair>, tail: Pair)
    requires Path(tails, s) && tail in tails && !IsNull(tail)
    requires if s == [] then tail == ROOT else tail == tails[s[|s| - 1]]
    ensures Path(tails, s + [tail])
  {
  }
}
