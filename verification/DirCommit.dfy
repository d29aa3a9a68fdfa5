/**
 One commit to a directory on the level of logs (lfs_dir_relocatingcommit without split or
 relocation): attributes are appended, or the whole log is rewritten with them, and either way the
 new log denotes the old directory with the attributes applied.
 */
module DirCommit {
  import opened Common
  import opened Compaction
  import opened DirLog
  import opened GlobalState
  import opened TagWord

  // ---------------------------------------------------------------- replaying a commit

  function ApplyAll(st: State, recs: seq<Rec>): State
  {
    if recs == [] then st else Apply(ApplyAll(st, recs[..|recs| - 1]), recs[|recs| - 1])
  }

  lemma {:induction false} ReplayConcat(log: seq<Rec>, recs: seq<Rec>)
    ensures Replay(log + recs) == ApplyAll(Replay(log), recs)
  {
    hide Apply;
    if recs == [] {
      assert log + recs == log;
    } else {
      assert (log + recs)[..|log + recs| - 1] == log + recs[..|recs| - 1];
      ReplayConcat(log, recs[..|recs| - 1]);
    }
  }

  lemma ApplyLast(st: State, recs: seq<Rec>, r: Rec)
    ensures ApplyAll(st, recs + [r]) == Apply(ApplyAll(st, recs), r)
  {
    assert (recs + [r])[..|recs|] == recs;
  }

  /** Attributes filed under one entry pile up in its history. */
  lemma {:induction false} ApplyFiled(st: State, vs: seq<Value>, id: nat)
    requires id < |st.entries| && id < st.count
    requires forall i :: 0 <= i < |vs| ==> IsAttr(vs[i].ty)
    ensures ApplyAll(st, FiledAll(vs, id)) == State(st.count, st.entries[id := st.entries[id] + vs])
  {
    if vs == [] {
      assert st.entries[id] + vs == st.entries[id];
    } else {
      var front := vs[..|vs| - 1];
      assert FiledAll(vs, id)[..|vs| - 1] == FiledAll(front, id);
      ApplyFiled(st, front, id);
      FiledLast(State(st.count, st.entries[id := st.entries[id] + front]), vs[|vs| - 1], id);
      assert st.entries[id] + front + [vs[|vs| - 1]] == st.entries[id] + vs;
    }
  }

  lemma FiledLast(st: State, v: Value, id: nat)
    requires id < |st.entries| && id < st.count && IsAttr(v.ty)
    ensures Apply(st, Filed(v, id)) == State(st.count, st.entries[id := st.entries[id] + [v]])
  {
    assert Padded(st.entries, id + 1) == st.entries;
  }

  function DeleteRec(id: nat): Rec { Rec(Tag(TYPE_DELETE, id, 0), []) }

  function CreateRec(id: nat): Rec { Rec(Tag(TYPE_CREATE, id, 0), []) }

  lemma AppliedDelete(st: State, id: nat, replace: bool)
    requires replace ==> id < |st.entries|
    ensures ApplyAll(st, if replace then [DeleteRec(id)] else []) ==
            if replace then State(st.count - 1, st.entries[..id] + st.entries[id + 1..]) else st
  {
    if replace { ApplyLast(st, [], DeleteRec(id)); assert [] + [DeleteRec(id)] == [DeleteRec(id)]; }
  }

  lemma AppliedCreate(st: State, id: nat)
    requires id <= |st.entries|
    ensures Apply(st, CreateRec(id)) == State(st.count + 1, st.entries[..id] + [[]] + st.entries[id..])
  {
  }

  lemma {:induction false} ApplyConcat(st: State, a: seq<Rec>, b: seq<Rec>)
    ensures ApplyAll(st, a + b) == ApplyAll(ApplyAll(st, a), b)
  {
    hide Apply;
    if b == [] {
      assert a + b == a;
    } else {
      assert (a + b)[..|a + b| - 1] == a + b[..|b| - 1];
      ApplyConcat(st, a, b[..|b| - 1]);
    }
  }

  // ---------------------------------------------------------------- logs as they are stored

  function AsItems(log: seq<Rec>): (r: seq<Item>)
    ensures |r| == |log|
    ensures forall i :: 0 <= i < |log| ==> r[i] == Tagged(log[i])
  {
    seq(|log|, i requires 0 <= i < |log| => Tagged(log[i]))
  }

  lemma {:induction false} ExpandAsItems(log: seq<Rec>)
    ensures Expand(AsItems(log)) == log
  {
    if log != [] {
      assert AsItems(log)[1..] == AsItems(log[1..]);
      ExpandAsItems(log[1..]);
    }
  }

  /** Stored logs hold no in-memory request tags, and every commit ends in a checksum tag. */
  predicate StoredLog(log: seq<Rec>)
  {
    WellFormed(log) && (forall i :: 0 <= i < |log| ==> Type1(log[i].tag.ty) != TYPE_FROM) &&
    log != [] && log[|log| - 1].tag.ty >= TYPE_SPLICE
  }

  lemma StoredItems(log: seq<Rec>)
    requires StoredLog(log)
    ensures WellFormedItems(AsItems(log)) && MovesStand(AsItems(log))
  {
  }

  // ---------------------------------------------------------------- what a commit leaves behind

  /** A commit left a log that denotes `st`, whether it appended or rewrote: entries of `st`, and no others. */
  ghost predicate Denotes(log: seq<Rec>, st: State)
  {
    WellFormed(log) && |st.entries| == st.count &&
    forall want: nat, id: nat :: IsAttr(want) ==>
      Get(Replay(log), KeyMask(want), want, id) == Get(st, KeyMask(want), want, id)
  }

  lemma {:induction false} ExpandConcat(a: seq<Item>, b: seq<Item>)
    ensures Expand(a + b) == Expand(a) + Expand(b)
  {
    if a == [] {
      assert a + b == b;
    } else {
      assert (a + b)[1..] == a[1..] + b;
      ExpandConcat(a[1..], b);
    }
  }

  /** Tags that mean nothing to a replay. */
  predicate Inert(recs: seq<Rec>)
  {
    forall k :: 0 <= k < |recs| ==> recs[k].tag.ty > TYPE_DELETE
  }

  lemma {:induction false} InertReplay(st: State, recs: seq<Rec>)
    requires Inert(recs)
    ensures ApplyAll(st, recs) == st
  {
    if recs != [] { InertReplay(st, recs[..|recs| - 1]); }
  }

  lemma WellFormedConcat(a: seq<Rec>, b: seq<Rec>)
    requires WellFormed(a) && (WellFormed(b) || Inert(b))
    ensures WellFormed(a + b)
  {
    forall k | 0 <= k < |a + b| && IsSplice((a + b)[k].tag.ty)
      ensures ((a + b)[k].tag.ty == TYPE_CREATE || (a + b)[k].tag.ty == TYPE_DELETE) && (a + b)[k].tag.size == 0
    {
      if k < |a| { assert (a + b)[k] == a[k]; } else { assert (a + b)[k] == b[k - |a|]; }
    }
  }

  /** An appended commit leaves a log that denotes the replayed state. */
  lemma AppendDenotes(log: seq<Rec>, items: seq<Item>, more: seq<Rec>)
    requires WellFormed(log) && WellFormedItems(items) && Inert(more)
    requires var st := ApplyAll(Replay(log), Expand(items)); |st.entries| == st.count
    ensures Denotes(log + Expand(items) + more, ApplyAll(Replay(log), Expand(items)))
  {
    hide Replay, Apply, Expand;
    ExpandWellFormed(items);
    WellFormedConcat(log, Expand(items));
    WellFormedConcat(log + Expand(items), more);
    ReplayConcat(log, Expand(items));
    ReplayConcat(log + Expand(items), more);
    InertReplay(ApplyAll(Replay(log), Expand(items)), more);
  }

  /** So does a rewritten one. */
  lemma RewriteDenotes(log: seq<Rec>, items: seq<Item>, n: nat, more: seq<Rec>)
    requires WellFormedItems(AsItems(log) + items) && MovesStand(AsItems(log) + items) && Inert(more)
    requires var st := ApplyAll(Replay(log), Expand(items)); |st.entries| == st.count == n
    ensures Denotes(Compacted(AsItems(log) + items, 0, n) + more, ApplyAll(Replay(log), Expand(items)))
  {
    hide Replay, Apply, Expand, Compacted, ApplyAll;
    var all := AsItems(log) + items;
    var st := ApplyAll(Replay(log), Expand(items));
    ExpandAsItems(log);
    ExpandConcat(AsItems(log), items);
    ReplayConcat(log, Expand(items));
    CompactedAttrs(all, 0, n);
    WellFormedConcat(Compacted(all, 0, n), more);
    ReplayConcat(Compacted(all, 0, n), more);
    InertReplay(Replay(Compacted(all, 0, n)), more);
    forall want: nat, id: nat | IsAttr(want)
      ensures Get(Replay(Compacted(all, 0, n) + more), KeyMask(want), want, id) == Get(st, KeyMask(want), want, id)
    {
      if id < n {
        CompactionPreservesEntries(all, 0, n, want, id);
      } else {
        CompactionStaysInRange(all, 0, n, KeyMask(want), want, id);
      }
    }
  }

  /** The items of a commit of a rename can follow a stored log: a copy is followed by splices only. */
  predicate CommitItems(items: seq<Item>)
  {
    && WellFormedItems(items)
    && (forall k, l :: 0 <= k < l < |items| && items[k].Move? ==> items[l].Tagged? && IsSplice(items[l].rec.tag.ty))
    && forall k :: 0 <= k < |items| && items[k].Tagged? ==> items[k].rec.tag.ty <= TYPE_DELETE
  }

  lemma FollowsLog(log: seq<Rec>, items: seq<Item>)
    requires CommitItems(items) && WellFormedItems(AsItems(log))
    ensures WellFormedItems(AsItems(log) + items) && MovesStand(AsItems(log) + items)
  {
    var all := AsItems(log) + items;
    forall k | 0 <= k < |all| ensures WellFormedItem(all[k]) {
      if k >= |log| { assert all[k] == items[k - |log|]; } else { assert all[k] == AsItems(log)[k]; }
    }
    forall k | 0 <= k < |all| && all[k].Move? ensures NothingDeleted(all[k + 1..]) {
      assert all[k] == items[k - |log|];
      var rest := all[k + 1..];
      forall l | 0 <= l < |rest| && rest[l].Tagged? ensures !IsDeleted(rest[l].rec.tag.size) {
        assert rest[l] == items[k - |log| + 1 + l];
        assert WellFormedItem(items[k - |log| + 1 + l]);
      }
    }
  }

  /** No in-memory request tags. */
  predicate NoRequests(recs: seq<Rec>) { forall k :: 0 <= k < |recs| ==> Type1(recs[k].tag.ty) != TYPE_FROM }

  lemma {:induction false} ExpandedPlain(items: seq<Item>)
    requires CommitItems(items)
    ensures NoRecords(Expand(items)) && NoRequests(Expand(items))
    decreases |items|
  {
    if items != [] {
      assert CommitItems(items[1..]) by {
        forall k, l | 0 <= k < l < |items| - 1 && items[1..][k].Move?
          ensures items[1..][l].Tagged? && IsSplice(items[1..][l].rec.tag.ty)
        {
          assert items[1..][k] == items[k + 1] && items[1..][l] == items[l + 1];
        }
      }
      ExpandedPlain(items[1..]);
      assert WellFormedItem(items[0]);
      match items[0] {
        case Tagged(r) =>
        case Move(to, vs) =>
          forall k | 0 <= k < |vs| ensures vs[k].ty != TYPE_MOVESTATE && Type1(vs[k].ty) != TYPE_FROM {
            assert IsAttr(vs[k].ty);
          }
      }
    }
  }

  // ---------------------------------------------------------------- directories between commits

  predicate NamedEntry(h: seq<Value>) { Newest(h, Coarse, TYPE_NAME).Some? }

  predicate AllNamed(es: seq<seq<Value>>) { forall k :: 0 <= k < |es| ==> NamedEntry(es[k]) }

  /** The log of a directory as every commit finds it and leaves it: stored, and each entry has a name. */
  predicate Directory(log: seq<Rec>)
  {
    StoredLog(log) && NamesLive(log) && |Replay(log).entries| == Replay(log).count && AllNamed(Replay(log).entries)
  }

  lemma DirectoryDenotes(log: seq<Rec>)
    requires Directory(log)
    ensures Denotes(log, Replay(log)) && WellFormed(log) && StoredLog(log)
    ensures |Replay(log).entries| == Replay(log).count && AllNamed(Replay(log).entries)
  {
    hide Replay, Newest, AllNamed;
  }

  /** What ends a commit keeps a log stored and means nothing to its entries. */
  lemma EndingStores(log: seq<Rec>, noted: bool, g: GState)
    requires WellFormed(log) && NoRequests(log) && NamesLive(log)
    ensures StoredLog(log + Ending(noted, g)) && NamesLive(log + Ending(noted, g)) && Inert(Ending(noted, g))
  {
    var more := Ending(noted, g);
    forall k | 0 <= k < |more| ensures more[k].tag.ty == TYPE_MOVESTATE || more[k].tag.ty == 0x500 {}
    WellFormedConcat(log, more);
  }

  /** An appended commit leaves a directory. */
  lemma AppendedDirectory(log: seq<Rec>, recs: seq<Rec>, noted: bool, g: GState)
    requires StoredLog(log) && NamesLive(log) && WellFormed(recs) && NoRequests(recs) && NamesLive(recs)
    requires var st := ApplyAll(Replay(log), recs); |st.entries| == st.count && AllNamed(st.entries)
    ensures Directory(log + recs + Ending(noted, g))
  {
    hide Replay, ApplyAll, AllNamed, Ending;
    WellFormedConcat(log, recs);
    EndingStores(log + recs, noted, g);
    ReplayConcat(log, recs);
    ReplayConcat(log + recs, Ending(noted, g));
    InertReplay(Replay(log + recs), Ending(noted, g));
  }

  /** So does a rewritten one: its count and its names are those of the old log with the commit applied. */
  lemma RewrittenDirectory(log: seq<Rec>, items: seq<Item>, n: nat, noted: bool, g: GState)
    requires WellFormedItems(AsItems(log) + items) && MovesStand(AsItems(log) + items)
    requires NamesLive(log) && NamesLive(Expand(items))
    requires var st := ApplyAll(Replay(log), Expand(items)); |st.entries| == st.count == n && AllNamed(st.entries)
    ensures Directory(Compacted(AsItems(log) + items, 0, n) + Ending(noted, g))
  {
    hide Replay, Expand, Compacted, ApplyAll, Ending, Newest;
    var all := AsItems(log) + items;
    var out := Compacted(all, 0, n);
    ExpandAsItems(log);
    ExpandConcat(AsItems(log), items);
    ReplayConcat(log, Expand(items));
    CompactedNamesLive(all, 0, n);
    CompactedAttrs(all, 0, n);
    AttrsPlain(out, n);
    EndingStores(out, noted, g);
    ReplayConcat(out, Ending(noted, g));
    InertReplay(Replay(out), Ending(noted, g));
    CompactionCount(all, 0, n);
    EntriesBelow(out, n);
    NameKey();
    if n > 0 { assert NamedEntry(Replay(Expand(all)).entries[n - 1]); }
    forall id: nat | id < n ensures id < |Replay(out).entries| && NamedEntry(Replay(out).entries[id]) {
      RewrittenName(all, n, id);
    }
    if n > 0 { RewrittenName(all, n, n - 1); }
  }

  lemma RewrittenName(all: seq<Item>, n: nat, id: nat)
    requires WellFormedItems(all) && MovesStand(all) && id < n
    requires var es := Replay(Expand(all)).entries; id < |es| && NamedEntry(es[id])
    ensures var es := Replay(Compacted(all, 0, n)).entries; id < |es| && NamedEntry(es[id])
  {
    hide Replay, Expand, Compacted, Newest;
    NameKey();
    CompactionPreservesEntries(all, 0, n, TYPE_NAME, id);
  }

  lemma AttrsPlain(log: seq<Rec>, n: nat)
    requires AttrsBelow(log, n)
    ensures NoRequests(log) && NoRecords(log)
  {
    forall k | 0 <= k < |log| ensures log[k].tag.ty != TYPE_MOVESTATE && Type1(log[k].tag.ty) != TYPE_FROM {
      assert IsAttr(log[k].tag.ty);
    }
  }

  // ---------------------------------------------------------------- the commit

  /** One commit, appended or rewritten as the block's state demands. */
  method CommitTo(fs: FileSystem, p: nat, items: seq<Item>, n: nat, rewrite: bool)
      returns (ghost noted: bool, ghost g: GState)
    requires fs.Conserved() && p < |fs.logs| && CommitItems(items) && NamesLive(Expand(items)) && Directory(fs.logs[p])
    requires var st := ApplyAll(Replay(fs.logs[p]), Expand(items));
             |st.entries| == st.count == n && AllNamed(st.entries)
    modifies fs
    ensures fs.Conserved() && fs.gstate == fs.gdisk == old(fs.gstate) && fs.gdelta == ZERO
    ensures |fs.logs| == |old(fs.logs)| && fs.logs == old(fs.logs)[p := fs.logs[p]]
    ensures fs.logs[p] == CommittedLog(old(fs.logs)[p], items, n, rewrite) + Ending(noted, g)
    ensures Denotes(fs.logs[p], ApplyAll(Replay(old(fs.logs)[p]), Expand(items))) && Directory(fs.logs[p])
  {
    hide Replay, Apply, Expand, Compacted, ApplyAll, Sum, Masked, Mix, WellFormed, Denotes, Directory, Ending, AllNamed,
         CommitItems;
    ghost var log := fs.logs[p];
    DirectoryParts(log);
    StoredItems(log);
    FollowsLog(log, items);
    if rewrite {
      var out := Traverse(AsItems(fs.logs[p]) + items, 0, n);
      RewrittenPlain(AsItems(log) + items, n);
      fs.RewriteCommit(p, out, false);
      noted, g :| fs.logs[p] == out + Ending(noted, g);
      EndingInert(noted, g);
      RewriteDenotes(log, items, n, Ending(noted, g));
      RewrittenDirectory(log, items, n, noted, g);
    } else {
      ExpandedPlain(items);
      ItemsWellFormed(items);
      fs.AppendCommit(p, Expand(items));
      noted, g :| fs.logs[p] == log + Expand(items) + Ending(noted, g);
      EndingInert(noted, g);
      AppendDenotes(log, items, Ending(noted, g));
      AppendedDirectory(log, Expand(items), noted, g);
    }
  }

  /** The tags of a directory after a commit, in front of what ends it. */
  function CommittedLog(log: seq<Rec>, items: seq<Item>, n: nat, rewrite: bool): seq<Rec>
  {
    if rewrite then Compacted(AsItems(log) + items, 0, n) else log + Expand(items)
  }

  lemma DirectoryParts(log: seq<Rec>)
    requires Directory(log)
    ensures StoredLog(log) && NamesLive(log) && WellFormed(log)
  {
  }

  lemma ItemsWellFormed(items: seq<Item>)
    requires CommitItems(items)
    ensures WellFormedItems(items) && WellFormed(Expand(items))
  {
    ExpandWellFormed(items);
  }

  lemma EndingInert(noted: bool, g: GState)
    ensures Inert(Ending(noted, g))
  {
  }

  lemma RewrittenPlain(items: seq<Item>, n: nat)
    requires WellFormedItems(items)
    ensures NoRecords(Compacted(items, 0, n))
  {
    CompactedAttrs(items, 0, n);
    AttrsPlain(Compacted(items, 0, n), n);
  }

  lemma NotedOnDisk(fs: FileSystem)
    requires fs.Conserved() && fs.gdelta == ZERO
    ensures Sum(fs.logs) == Masked(fs.gdisk)
  {
    MountRecovers(fs.logs, fs.gdisk);
  }

  lemma DeletedState(st: State, id: nat)
    requires id < |st.entries|
    ensures Apply(st, DeleteRec(id)) == State(st.count - 1, st.entries[..id] + st.entries[id + 1..])
  {
  }

  lemma NamedRemoved(es: seq<seq<Value>>, id: nat)
    requires id < |es| && AllNamed(es)
    ensures AllNamed(es[..id] + es[id + 1..])
  {
    hide NamedEntry;
    var rest := es[..id] + es[id + 1..];
    forall k | 0 <= k < |rest| ensures NamedEntry(rest[k]) {
      assert rest[k] == es[if k < id then k else k + 1];
    }
  }

  lemma DeleteItemFits(st: State, oldId: nat)
    requires |st.entries| == st.count && oldId < |st.entries| && AllNamed(st.entries)
    ensures CommitItems([Tagged(DeleteRec(oldId))]) && NamesLive([DeleteRec(oldId)])
    ensures Expand([Tagged(DeleteRec(oldId))]) == [DeleteRec(oldId)]
    ensures ApplyAll(st, [DeleteRec(oldId)]) == Apply(st, DeleteRec(oldId))
    ensures var st' := Apply(st, DeleteRec(oldId)); |st'.entries| == st'.count == st.count - 1 && AllNamed(st'.entries)
  {
    hide NamedEntry;
    assert [Tagged(DeleteRec(oldId))][1..] == [];
    ApplyLast(st, [], DeleteRec(oldId));
    assert [] + [DeleteRec(oldId)] == [DeleteRec(oldId)];
    DeletedState(st, oldId);
    NamedRemoved(st.entries, oldId);
  }

  lemma OneItem(r: Rec)
    ensures Expand([Tagged(r)]) == [r]
  {
    assert [Tagged(r)][1..] == [];
  }

  lemma LiveConcat(a: seq<Rec>, b: seq<Rec>)
    requires NamesLive(a) && forall k :: 0 <= k < |b| ==> Type1(b[k].tag.ty) != TYPE_NAME
    ensures NamesLive(a + b)
  {
  }
}
