/**
 Renaming across two metadata pairs (lfs_rawrename, lfs_fs_prepmove, lfs_fs_demove).

 The new entry and a note that the old one is pending removal go out in one commit; readers hide
 the old entry while the note is on disk; the commit that deletes it also clears the note.
 */
module Rename {
  import opened Common
  import opened Compaction
  import opened DirCommit
  import opened DirLog
  import opened GlobalState
  import opened TagWord

  // ---------------------------------------------------------------- the pending-move note

  const KEPT: bv32 := 0x8000_03ff

  /** The tag with a move of `id` noted; the orphan bits stay. */
  function SetMove(w: Word, id: bv10): Word { Word((w.bits & KEPT) | MkTag(0x4ff, id, 0).bits) }

  function ClearMove(w: Word): Word { Word(w.bits & KEPT) }

  datatype Pair = Pair(b0: Word, b1: Word)

  function PrepMove(g: GState, id: bv10, pair: Pair): GState
  {
    GState(SetMove(g.tag, id), pair.b0, pair.b1)
  }

  function PrepNoMove(g: GState): GState { GState(ClearMove(g.tag), Word(0), Word(0)) }

  predicate HasMove(g: GState) { TypeOf(g.tag) >= 0x100 }

  /** Pairs are taken as the same if they share a block. */
  predicate Overlap(a: Pair, b: Pair) { a.b0 == b.b0 || a.b1 == b.b1 || a.b0 == b.b1 || a.b1 == b.b0 }

  function MovePair(g: GState): Pair { Pair(g.pair0, g.pair1) }

  /** The id a reader of `pair` must not see. */
  function HiddenIn(g: GState, pair: Pair): Option<nat>
  {
    if HasMove(g) && Overlap(MovePair(g), pair) then Some(IdOf(g.tag)) else None
  }

  lemma SetMoveType(w: Word, id: bv10)
    ensures TypeField(SetMove(w, id)) == 0x4ff
  {
  }

  lemma SetMoveId(w: Word, id: bv10)
    ensures IdField(SetMove(w, id)) == id
  {
  }

  lemma ClearMoveType(w: Word)
    ensures TypeField(ClearMove(w)) == 0
  {
  }

  lemma DiskTagFields(w: Word)
    ensures TypeField(DiskTag(w)) == TypeField(w)
    ensures IdField(DiskTag(w)) == IdField(w)
  {
  }

  /** Noting a move, or that there is none, leaves the orphan flag and the orphan count alone. */
  lemma PrepareKeepsOrphans(w: Word, id: bv10)
    ensures SetMove(w, id).bits & 0x8000_03ff == w.bits & 0x8000_03ff
    ensures ClearMove(w).bits & 0x8000_03ff == w.bits & 0x8000_03ff
  {
    NoteField(id);
  }

  lemma NoteField(id: bv10)
    ensures MkTag(0x4ff, id, 0).bits & 0x8000_03ff == 0
  {
  }

  lemma NoType(a: Word)
    ensures a.bits & 0x7000_0000 == 0 <==> Shifted(Type(a), 8) == Field(0)
  {
  }

  lemma NumberZero()
    ensures Number(Field(0)) == 0
  {
  }

  /** As the code tests it: a type under 0x700 other than zero. */
  lemma HasMoveBits(g: GState)
    ensures HasMove(g) <==> g.tag.bits & 0x7000_0000 != 0
  {
    hide TypeOf, Number, Type, Shifted;
    NumberOfType(g.tag);
    BlockOf100(Type(g.tag));
    NoType(g.tag);
    NumberZero();
    NumberInjective(Shifted(Type(g.tag), 8), Field(0));
  }

  /** Pairs overlap when they share a block, in whatever order their blocks are named. */
  lemma OverlapShares(a: Pair, b: Pair)
    ensures Overlap(a, b) <==> {a.b0, a.b1} * {b.b0, b.b1} != {}
  {
    var both := {a.b0, a.b1} * {b.b0, b.b1};
    if Overlap(a, b) {
      assert (if a.b0 == b.b0 || a.b0 == b.b1 then a.b0 else a.b1) in both;
    } else {
      assert both == {};
    }
  }

  /** What is hidden does not depend on the in-memory bits. */
  lemma HiddenOnDisk(g: GState, pair: Pair)
    ensures HiddenIn(Masked(g), pair) == HiddenIn(g, pair)
  {
    hide TypeField, IdField, DiskTag;
    DiskTagFields(g.tag);
  }

  lemma PreparedHides(g: GState, id: bv10, pair: Pair, other: Pair)
    ensures HiddenIn(PrepMove(g, id, pair), other) == if Overlap(pair, other) then Some(id as nat) else None
    ensures HiddenIn(PrepNoMove(g), other) == None
    ensures HasMove(PrepMove(g, id, pair))
  {
    hide TypeField, IdField, SetMove, ClearMove;
    SetMoveType(g.tag, id);
    SetMoveId(g.tag, id);
    ClearMoveType(g.tag);
  }

  // ---------------------------------------------------------------- replaying a commit

  /** The commit on the target directory, as items: the copy is expanded by the traversal. */
  function RenameItems(newId: nat, replace: bool, name: Value, vals: seq<Value>): seq<Item>
  {
    (if replace then [Tagged(DeleteRec(newId))] else []) +
    [Tagged(CreateRec(newId)), Tagged(Filed(name, newId)), Move(newId, vals)]
  }

  function RenameRecs(newId: nat, replace: bool, name: Value, vals: seq<Value>): seq<Rec>
  {
    (if replace then [DeleteRec(newId)] else []) + [CreateRec(newId)] + [Filed(name, newId)] + FiledAll(vals, newId)
  }

  lemma RenameExpands(newId: nat, replace: bool, name: Value, vals: seq<Value>)
    ensures Expand(RenameItems(newId, replace, name, vals)) == RenameRecs(newId, replace, name, vals)
  {
    var tail := [Tagged(CreateRec(newId)), Tagged(Filed(name, newId)), Move(newId, vals)];
    assert tail[1..] == [Tagged(Filed(name, newId)), Move(newId, vals)];
    assert tail[1..][1..] == [Move(newId, vals)];
    assert tail[1..][1..][1..] == [];
    assert Expand(tail[1..][1..]) == FiledAll(vals, newId) + [];
    assert Expand(tail) == [CreateRec(newId)] + ([Filed(name, newId)] + FiledAll(vals, newId));
    if replace {
      assert RenameItems(newId, replace, name, vals)[1..] == tail;
    } else {
      assert RenameItems(newId, replace, name, vals) == tail;
    }
  }

  /** The entries a directory is left with when one is inserted at `id`. */
  function Inserted(es: seq<seq<Value>>, id: nat, replace: bool, h: seq<Value>): seq<seq<Value>>
    requires id <= |es| && (replace ==> id < |es|)
  {
    es[..id] + [h] + (if replace then es[id + 1..] else es[id..])
  }

  /** What the commit on the target directory does: the new entry appears whole, at `newId`. */
  lemma RenameReplays(st: State, newId: nat, replace: bool, name: Value, vals: seq<Value>)
    requires newId <= |st.entries| && (replace ==> newId < |st.entries|)
    requires newId <= st.count && (replace ==> newId < st.count)
    requires Type1(name.ty) == TYPE_NAME
    requires forall i :: 0 <= i < |vals| ==> IsAttr(vals[i].ty)
    ensures ApplyAll(st, RenameRecs(newId, replace, name, vals)) ==
            State(if replace then st.count else st.count + 1, Inserted(st.entries, newId, replace, [name] + vals))
  {
    hide Apply, ApplyAll, Inserted;
    var es0 := if replace then st.entries[..newId] + st.entries[newId + 1..] else st.entries;
    var n := if replace then st.count - 1 else st.count;
    var pre := if replace then [DeleteRec(newId)] else [];
    assert ApplyAll(st, pre) == State(n, es0) by { AppliedDelete(st, newId, replace); }
    ApplyLast(st, pre, CreateRec(newId));
    AppliedCreate(State(n, es0), newId);
    var es1 := es0[..newId] + [[]] + es0[newId..];
    ApplyLast(st, pre + [CreateRec(newId)], Filed(name, newId));
    FiledLast(State(n + 1, es1), name, newId);
    var es2 := es1[newId := es1[newId] + [name]];
    ApplyConcat(st, pre + [CreateRec(newId)] + [Filed(name, newId)], FiledAll(vals, newId));
    ApplyFiled(State(n + 1, es2), vals, newId);
    InsertedInSteps(st.entries, newId, replace, name, vals);
  }

  lemma InsertedInSteps(es: seq<seq<Value>>, id: nat, replace: bool, name: Value, vals: seq<Value>)
    requires id <= |es| && (replace ==> id < |es|)
    ensures var es0 := if replace then es[..id] + es[id + 1..] else es;
            var es1 := es0[..id] + [[]] + es0[id..];
            var es2 := es1[id := es1[id] + [name]];
            es2[id := es2[id] + vals] == Inserted(es, id, replace, [name] + vals)
  {
    var es0 := if replace then es[..id] + es[id + 1..] else es;
    var es1 := es0[..id] + [[]] + es0[id..];
    assert es1[id] + [name] == [name];
    assert es0[..id] == es[..id] && es0[id..] == if replace then es[id + 1..] else es[id..];
  }

  // ---------------------------------------------------------------- what a rename carries over

  predicate Carries(ty: nat) { Type1(ty) == TYPE_STRUCT || Type1(ty) == TYPE_USERATTR }

  function ValuesOf(recs: seq<Rec>): seq<Value>
  {
    if recs == [] then [] else ValuesOf(recs[..|recs| - 1]) + [ValueOf(recs[|recs| - 1])]
  }

  /** The structs and user attributes among some tags. */
  function Carried(recs: seq<Rec>): seq<Value>
  {
    if recs == [] then []
    else
      var front, r := Carried(recs[..|recs| - 1]), recs[|recs| - 1];
      if Carries(r.tag.ty) then front + [ValueOf(r)] else front
  }

  /** What the nested traversal of the source directory hands to a rename. */
  function MovedValues(log: seq<Rec>, id: nat): seq<Value>
  {
    Carried(Compacted(AsItems(log), id, id + 1))
  }

  lemma {:induction false} DeletedFiltered(t: Tag, rest: seq<Item>)
    requires IsDeleted(t.size) && !AllMoves(rest)
    ensures Filter(t, rest) == None
    decreases |rest|
  {
    if rest[0].Move? {
      assert !AllMoves(rest[1..]) by {
        var i :| 0 <= i < |rest| && !rest[i].Move?;
        assert !rest[1..][i - 1].Move?;
      }
      DeletedFiltered(t, rest[1..]);
    }
  }

  predicate AllLive(recs: seq<Rec>)
  {
    forall i :: 0 <= i < |recs| ==> !IsDeleted(recs[i].tag.size)
  }

  /** Nothing deleted survives the filter when a checksum tag follows. */
  lemma {:induction false} CompactedLive(items: seq<Item>, begin: nat, end: nat)
    requires WellFormedItems(items) && (forall i :: 0 <= i < |items| ==> items[i].Tagged?)
    requires items != [] && items[|items| - 1].rec.tag.ty >= TYPE_SPLICE
    ensures AllLive(Compacted(items, begin, end))
    decreases |items|
  {
    var rest, r := items[1..], items[0].rec;
    if rest == [] {
      assert Compacted(rest, begin, end) == [];
    } else {
      CompactedLive(rest, begin, end);
      if IsAttr(r.tag.ty) {
        assert !AllMoves(rest) by { assert !rest[0].Move?; }
        FilterKeeps(r.tag, rest);
        if IsDeleted(r.tag.size) { DeletedFiltered(r.tag, rest); }
      }
    }
  }

  lemma {:induction false} CarriedLive(recs: seq<Rec>)
    requires AllLive(recs)
    ensures forall i :: 0 <= i < |Carried(recs)| ==> Carries(Carried(recs)[i].ty) && !IsDeleted(Carried(recs)[i].size)
  {
    if recs != [] { CarriedLive(recs[..|recs| - 1]); }
  }

  lemma MovedValuesLive(log: seq<Rec>, id: nat)
    requires StoredLog(log)
    ensures var vs := MovedValues(log, id);
            forall i :: 0 <= i < |vs| ==> Carries(vs[i].ty) && !IsDeleted(vs[i].size)
  {
    hide Compacted, Carried;
    StoredItems(log);
    CompactedLive(AsItems(log), id, id + 1);
    CarriedLive(Compacted(AsItems(log), id, id + 1));
  }

  lemma {:induction false} NewestCarried(recs: seq<Rec>, m: Mask, want: nat)
    requires Carries(want) && (forall i :: 0 <= i < |recs| ==> IsAttr(recs[i].tag.ty))
    ensures Newest(Carried(recs), m, want) == Newest(ValuesOf(recs), m, want)
  {
    if recs != [] {
      var front, r := recs[..|recs| - 1], recs[|recs| - 1];
      NewestCarried(front, m, want);
      NewestAppended(ValuesOf(front), ValueOf(r), m, want);
      NewestAppended(Carried(front), ValueOf(r), m, want);
      if Matches(m, r.tag.ty, want) { FinerMatches(m, r.tag.ty, want); }
    }
  }

  lemma {:induction false} HistoryOfZero(recs: seq<Rec>)
    requires AttrsBelow(recs, 1)
    ensures Replay(recs).entries == if recs == [] then [] else [ValuesOf(recs)]
  {
    if recs != [] {
      var front, r := recs[..|recs| - 1], recs[|recs| - 1];
      HistoryOfZero(front);
      assert r.tag.id == 0;
      ApplyToZero(Replay(front), r);
    }
  }

  lemma ApplyToZero(st: State, r: Rec)
    requires IsAttr(r.tag.ty) && r.tag.id == 0 && |st.entries| <= 1
    ensures Apply(st, r).entries == [(if st.entries == [] then [] else st.entries[0]) + [ValueOf(r)]]
  {
  }

  /** A rename carries over exactly what the old entry answered, under every key but the name. */
  lemma MovedAnswers(log: seq<Rec>, id: nat, want: nat)
    requires StoredLog(log) && Carries(want)
    ensures Newest(MovedValues(log, id), KeyMask(want), want) == Get(Replay(log), KeyMask(want), want, id)
  {
    hide Compacted, Carried, Newest, ValuesOf, Replay;
    var recs := Compacted(AsItems(log), id, id + 1);
    StoredItems(log);
    ExpandAsItems(log);
    CompactionPreservesEntries(AsItems(log), id, id + 1, want, id);
    CompactedAttrs(AsItems(log), id, id + 1);
    NewestCarried(recs, KeyMask(want), want);
    HistoryOfZero(recs);
    NoValues(KeyMask(want), want);
  }

  lemma NoValues(m: Mask, want: nat)
    ensures ValuesOf([]) == [] && Newest([], m, want) == None
  {
  }

  // ---------------------------------------------------------------- atomicity

  /** What a mounted reader of pair `p` finds, given all logs on disk. */
  function ReadBack(logs: seq<seq<Rec>>, pairs: seq<Pair>, p: nat, want: nat, id: nat): Option<Value>
    requires p < |logs| == |pairs|
  {
    Lookup(logs[p], HiddenIn(Sum(logs), pairs[p]), KeyMask(want), want, id)
  }

  /** The three disk states of a rename of entry `oldId` of pair `i` to `newId` of pair `j`. */
  ghost predicate RenameRun(d0: seq<seq<Rec>>, d1: seq<seq<Rec>>, d2: seq<seq<Rec>>, pairs: seq<Pair>,
                            i: nat, oldId: bv10, j: nat, newId: nat, replace: bool, name: Value)
  {
    && i < |d0| == |d1| == |d2| == |pairs| && j < |d0| && i != j
    && (forall p :: 0 <= p < |d0| ==> WellFormed(d0[p]) && (Overlap(pairs[i], pairs[p]) <==> p == i))
    && StoredLog(d0[i]) && Denotes(d0[i], Replay(d0[i])) && oldId as nat < |Replay(d0[i]).entries|
    && Denotes(d0[j], Replay(d0[j])) && newId <= |Replay(d0[j]).entries|
    && (replace ==> newId < |Replay(d0[j]).entries|) && Type1(name.ty) == TYPE_NAME && !IsDeleted(name.size)
    // the commit on the target: the new entry, and the note
    && d1 == d0[j := d1[j]]
    && Denotes(d1[j], ApplyAll(Replay(d0[j]), RenameRecs(newId, replace, name, MovedValues(d0[i], oldId as nat))))
    && (exists g :: Sum(d1) == Masked(PrepMove(g, oldId, pairs[i])))
    // the commit on the source: the deletion, and the note cleared
    && d2 == d1[i := d2[i]]
    && Denotes(d2[i], Apply(Replay(d0[i]), DeleteRec(oldId as nat)))
    && (exists g :: Sum(d2) == Masked(PrepNoMove(g)))
    // no move was pending to begin with
    && !HasMove(Sum(d0))
  }

  lemma Hiding(d0: seq<seq<Rec>>, d1: seq<seq<Rec>>, d2: seq<seq<Rec>>, pairs: seq<Pair>,
               i: nat, oldId: bv10, j: nat, newId: nat, replace: bool, name: Value, p: nat)
    requires RenameRun(d0, d1, d2, pairs, i, oldId, j, newId, replace, name) && p < |pairs|
    ensures HiddenIn(Sum(d0), pairs[p]) == None && HiddenIn(Sum(d2), pairs[p]) == None
    ensures HiddenIn(Sum(d1), pairs[p]) == if p == i then Some(oldId as nat) else None
  {
    hide Sum, Masked, PrepMove, PrepNoMove, Denotes, StoredLog, Replay, Apply, ApplyAll, RenameRecs, MovedValues;
    var g :| Sum(d1) == Masked(PrepMove(g, oldId, pairs[i]));
    PreparedHides(g, oldId, pairs[i], pairs[p]);
    HiddenOnDisk(PrepMove(g, oldId, pairs[i]), pairs[p]);
    var h :| Sum(d2) == Masked(PrepNoMove(h));
    PreparedHides(h, oldId, pairs[i], pairs[p]);
    HiddenOnDisk(PrepNoMove(h), pairs[p]);
  }

  /** How a log answers a reader, in terms of the state it denotes. */
  lemma ReaderSees(log: seq<Rec>, hidden: Option<nat>, want: nat, id: nat)
    requires WellFormed(log) && IsAttr(want)
    ensures Lookup(log, hidden, KeyMask(want), want, id) == Get(Replay(log), KeyMask(want), want, StartId(hidden, id))
  {
    LookupRefinesReplay(log, KeyMask(want), want, StartId(hidden, id));
  }

  lemma DeletedEntry(st: State, oldId: nat, m: Mask, want: nat, id: nat)
    requires oldId < |st.entries|
    ensures Get(Apply(st, DeleteRec(oldId)), m, want, id) == Get(st, m, want, StartId(Some(oldId), id))
    ensures Apply(st, DeleteRec(oldId)).count == st.count - 1
  {
  }

  /**
   A power loss between the two commits changes nothing a reader can see: with the note on disk
   every pair already answers as it will once the old entry is deleted.
   */
  lemma RenameIsAtomic(d0: seq<seq<Rec>>, d1: seq<seq<Rec>>, d2: seq<seq<Rec>>, pairs: seq<Pair>,
                       i: nat, oldId: bv10, j: nat, newId: nat, replace: bool, name: Value, p: nat, want: nat, id: nat)
    requires RenameRun(d0, d1, d2, pairs, i, oldId, j, newId, replace, name) && p < |pairs| && IsAttr(want)
    ensures ReadBack(d1, pairs, p, want, id) == ReadBack(d2, pairs, p, want, id)
    ensures p != i && p != j ==> ReadBack(d1, pairs, p, want, id) == ReadBack(d0, pairs, p, want, id)
  {
    hide Sum, Masked, PrepMove, PrepNoMove, StoredLog, Replay, Apply, ApplyAll, RenameRecs, MovedValues, Lookup,
         HiddenIn, Get;
    Hiding(d0, d1, d2, pairs, i, oldId, j, newId, replace, name, p);
    if p == i {
      ReaderSees(d1[i], Some(oldId as nat), want, id);
      ReaderSees(d2[i], None, want, id);
      DeletedEntry(Replay(d0[i]), oldId as nat, KeyMask(want), want, id);
    }
  }

  /** The entry is gone from its old place and the entries behind it have moved up. */
  lemma RenameVacatesOld(d0: seq<seq<Rec>>, d1: seq<seq<Rec>>, d2: seq<seq<Rec>>, pairs: seq<Pair>,
                         i: nat, oldId: bv10, j: nat, newId: nat, replace: bool, name: Value, want: nat, id: nat)
    requires RenameRun(d0, d1, d2, pairs, i, oldId, j, newId, replace, name) && IsAttr(want)
    ensures ReadBack(d1, pairs, i, want, id) ==
            ReadBack(d0, pairs, i, want, if oldId as nat <= id then id + 1 else id)
  {
    hide Sum, Masked, PrepMove, PrepNoMove, StoredLog, Replay, Apply, ApplyAll, RenameRecs, MovedValues, HiddenIn,
         LookupBack;
    Hiding(d0, d1, d2, pairs, i, oldId, j, newId, replace, name, i);
  }

  lemma NamedHistory(name: Value, vals: seq<Value>, want: nat)
    requires Type1(name.ty) == TYPE_NAME && !IsDeleted(name.size) && IsAttr(want)
    requires forall k :: 0 <= k < |vals| ==> Carries(vals[k].ty)
    ensures Newest([name] + vals, KeyMask(want), want) ==
            if Type1(want) == TYPE_NAME then Some(name) else Newest(vals, KeyMask(want), want)
  {
    hide Matches, KeyMask, Type1, IsAttr;
    if vals == [] {
      assert [name] + vals == [name] && [name][..0] == [];
      NameMatches(name.ty, want);
    } else {
      var front, v := vals[..|vals| - 1], vals[|vals| - 1];
      assert [name] + vals == ([name] + front) + [v] && vals == front + [v];
      NamedHistory(name, front, want);
      NewestAppended([name] + front, v, KeyMask(want), want);
      NewestAppended(front, v, KeyMask(want), want);
      CarriedMatches(v.ty, want);
    }
  }

  lemma NameMatches(ty: nat, want: nat)
    requires Type1(ty) == TYPE_NAME && IsAttr(want)
    ensures Matches(KeyMask(want), ty, want) <==> Type1(want) == TYPE_NAME
  {
    if Matches(KeyMask(want), ty, want) { FinerMatches(KeyMask(want), ty, want); }
  }

  lemma CarriedMatches(ty: nat, want: nat)
    requires Carries(ty) && IsAttr(want)
    ensures Type1(want) == TYPE_NAME ==> !Matches(KeyMask(want), ty, want)
  {
    if Matches(KeyMask(want), ty, want) { FinerMatches(KeyMask(want), ty, want); }
  }

  /**
   The entry is at its new place as soon as the first commit is on disk: it has the new name, and
   under every other key it answers what the old entry answered.
   */
  lemma RenameFillsNew(d0: seq<seq<Rec>>, d1: seq<seq<Rec>>, d2: seq<seq<Rec>>, pairs: seq<Pair>,
                       i: nat, oldId: bv10, j: nat, newId: nat, replace: bool, name: Value, want: nat)
    requires RenameRun(d0, d1, d2, pairs, i, oldId, j, newId, replace, name) && IsAttr(want)
    ensures ReadBack(d1, pairs, j, want, newId) ==
            if Type1(want) == TYPE_NAME then Some(name) else ReadBack(d0, pairs, i, want, oldId as nat)
  {
    hide Sum, Masked, PrepMove, PrepNoMove, HiddenIn, Lookup, Replay, Newest;
    var vals := MovedValues(d0[i], oldId as nat);
    TargetState(d0, d1, d2, pairs, i, oldId, j, newId, replace, name);
    Hiding(d0, d1, d2, pairs, i, oldId, j, newId, replace, name, j);
    Hiding(d0, d1, d2, pairs, i, oldId, j, newId, replace, name, i);
    ReaderSees(d1[j], None, want, newId);
    ReaderSees(d0[i], None, want, oldId as nat);
    MovedValuesLive(d0[i], oldId as nat);
    NamedHistory(name, vals, want);
    if Type1(want) != TYPE_NAME { MovedAnswers(d0[i], oldId as nat, want); }
  }

  lemma TargetState(d0: seq<seq<Rec>>, d1: seq<seq<Rec>>, d2: seq<seq<Rec>>, pairs: seq<Pair>,
                    i: nat, oldId: bv10, j: nat, newId: nat, replace: bool, name: Value)
    requires RenameRun(d0, d1, d2, pairs, i, oldId, j, newId, replace, name)
    ensures var st := Replay(d0[j]);
            Denotes(d1[j], State(if replace then st.count else st.count + 1,
              Inserted(st.entries, newId, replace, [name] + MovedValues(d0[i], oldId as nat))))
  {
    hide Sum, Masked, PrepMove, PrepNoMove, HiddenIn, Replay, Inserted, ApplyAll, RenameRecs, MovedValues;
    MovedValuesLive(d0[i], oldId as nat);
    RenameReplays(Replay(d0[j]), newId, replace, name, MovedValues(d0[i], oldId as nat));
  }

  /** The other entries of the target directory answer as before, under their shifted ids. */
  lemma RenameKeepsOthers(d0: seq<seq<Rec>>, d1: seq<seq<Rec>>, d2: seq<seq<Rec>>, pairs: seq<Pair>,
                          i: nat, oldId: bv10, j: nat, newId: nat, replace: bool, name: Value, want: nat, id: nat)
    requires RenameRun(d0, d1, d2, pairs, i, oldId, j, newId, replace, name) && IsAttr(want)
    requires !(replace && id == newId)
    ensures ReadBack(d1, pairs, j, want, if id < newId || replace then id else id + 1) ==
            ReadBack(d0, pairs, j, want, id)
  {
    hide Sum, Masked, PrepMove, PrepNoMove, HiddenIn, Lookup, Replay, Newest, MovedValues;
    TargetState(d0, d1, d2, pairs, i, oldId, j, newId, replace, name);
    Hiding(d0, d1, d2, pairs, i, oldId, j, newId, replace, name, j);
    ReaderSees(d1[j], None, want, if id < newId || replace then id else id + 1);
    ReaderSees(d0[j], None, want, id);
  }

  // ---------------------------------------------------------------- the operation

  /** A mounted file system at rest: directories throughout, told apart by their blocks, and no move pending. */
  ghost predicate Mounted(logs: seq<seq<Rec>>, pairs: seq<Pair>)
  {
    && |logs| == |pairs| && (forall p :: 0 <= p < |logs| ==> Directory(logs[p]))
    && (forall p, q :: 0 <= p < |logs| && 0 <= q < |logs| ==> (Overlap(pairs[p], pairs[q]) <==> p == q))
    && !HasMove(Sum(logs))
  }

  /** The ids of a rename exist, and the new name is a name. */
  predicate Renameable(logs: seq<seq<Rec>>, i: nat, oldId: nat, j: nat, newId: nat, replace: bool, name: Value)
  {
    && i < |logs| && j < |logs| && oldId < |Replay(logs[i]).entries| && newId <= |Replay(logs[j]).entries|
    && (replace ==> newId < |Replay(logs[j]).entries|) && Type1(name.ty) == TYPE_NAME && !IsDeleted(name.size)
  }

  lemma RenameItemsFit(st: State, newId: nat, replace: bool, name: Value, vals: seq<Value>)
    requires |st.entries| == st.count && newId <= |st.entries| && (replace ==> newId < |st.entries|)
             && AllNamed(st.entries)
    requires Type1(name.ty) == TYPE_NAME && !IsDeleted(name.size)
    requires forall k :: 0 <= k < |vals| ==> Carries(vals[k].ty) && !IsDeleted(vals[k].size)
    ensures CommitItems(RenameItems(newId, replace, name, vals)) && NamesLive(RenameRecs(newId, replace, name, vals))
    ensures Expand(RenameItems(newId, replace, name, vals)) == RenameRecs(newId, replace, name, vals)
    ensures var st' := ApplyAll(st, RenameRecs(newId, replace, name, vals));
            |st'.entries| == st'.count == (if replace then st.count else st.count + 1) && AllNamed(st'.entries)
  {
    hide ApplyAll, RenameRecs, Expand, AllNamed, NamedEntry;
    RenameExpands(newId, replace, name, vals);
    RenameReplays(st, newId, replace, name, vals);
    RenameNamesLive(newId, replace, name, vals);
    NewEntryNamed(name, vals);
    NamedInserted(st.entries, newId, replace, [name] + vals);
    RenameItemsShape(newId, replace, name, vals);
  }

  lemma RenameItemsShape(newId: nat, replace: bool, name: Value, vals: seq<Value>)
    requires Type1(name.ty) == TYPE_NAME
    requires forall k :: 0 <= k < |vals| ==> Carries(vals[k].ty) && !IsDeleted(vals[k].size)
    ensures CommitItems(RenameItems(newId, replace, name, vals))
  {
    assert WellFormedItem(Move(newId, vals));
    assert WellFormedItem(Tagged(Filed(name, newId)));
  }

  lemma RenameNamesLive(newId: nat, replace: bool, name: Value, vals: seq<Value>)
    requires !IsDeleted(name.size) && forall k :: 0 <= k < |vals| ==> !IsDeleted(vals[k].size)
    ensures NamesLive(RenameRecs(newId, replace, name, vals))
  {
    var recs := RenameRecs(newId, replace, name, vals);
    var n := |recs| - |vals|;
    forall k | 0 <= k < |recs| ensures !IsDeleted(recs[k].tag.size) {
      if k >= n { assert recs[k] == FiledAll(vals, newId)[k - n] == Filed(vals[k - n], newId); }
    }
  }

  lemma NewEntryNamed(name: Value, vals: seq<Value>)
    requires Type1(name.ty) == TYPE_NAME && !IsDeleted(name.size) && forall k :: 0 <= k < |vals| ==> Carries(vals[k].ty)
    ensures NamedEntry([name] + vals)
  {
    NameKey();
    NamedHistory(name, vals, TYPE_NAME);
  }

  lemma NamedInserted(es: seq<seq<Value>>, id: nat, replace: bool, h: seq<Value>)
    requires id <= |es| && (replace ==> id < |es|) && AllNamed(es) && NamedEntry(h)
    ensures AllNamed(Inserted(es, id, replace, h))
  {
    hide NamedEntry;
    var all := Inserted(es, id, replace, h);
    forall k | 0 <= k < |all| ensures NamedEntry(all[k]) {
      if k < id { assert all[k] == es[k]; }
      else if k > id { assert all[k] == es[if replace then k else k - 1]; }
    }
  }

  /**
   Renames entry `oldId` of pair `i` to `newId` of pair `j`. `mid` is the disk between the two
   commits. Afterwards the file system is at rest again.
   */
  method RenameAcross(fs: FileSystem, pairs: seq<Pair>, i: nat, oldId: bv10, j: nat, newId: nat,
                      replace: bool, name: Value, rewriteNew: bool, rewriteOld: bool)
      returns (ghost mid: seq<seq<Rec>>, ghost noted1: bool, ghost g1: GState, ghost noted2: bool, ghost g2: GState)
    requires fs.Conserved() && Mounted(fs.logs, pairs) && Renameable(fs.logs, i, oldId as nat, j, newId, replace, name)
             && i != j
    modifies fs
    ensures RenameRun(old(fs.logs), mid, fs.logs, pairs, i, oldId, j, newId, replace, name)
    ensures mid[j] == FilledLog(old(fs.logs), i, oldId as nat, j, newId, replace, name, rewriteNew) + Ending(noted1, g1)
    ensures fs.logs[i] == VacatedLog(old(fs.logs)[i], oldId as nat, rewriteOld) + Ending(noted2, g2)
    ensures fs.Conserved() && Mounted(fs.logs, pairs) && fs.gstate == fs.gdisk && !HasMove(fs.gstate)
  {
    hide Replay, Apply, ApplyAll, Sum, Masked, Denotes, PrepMove, PrepNoMove, MovedValues, RenameRecs, StoredLog,
         HasMove, Directory, AllNamed, FilledLog, VacatedLog, Ending;
    AllDirectories(fs.logs);
    noted1, g1 := FillNew(fs, pairs[i], i, oldId, j, newId, replace, name, rewriteNew);
    mid := fs.logs;
    noted2, g2 := DeleteOld(fs, i, oldId as nat, rewriteOld);
  }

  /** The tags of the target directory after the first commit. */
  function FilledLog(d0: seq<seq<Rec>>, i: nat, oldId: nat, j: nat, newId: nat, replace: bool, name: Value,
                     rewrite: bool): seq<Rec>
    requires i < |d0| && j < |d0|
  {
    var n := Replay(d0[j]).count;
    CommittedLog(d0[j], RenameItems(newId, replace, name, MovedValues(d0[i], oldId)), NewCount(n, replace), rewrite)
  }

  function NewCount(n: int, replace: bool): nat
  {
    if replace then (if n >= 0 then n else 0) else if n >= -1 then n + 1 else 0
  }

  /** The tags of the source directory after the second. */
  function VacatedLog(log: seq<Rec>, oldId: nat, rewrite: bool): seq<Rec>
  {
    CommittedLog(log, [Tagged(DeleteRec(oldId))], OneLess(Replay(log).count), rewrite)
  }

  function OneLess(n: int): nat { if n > 0 then n - 1 else 0 }

  /** The first commit: the new entry, and the note that the old one is pending removal. */
  method FillNew(fs: FileSystem, pair: Pair, i: nat, oldId: bv10, j: nat, newId: nat, replace: bool, name: Value,
                 rewrite: bool)
      returns (ghost noted: bool, ghost g: GState)
    requires fs.Conserved() && Renameable(fs.logs, i, oldId as nat, j, newId, replace, name)
    requires Directory(fs.logs[i]) && Directory(fs.logs[j])
    modifies fs
    ensures fs.Conserved() && fs.gdelta == ZERO && |fs.logs| == |old(fs.logs)|
            && fs.logs == old(fs.logs)[j := fs.logs[j]]
    ensures fs.logs[j] == FilledLog(old(fs.logs), i, oldId as nat, j, newId, replace, name, rewrite) + Ending(noted, g)
    ensures Directory(fs.logs[j]) && exists g :: Sum(fs.logs) == Masked(PrepMove(g, oldId, pair))
    ensures Denotes(fs.logs[j], ApplyAll(Replay(old(fs.logs)[j]),
                                        RenameRecs(newId, replace, name, MovedValues(old(fs.logs)[i], oldId as nat))))
  {
    RenameableParts(fs.logs, i, oldId as nat, j, newId, replace, name);
    hide *;
    ghost var d0 := fs.logs;
    var vals := MovedValues(fs.logs[i], oldId as nat);
    DirectoryDenotes(fs.logs[i]);
    DirectoryDenotes(fs.logs[j]);
    MovedValuesLive(fs.logs[i], oldId as nat);
    RenameItemsFit(Replay(fs.logs[j]), newId, replace, name, vals);
    var n := Replay(fs.logs[j]).count;
    NewCountIs(n, replace);
    fs.gstate := PrepMove(fs.gstate, oldId, pair);
    noted, g := CommitTo(fs, j, RenameItems(newId, replace, name, vals), NewCount(n, replace), rewrite);
    NotedOnDisk(fs);
    FilledIs(d0, i, oldId as nat, j, newId, replace, name, rewrite);
  }

  lemma RenameableParts(logs: seq<seq<Rec>>, i: nat, oldId: nat, j: nat, newId: nat, replace: bool, name: Value)
    requires Renameable(logs, i, oldId, j, newId, replace, name)
    ensures i < |logs| && j < |logs| && oldId < |Replay(logs[i]).entries| && newId <= |Replay(logs[j]).entries|
    ensures (replace ==> newId < |Replay(logs[j]).entries|) && Type1(name.ty) == TYPE_NAME && !IsDeleted(name.size)
  {
  }

  lemma NewCountIs(n: nat, replace: bool)
    ensures NewCount(n, replace) == if replace then n else n + 1
  {
  }

  lemma FilledIs(d0: seq<seq<Rec>>, i: nat, oldId: nat, j: nat, newId: nat, replace: bool, name: Value, rewrite: bool)
    requires i < |d0| && j < |d0|
    ensures FilledLog(d0, i, oldId, j, newId, replace, name, rewrite) ==
            CommittedLog(d0[j], RenameItems(newId, replace, name, MovedValues(d0[i], oldId)),
                         NewCount(Replay(d0[j]).count, replace), rewrite)
  {
  }

  /** The second commit, also the one recovery makes: the old entry is deleted and the note cleared. */
  method DeleteOld(fs: FileSystem, i: nat, oldId: nat, rewrite: bool) returns (ghost noted: bool, ghost g: GState)
    requires fs.Conserved() && i < |fs.logs| && Directory(fs.logs[i]) && oldId < |Replay(fs.logs[i]).entries|
    modifies fs
    ensures fs.Conserved() && fs.gdelta == ZERO && |fs.logs| == |old(fs.logs)|
            && fs.logs == old(fs.logs)[i := fs.logs[i]]
    ensures fs.gstate == fs.gdisk && !HasMove(fs.gstate)
    ensures Directory(fs.logs[i]) && !HasMove(Sum(fs.logs)) && exists g :: Sum(fs.logs) == Masked(PrepNoMove(g))
    ensures Denotes(fs.logs[i], Apply(Replay(old(fs.logs)[i]), DeleteRec(oldId)))
    ensures fs.logs[i] == VacatedLog(old(fs.logs)[i], oldId, rewrite) + Ending(noted, g)
  {
    hide Replay, Apply, Expand, ApplyAll, Sum, Masked, Mix, Denotes, PrepNoMove, StoredLog, Directory, Ending, AllNamed,
         NamesLive, CommitItems, HasMove, DeleteRec;
    DirectoryDenotes(fs.logs[i]);
    DeleteItemFits(Replay(fs.logs[i]), oldId);
    var n := Replay(fs.logs[i]).count;
    fs.gstate := PrepNoMove(fs.gstate);
    noted, g := CommitTo(fs, i, [Tagged(DeleteRec(oldId))], n - 1, rewrite);
    NotedOnDisk(fs);
    NoMoveLeft(fs.gdisk);
  }

  lemma AllDirectories(logs: seq<seq<Rec>>)
    requires forall p :: 0 <= p < |logs| ==> Directory(logs[p])
    ensures forall p :: 0 <= p < |logs| ==>
              && Denotes(logs[p], Replay(logs[p])) && WellFormed(logs[p]) && StoredLog(logs[p])
              && |Replay(logs[p]).entries| == Replay(logs[p]).count && AllNamed(Replay(logs[p]).entries)
  {
    hide Directory, Denotes, Replay, WellFormed, StoredLog, AllNamed;
    forall p | 0 <= p < |logs|
      ensures Denotes(logs[p], Replay(logs[p])) && WellFormed(logs[p]) && StoredLog(logs[p])
      ensures |Replay(logs[p]).entries| == Replay(logs[p]).count && AllNamed(Replay(logs[p]).entries)
    {
      DirectoryDenotes(logs[p]);
    }
  }

  lemma NoMoveLeft(g: GState)
    ensures HasMove(Masked(g)) == HasMove(g)
    ensures forall h :: g == PrepNoMove(h) ==> !HasMove(Masked(g))
  {
    hide TypeField, IdField, ClearMove, DiskTag;
    DiskTagFields(g.tag);
    forall h | g == PrepNoMove(h) ensures !HasMove(Masked(g)) { ClearMoveType(h.tag); }
  }

  /** Directories throughout, told apart by their blocks. */
  predicate Distinct(logs: seq<seq<Rec>>, pairs: seq<Pair>)
  {
    && |logs| == |pairs| && (forall p :: 0 <= p < |logs| ==> Directory(logs[p]))
    && (forall p, q :: 0 <= p < |logs| && 0 <= q < |logs| ==> (Overlap(pairs[p], pairs[q]) <==> p == q))
  }

  /**
   Recovery (lfs_fs_demove) after a mount that finds the pair of a pending move to be `i`: the old
   entry is deleted and the note cleared. Without a pending move nothing is done.
   */
  method Demove(fs: FileSystem, pairs: seq<Pair>, i: nat, rewrite: bool) returns (ghost noted: bool, ghost g: GState)
    requires fs.Conserved() && fs.gstate == fs.gdisk && fs.gdelta == ZERO && Distinct(fs.logs, pairs) && i < |pairs|
    requires HasMove(fs.gdisk) ==>
               HiddenIn(fs.gdisk, pairs[i]).Some? && HiddenIn(fs.gdisk, pairs[i]).value < |Replay(fs.logs[i]).entries|
    modifies fs
    ensures fs.Conserved() && Mounted(fs.logs, pairs)
    ensures !old(HasMove(fs.gdisk)) ==> fs.logs == old(fs.logs)
    ensures old(HasMove(fs.gdisk)) ==>
              var id := old(HiddenIn(fs.gdisk, pairs[i])).value;
              && |fs.logs| == |old(fs.logs)| && fs.logs == old(fs.logs)[i := fs.logs[i]]
              && Denotes(fs.logs[i], Apply(Replay(old(fs.logs)[i]), DeleteRec(id)))
              && fs.logs[i] == VacatedLog(old(fs.logs)[i], id, rewrite) + Ending(noted, g)
              && exists h :: Sum(fs.logs) == Masked(PrepNoMove(h))
  {
    hide Replay, Apply, ApplyAll, Sum, Masked, Denotes, PrepNoMove, HiddenIn, DeleteRec, HasMove, Directory, VacatedLog,
         Ending;
    noted, g := false, ZERO;
    if HasMove(fs.gdisk) {
      HiddenId(fs.gdisk, pairs[i]);
      noted, g := DeleteOld(fs, i, IdOf(fs.gdisk.tag), rewrite);
    } else {
      NotedOnDisk(fs);
      NoMoveLeft(fs.gdisk);
    }
  }

  /** Where the logs found were those between the commits of a rename, it has completed the rename. */
  lemma RecoveredRun(d0: seq<seq<Rec>>, d1: seq<seq<Rec>>, d2: seq<seq<Rec>>, after: seq<seq<Rec>>, pairs: seq<Pair>,
                     i: nat, oldId: bv10, j: nat, newId: nat, replace: bool, name: Value)
    requires RenameRun(d0, d1, d2, pairs, i, oldId, j, newId, replace, name)
    requires |after| == |d1| && i < |d1| && after == d1[i := after[i]]
    requires Denotes(after[i], Apply(Replay(d1[i]), DeleteRec(oldId as nat)))
             && exists g :: Sum(after) == Masked(PrepNoMove(g))
    ensures RenameRun(d0, d1, after, pairs, i, oldId, j, newId, replace, name)
  {
    hide Replay, Apply, ApplyAll, Sum, Masked, Denotes, PrepMove, PrepNoMove, MovedValues, RenameRecs, StoredLog,
         HasMove;
  }

  lemma HiddenId(g: GState, pair: Pair)
    requires HiddenIn(g, pair).Some?
    ensures HiddenIn(g, pair) == Some(IdOf(g.tag))
  {
  }

  // ---------------------------------------------------------------- renaming within one pair

  /** Where the old entry is once the new one has been put in front of it. */
  function ShiftedOld(oldId: nat, newId: nat, replace: bool): nat
  {
    if !replace && newId <= oldId then oldId + 1 else oldId
  }

  /** Entries `es` with entry `oldId` taken out and `h` put in as entry `newId` of `es`, or in its place. */
  function MovedWithin(es: seq<seq<Value>>, oldId: nat, newId: nat, replace: bool, h: seq<Value>): seq<seq<Value>>
    requires oldId < |es| && newId <= |es| && (replace ==> newId < |es|) && !(replace && newId == oldId)
  {
    var behind := if replace then newId + 1 else newId;
    if oldId < newId then es[..oldId] + es[oldId + 1..newId] + [h] + es[behind..]
    else es[..newId] + [h] + es[behind..oldId] + es[oldId + 1..]
  }

  /**
   Within one pair a single commit does both: after the new entry is in, the shifted id names the
   old entry, and deleting it leaves the new one in place and every other entry in order.
   */
  lemma SamePairReplays(st: State, oldId: nat, newId: nat, replace: bool, name: Value, vals: seq<Value>)
    requires oldId < |st.entries| == st.count && newId <= |st.entries| && (replace ==> newId < |st.entries|)
    requires !(replace && newId == oldId) && Type1(name.ty) == TYPE_NAME
    requires forall k :: 0 <= k < |vals| ==> IsAttr(vals[k].ty)
    ensures var recs, o := RenameRecs(newId, replace, name, vals), ShiftedOld(oldId, newId, replace);
            var es := Inserted(st.entries, newId, replace, [name] + vals);
            && o < |es| && es[o] == st.entries[oldId]
            && ApplyAll(st, recs + [DeleteRec(o)]) ==
               State(if replace then st.count - 1 else st.count,
                     MovedWithin(st.entries, oldId, newId, replace, [name] + vals))
  {
    hide ApplyAll, RenameRecs, Apply, Inserted, Type1, IsAttr, MovedWithin;
    RenameReplays(st, newId, replace, name, vals);
    var o := ShiftedOld(oldId, newId, replace);
    ApplyLast(st, RenameRecs(newId, replace, name, vals), DeleteRec(o));
    var es := Inserted(st.entries, newId, replace, [name] + vals);
    InsertedThenDeleted(st.entries, oldId, newId, replace, [name] + vals);
    DeletedState(State(if replace then st.count else st.count + 1, es), o);
  }

  /** The items of such a rename can be committed and leave every entry named. */
  lemma SamePairFits(st: State, oldId: nat, newId: nat, replace: bool, name: Value, vals: seq<Value>)
    requires oldId < |st.entries| == st.count && newId <= |st.entries| && (replace ==> newId < |st.entries|)
    requires !(replace && newId == oldId) && Type1(name.ty) == TYPE_NAME && !IsDeleted(name.size)
             && AllNamed(st.entries)
    requires forall k :: 0 <= k < |vals| ==> Carries(vals[k].ty) && !IsDeleted(vals[k].size)
    ensures var o := ShiftedOld(oldId, newId, replace);
            var items := RenameItems(newId, replace, name, vals) + [Tagged(DeleteRec(o))];
            var st' := State(if replace then st.count - 1 else st.count,
                             MovedWithin(st.entries, oldId, newId, replace, [name] + vals));
            && CommitItems(items) && NamesLive(Expand(items)) && ApplyAll(st, Expand(items)) == st'
            && |st'.entries| == st'.count && AllNamed(st'.entries)
  {
    hide ApplyAll, RenameRecs, Expand, AllNamed, Inserted, MovedWithin, RenameItems, NamesLive, CommitItems;
    var o := ShiftedOld(oldId, newId, replace);
    var items, del := RenameItems(newId, replace, name, vals), [Tagged(DeleteRec(o))];
    RenameItemsFit(st, newId, replace, name, vals);
    SamePairReplays(st, oldId, newId, replace, name, vals);
    ExpandConcat(items, del);
    assert Expand(del) == [DeleteRec(o)] by { OneItem(DeleteRec(o)); }
    LiveConcat(RenameRecs(newId, replace, name, vals), [DeleteRec(o)]);
    WithDelete(newId, replace, name, vals, o);
    NewEntryNamed(name, vals);
    NamedInserted(st.entries, newId, replace, [name] + vals);
    InsertedThenDeleted(st.entries, oldId, newId, replace, [name] + vals);
    NamedRemoved(Inserted(st.entries, newId, replace, [name] + vals), o);
  }

  lemma WithDelete(newId: nat, replace: bool, name: Value, vals: seq<Value>, o: nat)
    requires CommitItems(RenameItems(newId, replace, name, vals))
    ensures CommitItems(RenameItems(newId, replace, name, vals) + [Tagged(DeleteRec(o))])
  {
    var items := RenameItems(newId, replace, name, vals);
    var all := items + [Tagged(DeleteRec(o))];
    forall k | 0 <= k < |all| ensures WellFormedItem(all[k]) { if k < |items| { assert all[k] == items[k]; } }
  }

  /** A rename within pair `p`: one commit. */
  method RenameWithin(fs: FileSystem, pairs: seq<Pair>, p: nat, oldId: nat, newId: nat, replace: bool, name: Value,
                      rewrite: bool)
    requires fs.Conserved() && Mounted(fs.logs, pairs) && !HasMove(fs.gstate)
    requires Renameable(fs.logs, p, oldId, p, newId, replace, name) && !(replace && newId == oldId)
    modifies fs
    ensures fs.Conserved() && Mounted(fs.logs, pairs) && fs.gstate == fs.gdisk && !HasMove(fs.gstate)
    ensures fs.logs == old(fs.logs)[p := fs.logs[p]]
    ensures WithinRun(old(fs.logs), fs.logs, pairs, p, oldId, newId, replace, name)
  {
    hide Replay, Expand, ApplyAll, Sum, Masked, Mix, Denotes, MovedValues, RenameItems, StoredLog, Directory, Ending,
         AllNamed, NamesLive, CommitItems, HasMove, MovedWithin;
    var vals := MovedValues(fs.logs[p], oldId);
    DirectoryDenotes(fs.logs[p]);
    MovedValuesLive(fs.logs[p], oldId);
    SamePairFits(Replay(fs.logs[p]), oldId, newId, replace, name, vals);
    var n := Replay(fs.logs[p]).count;
    ghost var noted, g;
    noted, g := CommitTo(fs, p,
                         RenameItems(newId, replace, name, vals)
                         + [Tagged(DeleteRec(ShiftedOld(oldId, newId, replace)))],
                         if replace then n - 1 else n, rewrite);
    NotedOnDisk(fs);
    NoMoveLeft(fs.gdisk);
  }

  /** The two disk states of a rename within pair `p`. */
  ghost predicate WithinRun(d0: seq<seq<Rec>>, d1: seq<seq<Rec>>, pairs: seq<Pair>,
                            p: nat, oldId: nat, newId: nat, replace: bool, name: Value)
  {
    && Mounted(d0, pairs) && Mounted(d1, pairs) && p < |d0| == |d1|
    && Renameable(d0, p, oldId, p, newId, replace, name) && !(replace && newId == oldId)
    && var st := Replay(d0[p]);
       Denotes(d1[p], State(if replace then st.count - 1 else st.count,
                            MovedWithin(st.entries, oldId, newId, replace, [name] + MovedValues(d0[p], oldId))))
  }

  /** Where entry `id` is afterwards: past what is inserted, then past what is taken out. */
  function MovedId(id: nat, oldId: nat, newId: nat, replace: bool): nat
  {
    var shifted := if !replace && newId <= id then id + 1 else id;
    if shifted > ShiftedOld(oldId, newId, replace) then shifted - 1 else shifted
  }

  /**
   After a rename within one pair the entry is at its new place only, under the new name and with
   every other attribute; all other ids but a replaced one answer as before, also those past the end.
   */
  lemma SamePairRename(d0: seq<seq<Rec>>, d1: seq<seq<Rec>>, pairs: seq<Pair>,
                       p: nat, oldId: nat, newId: nat, replace: bool, name: Value, want: nat, id: nat)
    requires WithinRun(d0, d1, pairs, p, oldId, newId, replace, name) && IsAttr(want)
    requires !(replace && id == newId)
    ensures id != oldId ==>
              ReadBack(d1, pairs, p, want, MovedId(id, oldId, newId, replace)) == ReadBack(d0, pairs, p, want, id)
    ensures ReadBack(d1, pairs, p, want, if oldId < newId then newId - 1 else newId) ==
            if Type1(want) == TYPE_NAME then Some(name) else ReadBack(d0, pairs, p, want, oldId)
  {
    hide Replay, Sum, Directory, Newest, MovedValues, Lookup, MovedWithin, HasMove, Denotes;
    var st, h := Replay(d0[p]), [name] + MovedValues(d0[p], oldId);
    DirectoryDenotes(d0[p]);
    DirectoryDenotes(d1[p]);
    NothingHidden(d0, pairs[p]);
    NothingHidden(d1, pairs[p]);
    ReaderSees(d0[p], None, want, id);
    ReaderSees(d0[p], None, want, oldId);
    var at, moved := if oldId < newId then newId - 1 else newId, MovedId(id, oldId, newId, replace);
    ReaderSees(d1[p], None, want, moved);
    ReaderSees(d1[p], None, want, at);
    WithinPlaces(st.entries, oldId, newId, replace, h, id);
    var st' := State(if replace then st.count - 1 else st.count, MovedWithin(st.entries, oldId, newId, replace, h));
    DenotedAnswers(d1[p], st', want, at);
    DenotedAnswers(d1[p], st', want, moved);
    MovedValuesLive(d0[p], oldId);
    NamedHistory(name, MovedValues(d0[p], oldId), want);
    if Type1(want) != TYPE_NAME { MovedAnswers(d0[p], oldId, want); }
  }

  lemma NothingHidden(logs: seq<seq<Rec>>, pair: Pair)
    requires !HasMove(Sum(logs))
    ensures HiddenIn(Sum(logs), pair) == None
  {
  }

  lemma DenotedAnswers(log: seq<Rec>, st: State, want: nat, id: nat)
    requires Denotes(log, st) && IsAttr(want)
    ensures Get(Replay(log), KeyMask(want), want, id) ==
            if id < |st.entries| then Newest(st.entries[id], KeyMask(want), want) else None
  {
    hide Replay;
  }

  lemma WithinPlaces(es: seq<seq<Value>>, oldId: nat, newId: nat, replace: bool, h: seq<Value>, id: nat)
    requires oldId < |es| && newId <= |es| && (replace ==> newId < |es|) && !(replace && newId == oldId)
    requires !(replace && id == newId)
    ensures var all, at := MovedWithin(es, oldId, newId, replace, h), if oldId < newId then newId - 1 else newId;
            && |all| == (if replace then |es| - 1 else |es|) && at < |all| && all[at] == h
            && (id != oldId ==>
                  var to := MovedId(id, oldId, newId, replace);
                  (to < |all| <==> id < |es|) && (id < |es| ==> all[to] == es[id]))
  {
    hide MovedWithin;
    var ins, o := Inserted(es, newId, replace, h), ShiftedOld(oldId, newId, replace);
    InsertedThenDeleted(es, oldId, newId, replace, h);
    PlaceRemoved(ins, o);
    if id < |es| { PlaceInserted(es, newId, replace, h, id); }
    PlaceOfNew(es, newId, replace, h);
  }

  lemma PlaceOfNew(es: seq<seq<Value>>, newId: nat, replace: bool, h: seq<Value>)
    requires newId <= |es| && (replace ==> newId < |es|)
    ensures var ins := Inserted(es, newId, replace, h);
            |ins| == (if replace then |es| else |es| + 1) && ins[newId] == h
  {
  }

  lemma PlaceRemoved(ins: seq<seq<Value>>, o: nat)
    requires o < |ins|
    ensures var rest := ins[..o] + ins[o + 1..];
            forall k {:trigger rest[k]} :: 0 <= k < |rest| ==> rest[k] == ins[if k < o then k else k + 1]
  {
  }

  lemma PlaceInserted(es: seq<seq<Value>>, newId: nat, replace: bool, h: seq<Value>, id: nat)
    requires newId <= |es| && (replace ==> newId < |es|) && id < |es| && !(replace && id == newId)
    ensures var ins := Inserted(es, newId, replace, h);
            && |ins| == (if replace then |es| else |es| + 1) && ins[newId] == h
            && ins[if !replace && newId <= id then id + 1 else id] == es[id]
  {
  }

  /** Where the old entry is after the insertion, and what is left once it is taken out. */
  lemma InsertedThenDeleted(es: seq<seq<Value>>, oldId: nat, newId: nat, replace: bool, h: seq<Value>)
    requires oldId < |es| && newId <= |es| && (replace ==> newId < |es|) && !(replace && newId == oldId)
    ensures var all, o := Inserted(es, newId, replace, h), ShiftedOld(oldId, newId, replace);
            && o < |all| == (if replace then |es| else |es| + 1) && all[o] == es[oldId]
            && all[..o] + all[o + 1..] == MovedWithin(es, oldId, newId, replace, h)
  {
    var all, o := Inserted(es, newId, replace, h), ShiftedOld(oldId, newId, replace);
    var behind := if replace then newId + 1 else newId;
    assert all == es[..newId] + [h] + es[behind..];
    if oldId < newId {
      assert all[..o] == es[..oldId] && all[o + 1..] == es[oldId + 1..newId] + [h] + es[behind..];
    } else {
      assert all[..o] == es[..newId] + [h] + es[behind..oldId] && all[o + 1..] == es[oldId + 1..];
    }
  }
}
