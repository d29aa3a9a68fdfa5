/**
 Rewriting a metadata log (lfs_dir_traverse with lfs_dir_traverse_filter).

 Compaction walks the old log and the attributes still waiting to be committed, drops
 every tag that a later one makes redundant, renumbers the survivors to their final ids and
 keeps only the ids in [begin, end).
 */
module Compaction {
  import opened Common
  import opened DirLog

  /** One thing the traversal meets: a tag, or a request to copy another entry's attributes. */
  datatype Item = Tagged(rec: Rec) | Move(toId: nat, values: seq<Value>)

  function Filed(v: Value, id: nat): Rec { Rec(Tag(v.ty, id, v.size), v.data) }

  function FiledAll(vs: seq<Value>, id: nat): (r: seq<Rec>)
    ensures |r| == |vs|
    ensures forall i :: 0 <= i < |vs| ==> r[i] == Filed(vs[i], id)
  {
    seq(|vs|, i requires 0 <= i < |vs| => Filed(vs[i], id))
  }

  /** The tags an item stands for when it is simply appended to a log. */
  function ExpandOne(it: Item): seq<Rec>
  {
    match it
    case Tagged(r) => [r]
    case Move(to, vs) => FiledAll(vs, to)
  }

  function Expand(items: seq<Item>): seq<Rec>
  {
    if items == [] then [] else ExpandOne(items[0]) + Expand(items[1..])
  }

  /** The duplicate filter run over everything after a tag: its final form, or nothing. */
  function Filter(t: Tag, rest: seq<Item>): Option<Tag>
    decreases |rest|
  {
    if rest == [] then Some(t)
    else match rest[0]
      case Move(_, _) => Filter(t, rest[1..])
      case Tagged(r) =>
        if (Matches(KeyMask(r.tag.ty), r.tag.ty, t.ty) && r.tag.id == t.id)
           || IsDeleted(t.size)
           || (r.tag.ty == TYPE_DELETE && r.tag.id == t.id)
        then None
        else
          var id := if IsSplice(r.tag.ty) && r.tag.id <= t.id then t.id + Splice(r.tag.ty) else t.id;
          if id < 0 then None else Filter(t.(id := id), rest[1..])
  }

  function Emit(it: Item, rest: seq<Item>, begin: nat, end: nat): seq<Rec>
  {
    match it
    case Tagged(r) =>
      if r.tag.ty >= TYPE_SPLICE then []
      else (
        match Filter(r.tag, rest)
        case Some(t) => if begin <= t.id < end then [Rec(t.(id := t.id - begin), r.data)] else []
        case None => [])
    case Move(to, vs) =>
      match Filter(Tag(FROM_MOVE, to, 0), rest)
      case Some(t) => if begin <= t.id < end then FiledAll(vs, t.id - begin) else []
      case None => []
  }

  /** The tags compaction writes for the ids in [begin, end). */
  function Compacted(items: seq<Item>, begin: nat, end: nat): seq<Rec>
  {
    if items == [] then []
    else Emit(items[0], items[1..], begin, end) + Compacted(items[1..], begin, end)
  }

  // ---------------------------------------------------------------- walking over parts

  lemma {:induction false} WalkConcat(a: seq<Rec>, b: seq<Rec>, m: Mask, want: nat, cur: nat)
    ensures Walk(a + b, m, want, cur) ==
            match Walk(b, m, want, cur)
            case Through(next) => Walk(a, m, want, next)
            case done => done
    decreases |b|
  {
    if b == [] {
      assert a + b == a;
    } else {
      assert (a + b)[..|a + b| - 1] == a + b[..|b| - 1];
      match StepBack(b[|b| - 1], m, want, cur)
      case Through(next) => WalkConcat(a, b[..|b| - 1], m, want, next);
      case _ =>
    }
  }

  lemma WalkOne(r: Rec, m: Mask, want: nat, cur: nat)
    ensures Walk([r], m, want, cur) == StepBack(r, m, want, cur)
  {
    assert [r][..0] == [];
  }

  /** What the walk over `items` gives once everything after the first item is behind us. */
  lemma WalkFirst(items: seq<Item>, m: Mask, want: nat, cur: nat)
    requires items != []
    ensures Walk(Expand(items), m, want, cur) ==
            match Walk(Expand(items[1..]), m, want, cur)
            case Through(next) => Walk(ExpandOne(items[0]), m, want, next)
            case done => done
  {
    WalkConcat(ExpandOne(items[0]), Expand(items[1..]), m, want, cur);
  }

  // ---------------------------------------------------------------- what the filter decides

  /** Items as littlefs produces them: stored tags are well formed and moved values are live attributes. */
  predicate WellFormedItem(it: Item)
  {
    match it
    case Tagged(r) =>
      Type1(r.tag.ty) != TYPE_FROM &&
      (IsSplice(r.tag.ty) ==> (r.tag.ty == TYPE_CREATE || r.tag.ty == TYPE_DELETE) && r.tag.size == 0)
    case Move(_, vs) =>
      forall i :: 0 <= i < |vs| ==> IsAttr(vs[i].ty) && !IsDeleted(vs[i].size)
  }

  predicate WellFormedItems(items: seq<Item>)
  {
    forall i :: 0 <= i < |items| ==> WellFormedItem(items[i])
  }

  /** One filter step over the tag `r`: the new running id, or nothing when `r` makes `t` redundant. */
  function FilterStep(t: Tag, r: Rec): Option<nat>
  {
    if (Matches(KeyMask(r.tag.ty), r.tag.ty, t.ty) && r.tag.id == t.id)
       || (r.tag.ty == TYPE_DELETE && r.tag.id == t.id)
    then None
    else
      var id := if IsSplice(r.tag.ty) && r.tag.id <= t.id then t.id + Splice(r.tag.ty) else t.id;
      if id < 0 then None else Some(id)
  }

  lemma KeySymmetric(a: nat, b: nat)
    ensures Matches(KeyMask(a), a, b) == Matches(KeyMask(b), a, b)
  {
  }

  /** Passing a tag forwards and passing it backwards are inverse to each other. */
  lemma StepsAgree(t: Tag, r: Rec, c: nat)
    requires WellFormedItem(Tagged(r)) && IsAttr(t.ty)
    ensures FilterStep(t, r) == Some(c) <==> StepBack(r, KeyMask(t.ty), t.ty, c) == Through(t.id)
  {
    KeySymmetric(r.tag.ty, t.ty);
    if IsSplice(r.tag.ty) {
      assert !Matches(KeyMask(t.ty), r.tag.ty, t.ty) by {
        if Matches(KeyMask(t.ty), r.tag.ty, t.ty) { FinerMatches(KeyMask(t.ty), r.tag.ty, t.ty); }
      }
    }
  }

  lemma {:induction false} WalkFiled(vs: seq<Value>, to: nat, m: Mask, want: nat, cur: nat)
    requires IsAttr(want) && WellFormedItem(Move(to, vs))
    ensures var w := Walk(FiledAll(vs, to), m, want, cur);
            w == Through(cur) || (cur == to && w.Found?)
  {
    if vs != [] {
      var front := vs[..|vs| - 1];
      assert FiledAll(vs, to)[..|vs| - 1] == FiledAll(front, to);
      assert !IsSplice(vs[|vs| - 1].ty);
      WalkFiled(front, to, m, want, cur);
    }
  }

  /** The walk gets back to running id `x`, unless it has found an answer on the way. */
  predicate Reaches(log: seq<Rec>, want: nat, cur: nat, x: nat)
  {
    var w := Walk(log, KeyMask(want), want, cur);
    w == Through(x) || w.Found?
  }

  lemma ReachesFirst(items: seq<Item>, want: nat, cur: nat, mid: nat, x: nat)
    requires items != []
    requires Reaches(Expand(items[1..]), want, cur, mid) && Reaches(ExpandOne(items[0]), want, mid, x)
    ensures Reaches(Expand(items), want, cur, x)
  {
    WalkFirst(items, KeyMask(want), want, cur);
  }

  /** A tag the filter keeps is not met, or met only in copied form, before it on the way back. */
  lemma {:induction false} FilterKeeps(t: Tag, rest: seq<Item>)
    requires WellFormedItems(rest) && IsAttr(t.ty)
    ensures match Filter(t, rest)
            case None => true
            case Some(u) => u == t.(id := u.id) && Reaches(Expand(rest), t.ty, u.id, t.id)
    decreases |rest|
  {
    hide Matches, KeyMask, Splice, IsSplice, StepBack;
    if rest != [] && Filter(t, rest).Some? {
      var u := Filter(t, rest).value;
      match rest[0] {
        case Move(to, vs) =>
          FilterKeeps(t, rest[1..]);
          WalkFiled(vs, to, KeyMask(t.ty), t.ty, t.id);
          ReachesFirst(rest, t.ty, u.id, t.id, t.id);
        case Tagged(r) =>
          var id := FilterStep(t, r).value;
          FilterKeeps(t.(id := id), rest[1..]);
          StepsAgree(t, r, id);
          WalkOne(r, KeyMask(t.ty), t.ty, id);
          ReachesFirst(rest, t.ty, u.id, id, t.id);
      }
    }
  }

  predicate AllMoves(items: seq<Item>) { forall i :: 0 <= i < |items| ==> items[i].Move? }

  /** A tag the walk back reaches is kept, under the id the walk started from. */
  lemma {:induction false} FilterReached(t: Tag, rest: seq<Item>, y: nat)
    requires WellFormedItems(rest) && IsAttr(t.ty)
    requires Walk(Expand(rest), KeyMask(t.ty), t.ty, y) == Through(t.id)
    requires IsDeleted(t.size) ==> AllMoves(rest)
    ensures Filter(t, rest) == Some(t.(id := y))
    decreases |rest|
  {
    hide Matches, KeyMask, Splice, IsSplice, StepBack, Type1, IsAttr;
    if rest != [] {
      WalkFirst(rest, KeyMask(t.ty), t.ty, y);
      var c := Walk(Expand(rest[1..]), KeyMask(t.ty), t.ty, y).id;
      match rest[0] {
        case Move(to, vs) =>
          WalkFiled(vs, to, KeyMask(t.ty), t.ty, c);
          FilterReached(t, rest[1..], y);
        case Tagged(r) =>
          WalkOne(r, KeyMask(t.ty), t.ty, c);
          StepsAgree(t, r, c);
          FilterReached(t.(id := c), rest[1..], y);
      }
    }
  }

  function MoveTag(to: nat): Tag { Tag(FROM_MOVE, to, 0) }

  /** `StepsAgree` for a move request, which no stored tag duplicates. */
  lemma MoveStepsAgree(to: nat, r: Rec, want: nat, c: nat)
    requires WellFormedItem(Tagged(r)) && IsAttr(want)
    ensures StepBack(r, KeyMask(want), want, c) == Through(to) ==> FilterStep(MoveTag(to), r) == Some(c)
    ensures FilterStep(MoveTag(to), r) == Some(c) && !IsDeleted(r.tag.size) ==>
              StepBack(r, KeyMask(want), want, c) == Through(to) || StepBack(r, KeyMask(want), want, c).Found?
  {
    assert !Matches(KeyMask(r.tag.ty), r.tag.ty, FROM_MOVE) by {
      if Matches(KeyMask(r.tag.ty), r.tag.ty, FROM_MOVE) { FinerMatches(KeyMask(r.tag.ty), r.tag.ty, FROM_MOVE); }
    }
    if IsSplice(r.tag.ty) && Matches(KeyMask(want), r.tag.ty, want) { FinerMatches(KeyMask(want), r.tag.ty, want); }
  }

  lemma {:induction false} MoveReached(to: nat, rest: seq<Item>, want: nat, y: nat)
    requires WellFormedItems(rest) && IsAttr(want)
    requires Walk(Expand(rest), KeyMask(want), want, y) == Through(to)
    ensures Filter(MoveTag(to), rest) == Some(MoveTag(y))
    decreases |rest|
  {
    hide Matches, KeyMask, Splice, IsSplice, StepBack, Type1, IsAttr;
    if rest != [] {
      WalkFirst(rest, KeyMask(want), want, y);
      var c := Walk(Expand(rest[1..]), KeyMask(want), want, y).id;
      match rest[0] {
        case Move(to', vs) =>
          WalkFiled(vs, to', KeyMask(want), want, c);
          MoveReached(to, rest[1..], want, y);
        case Tagged(r) =>
          WalkOne(r, KeyMask(want), want, c);
          MoveStepsAgree(to, r, want, c);
          MoveReached(c, rest[1..], want, y);
      }
    }
  }

  /** No attribute is deleted by `items`. */
  predicate NothingDeleted(items: seq<Item>)
  {
    forall i :: 0 <= i < |items| && items[i].Tagged? ==> !IsDeleted(items[i].rec.tag.size)
  }

  lemma {:induction false} MoveKept(to: nat, rest: seq<Item>, want: nat)
    requires WellFormedItems(rest) && IsAttr(want) && NothingDeleted(rest)
    ensures match Filter(MoveTag(to), rest)
            case None => true
            case Some(u) => u == MoveTag(u.id) && Reaches(Expand(rest), want, u.id, to)
    decreases |rest|
  {
    if rest != [] && Filter(MoveTag(to), rest).Some? {
      var u := Filter(MoveTag(to), rest).value;
      match rest[0] {
        case Move(to', vs) =>
          MoveKept(to, rest[1..], want);
          WalkFiled(vs, to', KeyMask(want), want, to);
          ReachesFirst(rest, want, u.id, to, to);
        case Tagged(r) =>
          var id := FilterStep(MoveTag(to), r).value;
          MoveKept(id, rest[1..], want);
          MoveStepsAgree(to, r, want, id);
          WalkOne(r, KeyMask(want), want, id);
          ReachesFirst(rest, want, u.id, id, to);
      }
    }
  }

  // ---------------------------------------------------------------- compaction preserves lookups

  /**
   A copied attribute is never deleted again by the same commit. The only commit that copies,
   a rename, adds nothing but a splice after the copy.
   */
  predicate MovesStand(items: seq<Item>)
  {
    forall i :: 0 <= i < |items| && items[i].Move? ==> NothingDeleted(items[i + 1..])
  }

  /** Walking back over the rewritten log finds what walking back over the original finds. */
  predicate SameWalk(original: Walked, rewritten: Walked, id: nat)
  {
    match original
    case Found(_) => rewritten == original
    case Missing => rewritten == Missing || rewritten == Through(id)
    case Through(_) => rewritten == Through(id)
  }

  lemma MovesStandRest(items: seq<Item>)
    requires MovesStand(items) && items != []
    ensures MovesStand(items[1..])
    ensures items[0].Move? ==> NothingDeleted(items[1..])
  {
    forall i | 0 <= i < |items| - 1 && items[1..][i].Move? ensures NothingDeleted(items[1..][i + 1..]) {
      assert items[1..][i] == items[i + 1] && items[1..][i + 1..] == items[i + 2..];
    }
  }

  lemma {:induction false} CompactedWalk(items: seq<Item>, begin: nat, end: nat, want: nat, y: nat)
    requires WellFormedItems(items) && MovesStand(items) && IsAttr(want)
    requires begin <= y < end
    ensures SameWalk(Walk(Expand(items), KeyMask(want), want, y),
                     Walk(Compacted(items, begin, end), KeyMask(want), want, y - begin), y - begin)
    decreases |items|
  {
    if items != [] {
      MovesStandRest(items);
      assert WellFormedItem(items[0]) && WellFormedItems(items[1..]);
      CompactedWalk(items[1..], begin, end, want, y);
      CompactedStep(items, begin, end, want, y);
    }
  }

  lemma CompactedStep(items: seq<Item>, begin: nat, end: nat, want: nat, y: nat)
    requires items != [] && WellFormedItem(items[0]) && WellFormedItems(items[1..]) && IsAttr(want)
    requires items[0].Move? ==> NothingDeleted(items[1..])
    requires begin <= y < end
    requires SameWalk(Walk(Expand(items[1..]), KeyMask(want), want, y),
                      Walk(Compacted(items[1..], begin, end), KeyMask(want), want, y - begin), y - begin)
    ensures SameWalk(Walk(Expand(items), KeyMask(want), want, y),
                     Walk(Compacted(items, begin, end), KeyMask(want), want, y - begin), y - begin)
  {
    hide Matches, KeyMask, Splice, IsSplice, StepBack, Filter, Emit, ExpandOne, WellFormedItem;
    var it, rest, m := items[0], items[1..], KeyMask(want);
    var w, v := Walk(Expand(rest), m, want, y), Walk(Compacted(rest, begin, end), m, want, y - begin);
    var e := Walk(Emit(it, rest, begin, end), m, want, y - begin);
    assert Walk(Compacted(items, begin, end), m, want, y - begin) == if v.Through? then e else v by {
      if v.Through? { assert v == Through(y - begin); }
      WalkConcat(Emit(it, rest, begin, end), Compacted(rest, begin, end), m, want, y - begin);
    }
    assert Walk(Expand(items), m, want, y) == if w.Through? then Walk(ExpandOne(it), m, want, w.id) else w by {
      WalkFirst(items, m, want, y);
    }
    EmittedItem(it, rest, begin, end, want, y);
  }

  /** What the emission of one item contributes to a lookup that got past everything after it. */
  lemma EmittedItem(it: Item, rest: seq<Item>, begin: nat, end: nat, want: nat, y: nat)
    requires WellFormedItem(it) && WellFormedItems(rest) && IsAttr(want)
    requires it.Move? ==> NothingDeleted(rest)
    requires begin <= y < end
    ensures var m := KeyMask(want);
            var e := Walk(Emit(it, rest, begin, end), m, want, y - begin);
            match Walk(Expand(rest), m, want, y)
            case Found(_) => true
            case Missing => e == Through(y - begin)
            case Through(c) => SameWalk(Walk(ExpandOne(it), m, want, c), e, y - begin)
  {
    var m := KeyMask(want);
    match it {
      case Tagged(r) =>
        var w := Walk(Expand(rest), m, want, y);
        if w.Through? { WalkOne(r, m, want, w.id); }
        EmittedTag(r, rest, begin, end, want, y);
      case Move(to, vs) => EmittedMove(to, vs, rest, begin, end, want, y);
    }
  }

  /** What the emission of one tag contributes to a lookup that got past everything after it. */
  lemma EmittedTag(r: Rec, rest: seq<Item>, begin: nat, end: nat, want: nat, y: nat)
    requires WellFormedItem(Tagged(r)) && WellFormedItems(rest) && IsAttr(want)
    requires begin <= y < end
    ensures var m := KeyMask(want);
            var e := Walk(Emit(Tagged(r), rest, begin, end), m, want, y - begin);
            match Walk(Expand(rest), m, want, y)
            case Found(_) => true
            case Missing => e == Through(y - begin)
            case Through(c) => SameWalk(StepBack(r, m, want, c), e, y - begin)
  {
    if IsAttr(r.tag.ty) {
      EmittedAttr(r, rest, begin, end, want, y);
    } else {
      assert Type1(r.tag.ty) == r.tag.ty / 0x100 * 0x100;
      assert r.tag.ty >= TYPE_SPLICE;
    }
  }

  lemma EmittedAttr(r: Rec, rest: seq<Item>, begin: nat, end: nat, want: nat, y: nat)
    requires WellFormedItem(Tagged(r)) && WellFormedItems(rest) && IsAttr(want) && IsAttr(r.tag.ty)
    requires begin <= y < end
    ensures var m := KeyMask(want);
            var e := Walk(Emit(Tagged(r), rest, begin, end), m, want, y - begin);
            match Walk(Expand(rest), m, want, y)
            case Found(_) => true
            case Missing => e == Through(y - begin)
            case Through(c) => SameWalk(StepBack(r, m, want, c), e, y - begin)
  {
    hide Matches, KeyMask, Type1, Splice, IsSplice, IsAttr, StepBack, Filter, Expand, WellFormedItem, WellFormedItems;
    var m := KeyMask(want);
    var out := Emit(Tagged(r), rest, begin, end);
    FilterKeeps(r.tag, rest);
    AttrBelowSplice(r.tag.ty);
    if out != [] {
      WalkOne(out[0], m, want, y - begin);
      AttrStep(out[0], m, want, y - begin);
    }
    KeySymmetric(r.tag.ty, want);
    if Matches(m, r.tag.ty, want) { SameKeySameWalk(Expand(rest), r.tag.ty, want, y); }
    var w := Walk(Expand(rest), m, want, y);
    if w.Through? {
      AttrStep(r, m, want, w.id);
      if Matches(m, r.tag.ty, want) && r.tag.id == w.id && !IsDeleted(r.tag.size) { FilterReached(r.tag, rest, y); }
    }
  }

  lemma AttrBelowSplice(ty: nat)
    requires IsAttr(ty)
    ensures ty < TYPE_SPLICE
  {
  }

  /** An attribute met on the way back answers or is passed; it renumbers nothing. */
  lemma AttrStep(r: Rec, m: Mask, want: nat, cur: nat)
    requires IsAttr(r.tag.ty)
    ensures StepBack(r, m, want, cur) ==
            if Matches(m, r.tag.ty, want) && r.tag.id == cur
            then (if IsDeleted(r.tag.size) then Missing else Found(ValueOf(r)))
            else Through(cur)
  {
  }

  /** Two types of one key are looked up alike. */
  lemma {:induction false} SameKeySameWalk(log: seq<Rec>, a: nat, b: nat, cur: nat)
    requires Matches(KeyMask(b), a, b)
    ensures Walk(log, KeyMask(a), a, cur) == Walk(log, KeyMask(b), b, cur)
  {
    KeySymmetric(a, b);
    if log != [] {
      match StepBack(log[|log| - 1], KeyMask(b), b, cur)
      case Through(next) => SameKeySameWalk(log[..|log| - 1], a, b, next);
      case _ =>
    }
  }

  lemma EmittedMove(to: nat, vs: seq<Value>, rest: seq<Item>, begin: nat, end: nat, want: nat, y: nat)
    requires WellFormedItem(Move(to, vs)) && WellFormedItems(rest) && NothingDeleted(rest) && IsAttr(want)
    requires begin <= y < end
    ensures var m := KeyMask(want);
            var e := Walk(Emit(Move(to, vs), rest, begin, end), m, want, y - begin);
            match Walk(Expand(rest), m, want, y)
            case Found(_) => true
            case Missing => e == Through(y - begin)
            case Through(c) => SameWalk(Walk(FiledAll(vs, to), m, want, c), e, y - begin)
  {
    var m := KeyMask(want);
    var w := Walk(Expand(rest), m, want, y);
    if w == Through(to) {
      MoveReached(to, rest, want, y);
      RefiledWalk(vs, to, y - begin, m, want);
    } else if !w.Found? {
      MoveElsewhere(to, vs, rest, begin, end, want, y);
      if w.Through? { WalkFiled(vs, to, m, want, w.id); }
    }
  }

  lemma MoveElsewhere(to: nat, vs: seq<Value>, rest: seq<Item>, begin: nat, end: nat, want: nat, y: nat)
    requires WellFormedItem(Move(to, vs)) && WellFormedItems(rest) && NothingDeleted(rest) && IsAttr(want)
    requires begin <= y < end
    requires var w := Walk(Expand(rest), KeyMask(want), want, y); w != Through(to) && !w.Found?
    ensures Walk(Emit(Move(to, vs), rest, begin, end), KeyMask(want), want, y - begin) == Through(y - begin)
  {
    hide Matches, KeyMask, Splice, IsSplice, StepBack, Filter, Type1, IsAttr, Expand, FiledAll;
    MoveKept(to, rest, want);
    var f := Filter(MoveTag(to), rest);
    if f.Some? && begin <= f.value.id < end {
      WalkFiled(vs, f.value.id - begin, KeyMask(want), want, y - begin);
    }
  }

  /** Copied attributes answer the same under whatever id they are filed. */
  lemma {:induction false} RefiledWalk(vs: seq<Value>, a: nat, b: nat, m: Mask, want: nat)
    requires IsAttr(want) && WellFormedItem(Move(a, vs))
    ensures var w, v := Walk(FiledAll(vs, a), m, want, a), Walk(FiledAll(vs, b), m, want, b);
            if w.Found? then v == w else w == Through(a) && v == Through(b)
  {
    hide Matches, Splice, Type1;
    if vs != [] {
      var front := vs[..|vs| - 1];
      assert FiledAll(vs, a)[..|vs| - 1] == FiledAll(front, a);
      assert FiledAll(vs, b)[..|vs| - 1] == FiledAll(front, b);
      assert !IsSplice(vs[|vs| - 1].ty);
      RefiledWalk(front, a, b, m, want);
    }
  }

  // ---------------------------------------------------------------- the theorems

  lemma {:induction false} ExpandWellFormed(items: seq<Item>)
    requires WellFormedItems(items)
    ensures WellFormed(Expand(items))
  {
    if items != [] {
      ExpandWellFormed(items[1..]);
      if items[0].Move? {
        var vs := items[0].values;
        assert forall i :: 0 <= i < |vs| ==> !IsSplice(vs[i].ty);
      }
    }
  }

  /** A log of attributes only, all filed under ids below `n`. */
  predicate AttrsBelow(log: seq<Rec>, n: nat)
  {
    forall i :: 0 <= i < |log| ==> IsAttr(log[i].tag.ty) && log[i].tag.id < n
  }

  lemma {:induction false} CompactedAttrs(items: seq<Item>, begin: nat, end: nat)
    requires WellFormedItems(items) && begin <= end
    ensures AttrsBelow(Compacted(items, begin, end), end - begin)
    ensures WellFormed(Compacted(items, begin, end))
  {
    if items != [] {
      CompactedAttrs(items[1..], begin, end);
      match items[0] {
        case Tagged(r) =>
          if IsAttr(r.tag.ty) { FilterKeeps(r.tag, items[1..]); }
        case Move(to, vs) =>
          forall i | 0 <= i < |vs| ensures !IsSplice(vs[i].ty) {}
      }
    }
  }

  /**
   Compaction preserves meaning: entry `y - begin` of the rewritten log holds, under every key,
   what entry `y` of the old log with the pending attributes appended holds.
   */
  lemma CompactionPreservesEntries(items: seq<Item>, begin: nat, end: nat, want: nat, y: nat)
    requires WellFormedItems(items) && MovesStand(items) && IsAttr(want)
    requires begin <= y < end
    ensures Get(Replay(Compacted(items, begin, end)), KeyMask(want), want, y - begin) ==
            Get(Replay(Expand(items)), KeyMask(want), want, y)
  {
    hide Expand, Compacted, Replay, Walk, Get;
    ExpandWellFormed(items);
    CompactedAttrs(items, begin, end);
    CompactedWalk(items, begin, end, want, y);
    LookupRefinesReplay(Expand(items), KeyMask(want), want, y);
    LookupRefinesReplay(Compacted(items, begin, end), KeyMask(want), want, y - begin);
  }

  /**
   In the lookups readers make: names and structs under 0x700, user attributes by their exact type.
   The other direction of the filter is `CompactionLeavesOne`.
   */
  lemma CompactionKeepsLookups(items: seq<Item>, begin: nat, end: nat, want: nat, y: nat)
    requires WellFormedItems(items) && MovesStand(items) && begin <= y < end
    ensures Type1(want) == TYPE_NAME || Type1(want) == TYPE_STRUCT ==>
              Get(Replay(Compacted(items, begin, end)), Coarse, want, y - begin) ==
              Get(Replay(Expand(items)), Coarse, want, y)
    ensures Type1(want) == TYPE_USERATTR ==>
              Get(Replay(Compacted(items, begin, end)), Exact, want, y - begin) ==
              Get(Replay(Expand(items)), Exact, want, y)
  {
    hide Expand, Compacted, Replay, Get, WellFormedItems, MovesStand, Matches;
    if IsAttr(want) { CompactionPreservesEntries(items, begin, end, want, y); }
  }

  /** Names of files and directories are found under 0x780 as well. */
  lemma CompactionKeepsNames(items: seq<Item>, begin: nat, end: nat, y: nat)
    requires WellFormedItems(items) && MovesStand(items) && begin <= y < end
    requires var v := Get(Replay(Expand(items)), Coarse, TYPE_NAME, y); v.Some? && v.value.ty < 0x80
    ensures Get(Replay(Compacted(items, begin, end)), Middle, TYPE_NAME, y - begin) ==
            Get(Replay(Expand(items)), Middle, TYPE_NAME, y)
  {
    hide Expand, Compacted, Replay, WellFormedItems, MovesStand, Newest;
    CompactionKeepsLookups(items, begin, end, TYPE_NAME, y);
    NameUnderMiddle(Replay(Expand(items)).entries[y]);
    NameUnderMiddle(Replay(Compacted(items, begin, end)).entries[y - begin]);
  }

  /** Nothing is copied: every item is a tag. */
  predicate NoCopies(items: seq<Item>) { forall i :: 0 <= i < |items| ==> items[i].Tagged? }

  /** Two tags that the same lookup would be answered by: one name, one struct, one attribute of each type. */
  predicate Rivals(a: Tag, b: Tag)
  {
    a.id == b.id && Type1(a.ty) == Type1(b.ty) && (Type1(a.ty) == TYPE_USERATTR ==> a.ty == b.ty)
  }

  predicate NoRivals(log: seq<Rec>)
  {
    forall k, l :: 0 <= k < l < |log| ==> !Rivals(log[k].tag, log[l].tag)
  }

  /** A rewritten log holds nothing twice: without copies, no two of its tags are rivals. */
  lemma {:induction false} CompactionLeavesOne(items: seq<Item>, begin: nat, end: nat)
    requires WellFormedItems(items) && NoCopies(items) && begin <= end
    ensures NoRivals(Compacted(items, begin, end))
    decreases |items|
  {
    hide Filter, Matches, KeyMask, Type1, IsAttr, WellFormedItem, Rivals;
    if items != [] {
      var out, rest := Compacted(items, begin, end), Compacted(items[1..], begin, end);
      var e := Emit(items[0], items[1..], begin, end);
      CompactionLeavesOne(items[1..], begin, end);
      if e != [] { KeptAlone(items, begin, end); }
      forall k, l | 0 <= k < l < |out| ensures !Rivals(out[k].tag, out[l].tag) {
        assert out == e + rest;
        if k < |e| {
          assert !Rivals(e[0].tag, rest[l - |e|].tag);
        } else {
          assert !Rivals(rest[k - |e|].tag, rest[l - |e|].tag);
        }
      }
    }
  }

  /** What is kept of the first item has no rival in what is written behind it. */
  lemma KeptAlone(items: seq<Item>, begin: nat, end: nat)
    requires WellFormedItems(items) && NoCopies(items) && begin <= end
    requires items != [] && Emit(items[0], items[1..], begin, end) != []
    ensures var e := Emit(items[0], items[1..], begin, end);
            var rest := Compacted(items[1..], begin, end);
            |e| == 1 && forall l :: 0 <= l < |rest| ==> !Rivals(e[0].tag, rest[l].tag)
  {
    var r, rest := items[0].rec, items[1..];
    var e, out := Emit(items[0], rest, begin, end), Compacted(rest, begin, end);
    var y := Filter(r.tag, rest).value.id;
    assert WellFormedItem(items[0]);
    assert IsAttr(r.tag.ty) by { KindsBelowSplice(r.tag.ty); }
    hide Filter, Matches, KeyMask, Type1, IsAttr, WellFormedItem, Rivals, Expand, Compacted, Walk, StepBack;
    FilterKeeps(r.tag, rest);
    FilterThrough(r.tag, rest);
    assert MovesStand(rest);
    CompactedWalk(rest, begin, end, r.tag.ty, y);
    CompactedAttrs(rest, begin, end);
    PassedAll(out, KeyMask(r.tag.ty), r.tag.ty, y - begin);
    forall l | 0 <= l < |out| ensures !Rivals(e[0].tag, out[l].tag) {
      if Rivals(e[0].tag, out[l].tag) { RivalsMatch(e[0].tag, out[l].tag); }
    }
  }

  lemma KindsBelowSplice(ty: nat)
    requires ty < TYPE_SPLICE && Type1(ty) != TYPE_FROM
    ensures IsAttr(ty)
  {
  }

  lemma RivalsMatch(a: Tag, b: Tag)
    requires Rivals(a, b) && IsAttr(a.ty)
    ensures a.id == b.id && Matches(KeyMask(a.ty), b.ty, a.ty)
  {
  }

  /** Without copies a tag that is kept is passed on the way back. */
  lemma {:induction false} FilterThrough(t: Tag, rest: seq<Item>)
    requires WellFormedItems(rest) && NoCopies(rest) && IsAttr(t.ty) && Filter(t, rest).Some?
    ensures Walk(Expand(rest), KeyMask(t.ty), t.ty, Filter(t, rest).value.id) == Through(t.id)
    decreases |rest|
  {
    hide Matches, KeyMask, Splice, IsSplice, StepBack;
    if rest != [] {
      var u, r := Filter(t, rest).value, rest[0].rec;
      var id := FilterStep(t, r).value;
      FilterThrough(t.(id := id), rest[1..]);
      StepsAgree(t, r, id);
      WalkOne(r, KeyMask(t.ty), t.ty, id);
      WalkFirst(rest, KeyMask(t.ty), t.ty, u.id);
    }
  }

  /** A walk that passes a whole log of attributes meets no match for its id. */
  lemma {:induction false} PassedAll(log: seq<Rec>, m: Mask, want: nat, cur: nat)
    requires forall i :: 0 <= i < |log| ==> IsAttr(log[i].tag.ty)
    requires Walk(log, m, want, cur) == Through(cur)
    ensures forall i :: 0 <= i < |log| ==> !(Matches(m, log[i].tag.ty, want) && log[i].tag.id == cur)
  {
    hide Matches, StepBack;
    if log != [] {
      AttrStep(log[|log| - 1], m, want, cur);
      PassedAll(log[..|log| - 1], m, want, cur);
    }
  }

  /** Nothing is filed outside the range the rewritten log is for. */
  lemma CompactionStaysInRange(items: seq<Item>, begin: nat, end: nat, m: Mask, want: nat, id: nat)
    requires WellFormedItems(items) && IsAttr(want) && begin <= end
    requires id >= end - begin
    ensures Get(Replay(Compacted(items, begin, end)), m, want, id) == None
  {
    CompactedAttrs(items, begin, end);
    EntriesBelow(Compacted(items, begin, end), end - begin);
  }

  lemma {:induction false} EntriesBelow(log: seq<Rec>, n: nat)
    requires AttrsBelow(log, n)
    ensures |Replay(log).entries| <= n
  {
    if log != [] { EntriesBelow(log[..|log| - 1], n); }
  }

  /** Names are never written as deleted attributes. */
  predicate NamesLive(log: seq<Rec>)
  {
    forall i :: 0 <= i < |log| && Type1(log[i].tag.ty) == TYPE_NAME ==> !IsDeleted(log[i].tag.size)
  }

  lemma {:induction false} CountOfNames(log: seq<Rec>, n: nat)
    requires AttrsBelow(log, n) && NamesLive(log)
    ensures 0 <= Replay(log).count <= n
    ensures Replay(log).count == n <==> n == 0 || LookupBack(log, Coarse, TYPE_NAME, n - 1).Some?
  {
    hide Splice;
    if log != [] {
      CountOfNames(log[..|log| - 1], n);
      assert !IsSplice(log[|log| - 1].tag.ty);
    }
  }

  lemma {:induction false} CompactedNamesLive(items: seq<Item>, begin: nat, end: nat)
    requires WellFormedItems(items) && NamesLive(Expand(items))
    ensures NamesLive(Compacted(items, begin, end))
  {
    hide Splice, Matches, KeyMask, Filter;
    if items != [] {
      var rest, n := Expand(items[1..]), |ExpandOne(items[0])|;
      forall i | 0 <= i < |rest| && Type1(rest[i].tag.ty) == TYPE_NAME ensures !IsDeleted(rest[i].tag.size) {
        assert Expand(items)[n + i] == rest[i];
      }
      CompactedNamesLive(items[1..], begin, end);
      match items[0] {
        case Tagged(r) =>
          assert Expand(items)[0] == r;
          if IsAttr(r.tag.ty) { FilterKeeps(r.tag, items[1..]); }
        case Move(to, vs) =>
      }
    }
  }

  /**
   A fetch of the rewritten block counts exactly the entries it was written for, if and only if
   the last of them has a name.
   */
  lemma CompactionCount(items: seq<Item>, begin: nat, end: nat)
    requires WellFormedItems(items) && MovesStand(items) && NamesLive(Expand(items)) && begin <= end
    ensures Replay(Compacted(items, begin, end)).count == end - begin <==>
            begin == end || Get(Replay(Expand(items)), Coarse, TYPE_NAME, end - 1).Some?
  {
    hide *;
    CompactedNamesLive(items, begin, end);
    CompactedAttrs(items, begin, end);
    CountOfNames(Compacted(items, begin, end), end - begin);
    if begin < end { CompactedName(items, begin, end, end - 1); }
  }

  lemma NameKey()
    ensures KeyMask(TYPE_NAME) == Coarse && IsAttr(TYPE_NAME)
  {
  }

  lemma CompactedName(items: seq<Item>, begin: nat, end: nat, y: nat)
    requires WellFormedItems(items) && MovesStand(items) && begin <= y < end
    ensures LookupBack(Compacted(items, begin, end), Coarse, TYPE_NAME, y - begin) ==
            Get(Replay(Expand(items)), Coarse, TYPE_NAME, y)
  {
    hide *;
    NameKey();
    CompactionPreservesEntries(items, begin, end, TYPE_NAME, y);
    CompactedAttrs(items, begin, end);
    LookupRefinesReplay(Compacted(items, begin, end), Coarse, TYPE_NAME, y - begin);
  }

  // ---------------------------------------------------------------- the traversal itself

  /** The duplicate scan as the nested traversal runs it: one pass over everything after a tag. */
  method ScanForDuplicates(items: seq<Item>, from: nat, tag: Tag) returns (r: Option<Tag>)
    requires from <= |items|
    ensures r == Filter(tag, items[from..])
  {
    var t, j := tag, from;
    while j < |items|
      invariant from <= j <= |items|
      invariant Filter(tag, items[from..]) == Filter(t, items[j..])
    {
      assert items[j..][1..] == items[j + 1..];
      match items[j] {
        case Move(_, _) =>
        case Tagged(rec) =>
          if (Matches(KeyMask(rec.tag.ty), rec.tag.ty, t.ty) && rec.tag.id == t.id)
             || IsDeleted(t.size)
             || (rec.tag.ty == TYPE_DELETE && rec.tag.id == t.id)
          {
            return None;
          }
          if IsSplice(rec.tag.ty) && rec.tag.id <= t.id {
            if t.id + Splice(rec.tag.ty) < 0 { return None; }
            t := t.(id := t.id + Splice(rec.tag.ty));
          }
      }
      j := j + 1;
    }
    r := Some(t);
  }

  /** One turn of the traversal: what it hands on for the item at `i`. */
  method EmitItem(items: seq<Item>, i: nat, begin: nat, end: nat) returns (out: seq<Rec>)
    requires i < |items|
    ensures out == Emit(items[i], items[i + 1..], begin, end)
  {
    out := [];
    match items[i] {
      case Tagged(rec) =>
        if rec.tag.ty < TYPE_SPLICE {
          var t := ScanForDuplicates(items, i + 1, rec.tag);
          if t.Some? && begin <= t.value.id < end {
            out := [Rec(t.value.(id := t.value.id - begin), rec.data)];
          }
        }
      case Move(to, vs) =>
        var t := ScanForDuplicates(items, i + 1, Tag(FROM_MOVE, to, 0));
        if t.Some? && begin <= t.value.id < end {
          out := FiledAll(vs, t.value.id - begin);
        }
    }
  }

  /** The traversal of a log and its pending attributes, handing each surviving tag on in order. */
  method Traverse(items: seq<Item>, begin: nat, end: nat) returns (out: seq<Rec>)
    ensures out == Compacted(items, begin, end)
  {
    out := [];
    var i := 0;
    while i < |items|
      invariant 0 <= i <= |items|
      invariant out + Compacted(items[i..], begin, end) == Compacted(items, begin, end)
    {
      assert items[i..][1..] == items[i + 1..];
      var kept := EmitItem(items, i, begin, end);
      out := out + kept;
      i := i + 1;
    }
  }
}
