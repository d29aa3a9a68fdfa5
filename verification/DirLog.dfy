/**
 The metadata log of one directory block, at the level of decoded tags.

 A block is a log of tags. Attribute tags (names, structs, user attributes) are addressed
 by a small id; splice tags create and delete ids and so renumber everything after them.
 `Replay` reads the log forwards; `LookupBack` is the backward scan littlefs really does.
 */
module DirLog {
  import opened Common

  // Tag types (lfs.h, enum lfs_type), 11 bits wide.
  const TYPE_NAME: nat := 0x000
  const TYPE_FROM: nat := 0x100
  const TYPE_STRUCT: nat := 0x200
  const TYPE_USERATTR: nat := 0x300
  const TYPE_SPLICE: nat := 0x400
  const TYPE_TAIL: nat := 0x600
  const TYPE_CREATE: nat := 0x401
  const TYPE_DELETE: nat := 0x4ff
  const TYPE_MOVESTATE: nat := 0x7ff
  const FROM_MOVE: nat := 0x101

  /** The size field that marks a deleted attribute. */
  const SIZE_DELETED: nat := 0x3ff

  datatype Tag = Tag(ty: nat, id: nat, size: nat)

  /** A logged tag with its payload bytes. */
  datatype Rec = Rec(tag: Tag, data: seq<bv8>)

  /** What an attribute tag stores, apart from the id it is filed under. */
  datatype Value = Value(ty: nat, size: nat, data: seq<bv8>)

  /** The type with its low byte cleared. */
  function Type1(ty: nat): (r: nat)
    ensures r <= ty < r + 0x100 && r % 0x100 == 0
  {
    ty / 0x100 * 0x100
  }

  predicate IsSplice(ty: nat) { Type1(ty) == TYPE_SPLICE }

  /** The low byte of the type read as a signed 8-bit number. */
  function Splice(ty: nat): (r: int)
    ensures -0x80 <= r < 0x80 && (r - ty) % 0x100 == 0
  {
    var chunk := ty % 0x100;
    if chunk >= 0x80 then chunk - 0x100 else chunk
  }

  /** Bit 0x100 of the type: set for tags whose full type is their identity. */
  predicate Unique(ty: nat) { ty / 0x100 % 2 == 1 }

  predicate IsAttr(ty: nat)
  {
    Type1(ty) == TYPE_NAME || Type1(ty) == TYPE_STRUCT || Type1(ty) == TYPE_USERATTR
  }

  predicate IsDeleted(size: nat) { size == SIZE_DELETED }

  /** Bytes a tag and its payload take up on disk. */
  function DiskSize(t: Tag): nat { if IsDeleted(t.size) then 4 else 4 + t.size }

  function ValueOf(r: Rec): Value { Value(r.tag.ty, r.tag.size, r.data) }

  // ---------------------------------------------------------------- type masks

  /** The three type masks littlefs looks tags up with: 0x700, 0x780 and 0x7ff. */
  datatype Mask = Coarse | Middle | Exact

  predicate Matches(m: Mask, ty: nat, want: nat)
  {
    match m
    case Coarse => ty / 0x100 == want / 0x100
    case Middle => ty / 0x80 == want / 0x80
    case Exact => ty == want
  }

  /** The mask under which two tags of one entry overwrite each other. */
  function KeyMask(ty: nat): Mask { if Unique(ty) then Exact else Coarse }

  lemma FinerMatches(m: Mask, ty: nat, want: nat)
    requires Matches(m, ty, want)
    ensures Type1(ty) == Type1(want)
  {
    assert ty / 0x100 == want / 0x100 by {
      if m == Middle {
        assert ty / 0x80 / 2 == ty / 0x100;
        assert want / 0x80 / 2 == want / 0x100;
      }
    }
  }

  // ---------------------------------------------------------------- forward replay

  /** Every splice in a log is a plain create or delete. */
  predicate WellFormed(log: seq<Rec>)
  {
    forall i :: 0 <= i < |log| && IsSplice(log[i].tag.ty) ==>
      (log[i].tag.ty == TYPE_CREATE || log[i].tag.ty == TYPE_DELETE) && log[i].tag.size == 0
  }

  /**
   The directory a log denotes. `entries[id]` is the history of attribute values written to
   the entry now numbered `id`, oldest first; `count` is the entry count kept by a fetch.
   */
  datatype State = State(count: int, entries: seq<seq<Value>>)

  function Padded(entries: seq<seq<Value>>, n: nat): (r: seq<seq<Value>>)
    ensures |r| == if n <= |entries| then |entries| else n
    ensures forall i :: 0 <= i < |entries| ==> r[i] == entries[i]
    ensures forall i :: |entries| <= i < |r| ==> r[i] == []
  {
    if n <= |entries| then entries else entries + seq(n - |entries|, _ => [])
  }

  function Apply(st: State, r: Rec): State
  {
    var id, es := r.tag.id, st.entries;
    if r.tag.ty == TYPE_CREATE then
      State(st.count + 1, if id <= |es| then es[..id] + [[]] + es[id..] else es)
    else if r.tag.ty == TYPE_DELETE then
      State(st.count - 1, if id < |es| then es[..id] + es[id + 1..] else es)
    else if IsAttr(r.tag.ty) then
      var grown := Padded(es, id + 1);
      State(if Type1(r.tag.ty) == TYPE_NAME && id >= st.count then id + 1 else st.count,
            grown[id := grown[id] + [ValueOf(r)]])
    else
      st
  }

  function Replay(log: seq<Rec>): State
  {
    if log == [] then State(0, []) else Apply(Replay(log[..|log| - 1]), log[|log| - 1])
  }

  /** The newest value in a history that a lookup with mask `m` and type `want` accepts. */
  function Newest(h: seq<Value>, m: Mask, want: nat): Option<Value>
  {
    if h == [] then None
    else
      var v := h[|h| - 1];
      if Matches(m, v.ty, want) then (if IsDeleted(v.size) then None else Some(v))
      else Newest(h[..|h| - 1], m, want)
  }

  /** What an entry of a replayed directory answers to a lookup. */
  function Get(st: State, m: Mask, want: nat, id: nat): Option<Value>
  {
    if id < |st.entries| then Newest(st.entries[id], m, want) else None
  }

  // ---------------------------------------------------------------- backward lookup

  /** How far one walk backwards over a stretch of log gets with a running id. */
  datatype Walked = Found(value: Value) | Missing | Through(id: nat)

  /** One tag, met while walking backwards looking for `want` at running id `cur`. */
  function StepBack(r: Rec, m: Mask, want: nat, cur: nat): Walked
  {
    var t := r.tag;
    var splices := IsSplice(t.ty) && t.id <= cur;
    if splices && t == Tag(TYPE_CREATE, cur, 0) then Missing
    else
      var next := if splices then cur - Splice(t.ty) else cur;
      if next < 0 then Missing
      else if Matches(m, t.ty, want) && t.id == next then
        if IsDeleted(t.size) then Missing else Found(ValueOf(r))
      else Through(next)
  }

  function Walk(log: seq<Rec>, m: Mask, want: nat, cur: nat): Walked
  {
    if log == [] then Through(cur)
    else
      match StepBack(log[|log| - 1], m, want, cur)
      case Through(next) => Walk(log[..|log| - 1], m, want, next)
      case done => done
  }

  /** The backward scan: the newest matching tag for `id`, or nothing. */
  function LookupBack(log: seq<Rec>, m: Mask, want: nat, id: nat): Option<Value>
  {
    match Walk(log, m, want, id)
    case Found(v) => Some(v)
    case _ => None
  }

  /** Looking backwards finds what replaying forwards assigns, for every log and every id. */
  lemma {:induction false} LookupRefinesReplay(log: seq<Rec>, m: Mask, want: nat, id: nat)
    requires WellFormed(log) && IsAttr(want)
    ensures LookupBack(log, m, want, id) == Get(Replay(log), m, want, id)
  {
    hide Matches, Splice, IsSplice, Type1, IsAttr, StepBack, Apply, Get;
    if log == [] {
      NothingYet(m, want, id);
    } else {
      var front, r := log[..|log| - 1], log[|log| - 1];
      assert WellFormed([r]);
      match StepBack(r, m, want, id) {
        case Through(next) =>
          LookupRefinesReplay(front, m, want, next);
          StepThrough(Replay(front), r, m, want, id, next);
        case Found(v) => StepFound(Replay(front), r, m, want, id);
        case Missing => StepMissing(Replay(front), r, m, want, id);
      }
    }
  }

  lemma NothingYet(m: Mask, want: nat, id: nat)
    ensures Get(State(0, []), m, want, id) == None
  {
  }

  lemma StepFound(before: State, r: Rec, m: Mask, want: nat, id: nat)
    requires IsAttr(want) && StepBack(r, m, want, id).Found?
    ensures Get(Apply(before, r), m, want, id) == Some(StepBack(r, m, want, id).value)
  {
    FinerMatches(m, r.tag.ty, want);
    assert IsAttr(r.tag.ty) && !IsSplice(r.tag.ty);
    hide Matches, Type1;
    NewestAppended(Padded(before.entries, id + 1)[id], ValueOf(r), m, want);
  }

  lemma StepMissing(before: State, r: Rec, m: Mask, want: nat, id: nat)
    requires IsAttr(want) && WellFormed([r]) && StepBack(r, m, want, id).Missing?
    ensures Get(Apply(before, r), m, want, id) == None
  {
    assert [r][0] == r;
    if Matches(m, r.tag.ty, want) { FinerMatches(m, r.tag.ty, want); }
    hide Matches;
    if IsAttr(r.tag.ty) { NewestAppended(Padded(before.entries, id + 1)[id], ValueOf(r), m, want); }
  }

  lemma NewestAppended(h: seq<Value>, v: Value, m: Mask, want: nat)
    ensures Newest(h + [v], m, want) ==
            if Matches(m, v.ty, want) then (if IsDeleted(v.size) then None else Some(v))
            else Newest(h, m, want)
  {
    assert (h + [v])[..|h|] == h;
  }

  lemma StepThrough(before: State, r: Rec, m: Mask, want: nat, id: nat, next: nat)
    requires IsAttr(want) && WellFormed([r])
    requires StepBack(r, m, want, id) == Through(next)
    ensures Get(Apply(before, r), m, want, id) == Get(before, m, want, next)
  {
    if IsSplice(r.tag.ty) {
      assert [r][0] == r;
      StepThroughSplice(before, r, m, want, id);
    } else if IsAttr(r.tag.ty) {
      StepThroughAttr(before, r, m, want, id);
    }
  }

  lemma StepThroughSplice(before: State, r: Rec, m: Mask, want: nat, id: nat)
    requires r.tag.ty == TYPE_CREATE ==> r.tag.id != id
    requires r.tag.ty == TYPE_CREATE || r.tag.ty == TYPE_DELETE
    ensures Get(Apply(before, r), m, want, id) ==
            Get(before, m, want, if r.tag.id <= id then id - Splice(r.tag.ty) else id)
  {
  }

  lemma StepThroughAttr(before: State, r: Rec, m: Mask, want: nat, id: nat)
    requires IsAttr(r.tag.ty) && !(Matches(m, r.tag.ty, want) && r.tag.id == id)
    ensures Get(Apply(before, r), m, want, id) == Get(before, m, want, id)
  {
    AttrApplied(before, r);
    hide Matches, Type1, IsAttr, Apply, Newest;
    var grown := Padded(before.entries, r.tag.id + 1);
    if id < |grown| && |before.entries| <= id { NothingWritten(m, want); }
    if r.tag.id == id { NewestAppended(grown[id], ValueOf(r), m, want); }
  }

  /** The newest name of an entry, if its type is below 0x80, is what a lookup of names under 0x780 finds. */
  lemma NameUnderMiddle(h: seq<Value>)
    requires Newest(h, Coarse, TYPE_NAME).Some? && Newest(h, Coarse, TYPE_NAME).value.ty < 0x80
    ensures Newest(h, Middle, TYPE_NAME) == Newest(h, Coarse, TYPE_NAME)
  {
  }

  /** So the backward scan finds every file and directory by name, as reading its attributes does. */
  lemma NameFound(log: seq<Rec>, hidden: Option<nat>, id: nat)
    requires WellFormed(log)
    requires Lookup(log, hidden, Coarse, TYPE_NAME, id).Some?
    requires Lookup(log, hidden, Coarse, TYPE_NAME, id).value.ty < 0x80
    ensures Lookup(log, hidden, Middle, TYPE_NAME, id) == Lookup(log, hidden, Coarse, TYPE_NAME, id)
  {
    hide Replay, LookupBack, Newest, WellFormed;
    var at := StartId(hidden, id);
    LookupRefinesReplay(log, Coarse, TYPE_NAME, at);
    LookupRefinesReplay(log, Middle, TYPE_NAME, at);
    NameUnderMiddle(Replay(log).entries[at]);
  }

  /** A name just written for an entry is found, whatever kind of file it is the name of. */
  lemma NameWritten(log: seq<Rec>, r: Rec)
    requires WellFormed(log) && r.tag.ty < 0x80 && !IsDeleted(r.tag.size)
    ensures Lookup(log + [r], None, Middle, TYPE_NAME, r.tag.id) == Some(ValueOf(r))
  {
    var all := log + [r];
    assert all[..|all| - 1] == log && all[|all| - 1] == r;
  }

  lemma AttrApplied(before: State, r: Rec)
    requires IsAttr(r.tag.ty)
    ensures var grown := Padded(before.entries, r.tag.id + 1);
            Apply(before, r).entries == grown[r.tag.id := grown[r.tag.id] + [ValueOf(r)]]
  {
    assert r.tag.ty != TYPE_CREATE && r.tag.ty != TYPE_DELETE;
    hide Type1, IsAttr;
  }

  lemma NothingWritten(m: Mask, want: nat)
    ensures Newest([], m, want) == None
  {
  }

  // ---------------------------------------------------------------- pending moves

  /** A directory with one entry taken out: what a reader sees while that entry is pending removal. */
  function Hide(st: State, hidden: Option<nat>): State
  {
    match hidden
    case None => st
    case Some(h) =>
      State(st.count, if h < |st.entries| then st.entries[..h] + st.entries[h + 1..] else st.entries)
  }

  /** The running id a lookup starts from: ids at or above a hidden entry are shifted by one. */
  function StartId(hidden: Option<nat>, id: nat): nat
  {
    if hidden.Some? && hidden.value <= id then id + 1 else id
  }

  /** The backward scan as readers call it, skipping the entry a pending move has hidden. */
  function Lookup(log: seq<Rec>, hidden: Option<nat>, m: Mask, want: nat, id: nat): Option<Value>
  {
    LookupBack(log, m, want, StartId(hidden, id))
  }

  lemma HiddenLookup(log: seq<Rec>, hidden: Option<nat>, m: Mask, want: nat, id: nat)
    requires WellFormed(log) && IsAttr(want)
    ensures Lookup(log, hidden, m, want, id) == Get(Hide(Replay(log), hidden), m, want, id)
  {
    hide LookupBack, Replay, Newest;
    LookupRefinesReplay(log, m, want, StartId(hidden, id));
  }

  // ---------------------------------------------------------------- tags without an id

  /** The newest tag of exactly type `ty`; global tags are not renumbered. */
  function NewestGlobal(log: seq<Rec>, ty: nat): Option<Rec>
  {
    if log == [] then None
    else if log[|log| - 1].tag.ty == ty then Some(log[|log| - 1])
    else NewestGlobal(log[..|log| - 1], ty)
  }
}
