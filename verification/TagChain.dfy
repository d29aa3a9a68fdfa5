/**
 A metadata block as bytes: a revision word, then tags XORed with their predecessors, cut into
 commits by checksum tags. Scanning forwards (lfs_dir_fetchmatch) recovers what was written;
 walking backwards from the last tag (lfs_dir_getslice) meets the same tags in reverse.
 */
module TagChain {
  import opened Common
  import opened Crc32
  import opened DirLog
  import opened TagWord

  const TYPE_FCRC: nat := 0x5ff

  const CRC_START: Register := Register(0xffff_ffff)

  /** A commit's checksum starts as that of CRC-32 does. */
  lemma StartsAsCrc32()
    ensures Crc(CRC_START, [0x31, 0x32, 0x33, 0x34, 0x35, 0x36, 0x37, 0x38, 0x39]) ==
            Register(0xcbf4_3926 ^ 0xffff_ffff)
  {
    hide Crc;
    CheckValue();
  }

  /** A checksum tag that ends a commit (types 0x500 to 0x57f). */
  predicate EndsCommit(w: Word) { TypeOf(w) / 0x80 == 10 }

  /** A decoded tag with its payload. */
  datatype Entry = Entry(tag: Word, data: seq<bv8>)

  function LengthOf(w: Word): (r: nat)
    ensures 4 <= r < 0x403
  {
    DiskSize(Unpack(w))
  }

  /** What the next tag is XORed with: a commit may perturb its valid bit. */
  function NextPtag(w: Word): Word
  {
    if EndsCommit(w) && TypeOf(w) % 2 == 1 then Flip(w) else w
  }

  lemma CommitField(a: Word)
    ensures a.bits & 0x7800_0000 == 0x5000_0000 <==> Shifted(Type(a), 7) == Field(10)
  {
  }

  lemma NumberTen()
    ensures Number(Field(10)) == 10
  {
  }

  /** As the code tests it: the type under 0x780 is 0x500. */
  lemma EndsCommitBits(w: Word)
    ensures EndsCommit(w) <==> w.bits & 0x7800_0000 == 0x5000_0000
  {
    hide TypeOf, Number, Type, Shifted;
    NumberOfType(w);
    BlockOf80(Type(w));
    CommitField(w);
    NumberTen();
    NumberInjective(Shifted(Type(w), 7), Field(10));
  }

  lemma FlippedBit(w: Word)
    ensures Flip(w) == Word(w.bits ^ 0x8000_0000)
  {
  }

  /** As the code perturbs it: behind a checksum tag the lowest bit of its type is added to the valid bit. */
  lemma NextPtagBits(w: Word)
    ensures NextPtag(w).bits ==
            if w.bits & 0x7800_0000 == 0x5000_0000 then w.bits ^ ((w.bits & 0x10_0000) << 11) else w.bits
  {
    hide TypeOf, EndsCommit, Flip;
    EndsCommitBits(w);
    ParityBit(w);
    FlippedBit(w);
  }

  lemma SizeBits(w: Word)
    ensures SizeOf(w) == 0x3ff <==> w.bits & 0x3ff == 0x3ff
    ensures w.bits & 0x3ff != 0x3ff ==> SizeOf(w) == ((w.bits + 0) & 0x3ff) as nat
  {
  }

  lemma AllOnes(w: Word)
    requires w.bits & 0x3ff == 0x3ff
    ensures ((w.bits + 1) & 0x3ff) == 0
  {
  }

  /** The length as the code computes it: the size field, increased by one without a carry if it is all ones. */
  lemma LengthBits(w: Word)
    ensures LengthOf(w) == 4 + ((w.bits + if w.bits & 0x3ff == 0x3ff then 1 else 0) & 0x3ff) as nat
  {
    hide SizeOf;
    SizeBits(w);
    if w.bits & 0x3ff == 0x3ff { AllOnes(w); }
  }

  // ---------------------------------------------------------------- what a scan has seen

  /** What a fetch remembers of the tags read so far. */
  datatype View = View(count: int, tail: Option<seq<bv8>>, split: bool, fcrc: Option<seq<bv8>>, log: seq<Entry>)

  const NOTHING: View := View(0, None, false, None, [])

  function Noted(v: View, e: Entry): View
  {
    var t := Unpack(e.tag);
    var w := v.(log := v.log + [e]);
    if Type1(t.ty) == TYPE_NAME then w.(count := if t.id >= v.count then t.id + 1 else v.count)
    else if Type1(t.ty) == TYPE_SPLICE then w.(count := v.count + Splice(t.ty))
    else if Type1(t.ty) == TYPE_TAIL && |e.data| >= 8 then w.(split := t.ty % 2 == 1, tail := Some(e.data[..8]))
    else if t.ty == TYPE_FCRC && |e.data| >= 8 then w.(fcrc := Some(e.data[..8]))
    else w
  }

  /** A place between two tags: the next offset, the tag to XOR with and the running checksum. */
  datatype Cursor = Cursor(off: nat, ptag: Word, crc: Register, view: View)

  function StartCursor(rev: seq<bv8>): Cursor { Cursor(4, FIRST, Crc(CRC_START, rev), NOTHING) }

  function After(c: Cursor, e: Entry): Cursor
  {
    var word := BeBytes(XorTag(e.tag, c.ptag));
    Cursor(c.off + LengthOf(e.tag), NextPtag(e.tag),
           if EndsCommit(e.tag) then CRC_START else Crc(c.crc, word + e.data), Noted(c.view, e))
  }

  /** Tails and forward checksums carry at least the eight bytes a fetch reads. */
  predicate Shaped(e: Entry)
  {
    var t := Unpack(e.tag);
    && Valid(e.tag)
    && |e.data| == LengthOf(e.tag) - 4
    && (Type1(t.ty) == TYPE_TAIL || t.ty == TYPE_FCRC ==> |e.data| >= 8)
  }

  /** A commit checksum stores the running checksum up to and including its own tag. */
  predicate Sealed(c: Cursor, e: Entry)
  {
    EndsCommit(e.tag) ==>
      |e.data| >= 4 && e.data[..4] == Le32(Crc(c.crc, BeBytes(XorTag(e.tag, c.ptag))).bits)
  }

  // ---------------------------------------------------------------- the forward scan

  datatype Step = Halt(maybeErased: bool) | Advance(entry: Entry)

  /** One turn of the fetch loop over block `b`. */
  function ScanStep(b: seq<bv8>, c: Cursor): Step
  {
    if c.off + 4 > |b| then Halt(false)
    else
      var word := b[c.off..c.off + 4];
      var tag := XorTag(BeWord(word), c.ptag);
      if !Valid(tag) then Halt(EndsCommit(c.ptag))
      else if c.off + LengthOf(tag) > |b| then Halt(false)
      else
        var e := Entry(tag, b[c.off + 4..c.off + LengthOf(tag)]);
        if EndsCommit(tag) then
          if c.off + 8 <= |b| && b[c.off + 4..c.off + 8] == Le32(Crc(c.crc, word).bits) then Advance(e) else Halt(false)
        else if (Type1(TypeOf(tag)) == TYPE_TAIL || TypeOf(tag) == TYPE_FCRC) && |e.data| < 8 then Halt(false)
        else Advance(e)
  }

  /** The outcome of scanning a block: the last complete commit, and how the scan stopped. */
  datatype Scanned = Scanned(best: Option<Cursor>, last: Cursor, maybeErased: bool)

  function Scan(b: seq<bv8>, c: Cursor, best: Option<Cursor>): Scanned
    decreases |b| - c.off
  {
    match ScanStep(b, c)
    case Halt(maybeErased) => Scanned(best, c, maybeErased)
    case Advance(e) =>
      var next := After(c, e);
      Scan(b, next, if EndsCommit(e.tag) then Some(next) else best)
  }

  // ---------------------------------------------------------------- blocks as written

  predicate Stored(b: seq<bv8>, c: Cursor, e: Entry)
  {
    && c.off + LengthOf(e.tag) <= |b|
    && b[c.off..c.off + 4] == BeBytes(XorTag(e.tag, c.ptag))
    && b[c.off + 4..c.off + LengthOf(e.tag)] == e.data
  }

  /** Block `b` holds the entries `es` from cursor `c` on. */
  predicate Written(b: seq<bv8>, c: Cursor, es: seq<Entry>)
    decreases |es|
  {
    es == [] ||
    (Shaped(es[0]) && Sealed(c, es[0]) && Stored(b, c, es[0]) && Written(b, After(c, es[0]), es[1..]))
  }

  function AfterAll(c: Cursor, es: seq<Entry>): Cursor
    decreases |es|
  {
    if es == [] then c else AfterAll(After(c, es[0]), es[1..])
  }

  function BestAfter(c: Cursor, es: seq<Entry>, best: Option<Cursor>): Option<Cursor>
    decreases |es|
  {
    if es == [] then best
    else
      var next := After(c, es[0]);
      BestAfter(next, es[1..], if EndsCommit(es[0].tag) then Some(next) else best)
  }

  lemma SliceFront(b: seq<bv8>, lo: nat, hi: nat)
    requires lo + 8 <= hi <= |b|
    ensures b[lo + 4..hi][..4] == b[lo + 4..lo + 8]
  {
  }

  /** The scan reads back one entry exactly as it was written. */
  lemma ScanStored(b: seq<bv8>, c: Cursor, e: Entry)
    requires Shaped(e) && Sealed(c, e) && Stored(b, c, e)
    ensures ScanStep(b, c) == Advance(e)
  {
    hide XorTag, BeWord, Valid, TypeOf, SizeOf, IdOf, Crc;
    BeRoundTrip(XorTag(e.tag, c.ptag));
    XorTagTwice(e.tag, c.ptag);
    if EndsCommit(e.tag) { SliceFront(b, c.off, c.off + LengthOf(e.tag)); }
  }

  /** Forward round trip: scanning over written entries decodes exactly those entries. */
  lemma {:induction false} ScanWritten(b: seq<bv8>, c: Cursor, es: seq<Entry>, best: Option<Cursor>)
    requires Written(b, c, es)
    ensures Scan(b, c, best) == Scan(b, AfterAll(c, es), BestAfter(c, es, best))
    decreases |es|
  {
    hide After, ScanStep, Stored, Sealed, Shaped, EndsCommit;
    if es != [] {
      ScanStored(b, c, es[0]);
      var next := After(c, es[0]);
      ScanWritten(b, next, es[1..], if EndsCommit(es[0].tag) then Some(next) else best);
    }
  }

  lemma AfterGrows(c: Cursor, e: Entry)
    ensures After(c, e).view == Noted(c.view, e) && After(c, e).view.log == c.view.log + [e]
    ensures After(c, e).off == c.off + LengthOf(e.tag) && After(c, e).ptag == NextPtag(e.tag)
  {
    hide Crc, XorTag, TypeOf, SizeOf, IdOf, Flip;
  }

  lemma {:induction false} LogGrows(c: Cursor, es: seq<Entry>)
    ensures AfterAll(c, es).view.log == c.view.log + es
    ensures AfterAll(c, es).off >= c.off
    decreases |es|
  {
    hide After, LengthOf, Noted, NextPtag;
    if es != [] {
      AfterGrows(c, es[0]);
      LogGrows(After(c, es[0]), es[1..]);
      assert c.view.log + [es[0]] + es[1..] == c.view.log + es;
    }
  }

  /** What is written up to an offset depends on no byte from that offset on. */
  lemma {:induction false} WrittenFrame(b: seq<bv8>, d: seq<bv8>, c: Cursor, es: seq<Entry>)
    requires Written(b, c, es) && |b| == |d|
    requires var to := AfterAll(c, es).off; to <= |b| && b[..to] == d[..to]
    ensures Written(d, c, es)
    decreases |es|
  {
    hide After, Sealed, Shaped;
    if es != [] {
      var next := After(c, es[0]);
      LogGrows(next, es[1..]);
      StoredFrame(b, d, c, es[0], AfterAll(c, es).off);
      WrittenFrame(b, d, next, es[1..]);
    }
  }

  lemma StoredFrame(b: seq<bv8>, d: seq<bv8>, c: Cursor, e: Entry, to: nat)
    requires Stored(b, c, e) && |b| == |d| && After(c, e).off <= to <= |b| && b[..to] == d[..to]
    ensures Stored(d, c, e)
  {
    hide XorTag, Crc;
    assert c.off + LengthOf(e.tag) <= to;
    assert forall i, j :: 0 <= i <= j <= to ==> d[i..j] == d[..to][i..j] == b[..to][i..j] == b[i..j];
  }

  lemma {:induction false} WrittenConcat(b: seq<bv8>, c: Cursor, es: seq<Entry>, fs: seq<Entry>)
    ensures Written(b, c, es + fs) <==> Written(b, c, es) && Written(b, AfterAll(c, es), fs)
    ensures AfterAll(c, es + fs) == AfterAll(AfterAll(c, es), fs)
    decreases |es|
  {
    hide After, Sealed, Shaped, Stored;
    if es == [] {
      assert es + fs == fs;
    } else {
      assert (es + fs)[1..] == es[1..] + fs;
      WrittenConcat(b, After(c, es[0]), es[1..], fs);
    }
  }

  /** A block whose last written tag ends a commit: the state a fetch of it restores. */
  predicate Complete(es: seq<Entry>) { es != [] && EndsCommit(es[|es| - 1].tag) }

  lemma {:induction false} BestOfComplete(c: Cursor, es: seq<Entry>, best: Option<Cursor>)
    requires Complete(es)
    ensures BestAfter(c, es, best) == Some(AfterAll(c, es))
    decreases |es|
  {
    hide After;
    if |es| > 1 {
      var next := After(c, es[0]);
      BestOfComplete(next, es[1..], if EndsCommit(es[0].tag) then Some(next) else best);
    }
  }

  // ---------------------------------------------------------------- the log a block denotes

  function RecOf(e: Entry): Rec { Rec(Unpack(e.tag), e.data) }

  function RecsOf(es: seq<Entry>): (r: seq<Rec>)
    ensures |r| == |es|
    ensures forall i :: 0 <= i < |es| ==> r[i] == RecOf(es[i])
  {
    seq(|es|, i requires 0 <= i < |es| => RecOf(es[i]))
  }

  function NotedAll(v: View, es: seq<Entry>): View
  {
    if es == [] then v else Noted(NotedAll(v, es[..|es| - 1]), es[|es| - 1])
  }

  lemma {:induction false} ViewAfterAll(c: Cursor, es: seq<Entry>)
    ensures AfterAll(c, es).view == NotedAll(c.view, es)
  {
    hide After, Noted;
    if es != [] {
      var front, e := es[..|es| - 1], es[|es| - 1];
      assert es == front + [e];
      ViewAfterAll(c, front);
      AfterGrows(AfterAll(c, front), e);
      AfterLast(c, front, e);
    }
  }

  lemma AfterLast(c: Cursor, es: seq<Entry>, e: Entry)
    ensures AfterAll(c, es + [e]) == After(AfterAll(c, es), e)
  {
    hide After, Written;
    WrittenConcat([], c, es, [e]);
    var m := AfterAll(c, es);
    assert [e][1..] == [] && AfterAll(m, [e]) == AfterAll(After(m, e), []);
  }

  /** The entry count in the cursor a fetch ends with is the one the log denotes. */
  lemma CountMatchesReplay(rev: seq<bv8>, es: seq<Entry>)
    requires WellFormed(RecsOf(es))
    ensures AfterAll(StartCursor(rev), es).view.count == Replay(RecsOf(es)).count
  {
    hide AfterAll, NotedAll, Replay;
    ViewAfterAll(StartCursor(rev), es);
    NotedCount(es);
  }

  lemma {:induction false} NotedCount(es: seq<Entry>)
    requires WellFormed(RecsOf(es))
    ensures NotedAll(NOTHING, es).count == Replay(RecsOf(es)).count
  {
    if es != [] {
      var front, e := es[..|es| - 1], es[|es| - 1];
      assert RecsOf(es)[..|es| - 1] == RecsOf(front);
      NotedCount(front);
      assert RecsOf(es)[|es| - 1] == RecOf(e);
      CountStep(NotedAll(NOTHING, front), Replay(RecsOf(front)), e);
    }
  }

  lemma CountStep(v: View, st: State, e: Entry)
    requires v.count == st.count && WellFormed([RecOf(e)])
    ensures Noted(v, e).count == Apply(st, RecOf(e)).count
  {
    hide TypeOf, IdOf, SizeOf;
    assert [RecOf(e)][0] == RecOf(e);
  }

  // ---------------------------------------------------------------- the tail a fetch restores

  predicate IsTailTag(e: Entry) { Type1(TypeOf(e.tag)) == TYPE_TAIL }

  /** The newest tail of a run of tags. */
  function NewestTail(es: seq<Entry>): Option<Entry>
  {
    if es == [] then None
    else if IsTailTag(es[|es| - 1]) then Some(es[|es| - 1])
    else NewestTail(es[..|es| - 1])
  }

  predicate TailsShaped(es: seq<Entry>) { forall k :: 0 <= k < |es| && IsTailTag(es[k]) ==> |es[k].data| >= 8 }

  /**
   What is remembered of tails is the newest one: the pair it names, and as the split flag the
   lowest bit of its type, which tells a hard tail from a soft one.
   */
  lemma {:induction false} TailRemembered(es: seq<Entry>)
    requires TailsShaped(es)
    ensures var v := NotedAll(NOTHING, es);
            match NewestTail(es)
            case None => v.tail == None && !v.split
            case Some(e) => |e.data| >= 8 && v.tail == Some(e.data[..8]) && (v.split <==> e.tag.bits & 0x10_0000 != 0)
  {
    hide TypeOf, IdOf, SizeOf, Type1, Splice;
    if es != [] {
      var front, e := es[..|es| - 1], es[|es| - 1];
      TailRemembered(front);
      ParityBit(e.tag);
      TailStep(NotedAll(NOTHING, front), e);
    }
  }

  lemma TailStep(v: View, e: Entry)
    requires IsTailTag(e) ==> |e.data| >= 8
    ensures IsTailTag(e) ==> Noted(v, e).tail == Some(e.data[..8]) && (Noted(v, e).split <==> TypeOf(e.tag) % 2 == 1)
    ensures !IsTailTag(e) ==> Noted(v, e).tail == v.tail && Noted(v, e).split == v.split
  {
    hide TypeOf, IdOf, SizeOf, Type1, Splice;
  }

  /** A hard tail is one of type 0x601, a soft one of type 0x600. */
  lemma TailTypes(e: Entry)
    ensures TypeOf(e.tag) == 0x600 ==> IsTailTag(e) && e.tag.bits & 0x10_0000 == 0
    ensures TypeOf(e.tag) == 0x601 ==> IsTailTag(e) && e.tag.bits & 0x10_0000 != 0
  {
    hide TypeOf;
    ParityBit(e.tag);
  }

  // ---------------------------------------------------------------- walking backwards

  lemma WrittenAt(b: seq<bv8>, c: Cursor, es: seq<Entry>, k: nat)
    requires Written(b, c, es) && k < |es|
    ensures var m := AfterAll(c, es[..k]);
            Shaped(es[k]) && Stored(b, m, es[k]) && AfterAll(c, es[..k + 1]) == After(m, es[k])
  {
    hide After, Shaped, Sealed, Stored;
    assert es == es[..k] + es[k..];
    WrittenConcat(b, c, es[..k], es[k..]);
    assert es[..k + 1] == es[..k] + [es[k]];
    AfterLast(c, es[..k], es[k]);
  }

  /** The tag in hand while walking back: the one before the cursor, its valid bit possibly perturbed. */
  predicate InHand(ntag: Word, ptag: Word) { ntag == ptag || ntag == Clear(ptag) }

  lemma FieldsInHand(ntag: Word, tag: Word)
    requires Valid(tag) && InHand(ntag, NextPtag(tag))
    ensures Unpack(ntag) == Unpack(tag) && (ntag == tag || ntag == Flip(tag))
  {
    hide TypeOf, IdOf, SizeOf, Flip, Clear, Valid;
    FlipFields(tag);
    ClearValid(tag);
    ClearFlip(tag);
  }

  lemma PreviousTag(word: Word, tag: Word, ntag: Word, ptag: Word)
    requires word == XorTag(tag, ptag) && (ntag == tag || ntag == Flip(tag))
    ensures Clear(XorTag(word, ntag)) == Clear(ptag)
  {
    hide XorTag, Flip, Clear;
    XorTagSame(tag, ptag);
    XorTagFlip(tag, ptag);
  }

  lemma FirstInHand(ntag: Word)
    requires InHand(ntag, FIRST)
    ensures LengthOf(ntag) == 4
  {
    ClearFields(FIRST);
    FirstFields();
  }

  function Min(a: nat, b: nat): (r: nat)
    ensures r <= a && r <= b
  {
    if a < b then a else b
  }

  /** A caller's buffer of `size` bytes after reading `n` bytes of `b` from `at` on. */
  function Buffered(b: seq<bv8>, at: nat, n: nat, size: nat): seq<bv8>
    requires at + n <= |b| && n <= size
  {
    b[at..at + n] + seq(size - n, _ => 0)
  }

  /** The walk stands right after entry `k - 1`, with that entry's tag in hand. */
  predicate Standing(start: Cursor, es: seq<Entry>, k: nat, off: nat, ntag: Word)
  {
    k <= |es| && off == AfterAll(start, es[..k]).off && InHand(ntag, AfterAll(start, es[..k]).ptag)
  }

  /** There is a whole tag behind exactly when the revision word has not been reached. */
  lemma MoreBehind(b: seq<bv8>, start: Cursor, es: seq<Entry>, k: nat, off: nat, ntag: Word)
    requires Written(b, start, es) && start.off == 4 && start.ptag == FIRST
    requires Standing(start, es, k, off, ntag)
    ensures off >= 4 + LengthOf(ntag) <==> k > 0
  {
    hide After, Sealed, Shaped, Written, InHand, LengthOf, NextPtag;
    if k == 0 {
      assert es[..0] == [];
      FirstInHand(ntag);
    } else {
      WrittenAt(b, start, es, k - 1);
      AfterGrows(AfterAll(start, es[..k - 1]), es[k - 1]);
      ShapedValid(es[k - 1]);
      FieldsInHand(ntag, es[k - 1].tag);
      LengthOfFields(ntag, es[k - 1].tag);
      LogGrows(start, es[..k - 1]);
    }
  }

  lemma ShapedValid(e: Entry)
    requires Shaped(e)
    ensures Valid(e.tag) && |e.data| == LengthOf(e.tag) - 4
  {
  }

  lemma LengthOfFields(a: Word, b: Word)
    requires Unpack(a) == Unpack(b)
    ensures LengthOf(a) == LengthOf(b)
  {
  }

  /** Stepping over one tag: its fields and payload are those written, and the one before it comes to hand. */
  lemma StepOver(b: seq<bv8>, start: Cursor, es: seq<Entry>, k: nat, off: nat, ntag: Word)
    requires Written(b, start, es) && Standing(start, es, k, off, ntag) && k > 0
    ensures Unpack(ntag) == Unpack(es[k - 1].tag)
    ensures LengthOf(ntag) <= off <= |b|
    ensures b[off - LengthOf(ntag) + 4..off] == es[k - 1].data
    ensures var at := off - LengthOf(ntag);
            Standing(start, es, k - 1, at, Clear(XorTag(BeWord(b[at..at + 4]), ntag)))
  {
    hide After, Sealed, Shaped, Written, LengthOf, NextPtag, XorTag, Clear, BeWord, BeBytes, Unpack, Flip;
    var c, e := AfterAll(start, es[..k - 1]), es[k - 1];
    WrittenAt(b, start, es, k - 1);
    AfterGrows(c, e);
    ShapedValid(e);
    FieldsInHand(ntag, e.tag);
    LengthOfFields(ntag, e.tag);
    BeRoundTrip(XorTag(e.tag, c.ptag));
    PreviousTag(XorTag(e.tag, c.ptag), e.tag, ntag, c.ptag);
  }

  lemma LookupStep(es: seq<Entry>, k: nat, m: Mask, want: nat, cur: nat)
    requires 0 < k <= |es|
    ensures LookupBack(RecsOf(es[..k]), m, want, cur) ==
            match StepBack(RecOf(es[k - 1]), m, want, cur)
            case Through(next) => LookupBack(RecsOf(es[..k - 1]), m, want, next)
            case Found(v) => Some(v)
            case Missing => None
  {
    hide StepBack;
    assert RecsOf(es[..k])[..k - 1] == RecsOf(es[..k - 1]);
    assert RecsOf(es[..k])[k - 1] == RecOf(es[k - 1]);
  }

  /**
   The byte-level lookup: from the end of the last commit back to the revision word. It answers
   what the abstract lookup answers, and fills a buffer of `gsize` bytes from `goff` bytes into the
   value found, which starts at `at`. As many bytes are read as the smaller of value and buffer has,
   so a slice that starts inside the value can run on into what follows it, and fails only past the
   block's end.
   */
  method GetSlice(b: seq<bv8>, rev: seq<bv8>, ghost es: seq<Entry>, off0: nat, etag: Word,
                  hidden: Option<nat>, m: Mask, want: nat, gid: nat, goff: nat, gsize: nat)
      returns (found: Result<Value>, buffer: seq<bv8>, ghost at: nat)
    requires IsAttr(want) && WellFormed(RecsOf(es))
    requires Written(b, StartCursor(rev), es)
    requires off0 == AfterAll(StartCursor(rev), es).off && etag == AfterAll(StartCursor(rev), es).ptag
    ensures found == Err(NoEnt) <==> Lookup(RecsOf(es), hidden, m, want, gid) == None
    ensures found.Ok? ==> Lookup(RecsOf(es), hidden, m, want, gid) == Some(found.value) && |buffer| == gsize
    ensures found.Ok? && goff + Min(|found.value.data|, gsize) <= |found.value.data| ==>
              var n := Min(|found.value.data|, gsize);
              buffer == found.value.data[goff..goff + n] + seq(gsize - n, _ => 0)
    ensures match Lookup(RecsOf(es), hidden, m, want, gid)
            case None => true
            case Some(v) =>
              var n := Min(|v.data|, gsize);
              && at + |v.data| <= |b| && b[at..at + |v.data|] == v.data
              && found == (if at + goff + n <= |b| then Ok(v) else Err(Corrupt))
              && (found.Ok? ==> buffer == Buffered(b, at + goff, n, gsize))
  {
    hide XorTag, BeWord, Clear, Flip, TypeOf, IdOf, SizeOf, Written, AfterAll, LookupBack, Standing, Matches, Splice;
    ghost var start := StartCursor(rev);
    var off: nat, ntag, cur: nat := off0, etag, StartId(hidden, gid);
    buffer, at := [], 0;
    ghost var k: nat := |es|;
    assert es[..k] == es;
    StandingAtEnd(start, es, off, ntag);
    MoreBehind(b, start, es, k, off, ntag);
    while off >= 4 + LengthOf(ntag)
      invariant k <= |es| && Standing(start, es, k, off, ntag)
      invariant off >= 4 + LengthOf(ntag) <==> k > 0
      invariant Lookup(RecsOf(es), hidden, m, want, gid) == LookupBack(RecsOf(es[..k]), m, want, cur)
      decreases k
    {
      StepOver(b, start, es, k, off, ntag);
      LookupStep(es, k, m, want, cur);
      var tag, end := ntag, off;
      off := off - LengthOf(ntag);
      ntag := Clear(XorTag(BeWord(b[off..off + 4]), tag));
      MoreBehind(b, start, es, k - 1, off, ntag);
      assert 4 <= LengthOf(tag);
      var r := Rec(Unpack(tag), b[off + 4..end]);
      assert r == RecOf(es[k - 1]) == RecsOf(es)[k - 1];
      var w := TryTag(r, m, want, cur);
      match w {
        case Missing => return Err(NoEnt), [], 0;
        case Found(v) =>
          var diff := Min(|v.data|, gsize);
          at := off + 4;
          if off + 4 + goff + diff > |b| { return Err(Corrupt), [], at; }
          if goff + diff <= |v.data| { SliceOfValue(b, at, v.data, goff, gsize); }
          return Ok(v), Buffered(b, off + 4 + goff, diff, gsize), at;
        case Through(next) => cur := next;
      }
      k := k - 1;
    }
    NothingLeft(es, m, want, cur);
    found := Err(NoEnt);
  }

  lemma StandingAtEnd(start: Cursor, es: seq<Entry>, off: nat, ntag: Word)
    requires off == AfterAll(start, es).off && ntag == AfterAll(start, es).ptag
    ensures Standing(start, es, |es|, off, ntag)
  {
    hide AfterAll;
    assert es[..|es|] == es;
  }

  lemma NothingLeft(es: seq<Entry>, m: Mask, want: nat, cur: nat)
    ensures LookupBack(RecsOf(es[..0]), m, want, cur) == None
  {
    assert RecsOf(es[..0]) == [];
  }

  /** A slice that ends inside the value is a slice of the value. */
  lemma SliceOfValue(b: seq<bv8>, at: nat, data: seq<bv8>, goff: nat, gsize: nat)
    requires at + |data| <= |b| && b[at..at + |data|] == data
    requires goff + Min(|data|, gsize) <= |data|
    ensures var n := Min(|data|, gsize);
            at + goff + n <= |b| && Buffered(b, at + goff, n, gsize) == data[goff..goff + n] + seq(gsize - n, _ => 0)
  {
    var n := Min(|data|, gsize);
    var part, value := b[at + goff..at + goff + n], b[at..at + |data|];
    forall k | 0 <= k < n ensures part[k] == value[goff + k] {
      assert value[goff + k] == b[at + goff + k];
    }
    assert part == value[goff..goff + n];
  }

  /** The body of the lookup loop for one decoded tag. */
  method TryTag(r: Rec, m: Mask, want: nat, cur: nat) returns (w: Walked)
    requires WellFormed([r])
    ensures w == StepBack(r, m, want, cur)
  {
    assert [r][0] == r;
    var t, next := r.tag, cur;
    if IsSplice(t.ty) && t.id <= cur {
      if t == Tag(TYPE_CREATE, cur, 0) { return Missing; }
      next := cur - Splice(t.ty);
    }
    if Matches(m, t.ty, want) && t.id == next {
      return if IsDeleted(t.size) then Missing else Found(ValueOf(r));
    }
    return Through(next);
  }
}
