/**
 Blocks for a file, from the allocator: what it hands out while a file is written is what the file
 is promised, blocks that are in no list.
 */
module FileSpace {
  import opened Allocator
  import opened Common
  import opened CowFile
  import opened TagWord

  function NumberOf(c: Word): nat { c.bits as nat }

  /** Block addresses as the file keeps them, and their numbers. */
  predicate Numbered(cs: seq<Word>, bs: seq<nat>)
  {
    |cs| == |bs| && forall k :: 0 <= k < |bs| ==> NumberOf(cs[k]) == bs[k]
  }

  predicate Distinct(bs: seq<nat>) { forall i, j :: 0 <= i < j < |bs| ==> bs[i] != bs[j] }

  function Elements(bs: seq<nat>): set<nat> { set b | b in bs }

  /** The blocks of the lists of a file, committed and being written. */
  ghost predicate ListsIn(file: File, blocks: set<nat>)
    reads file
  {
    forall c :: c in file.chain || c in file.newChain ==> NumberOf(c) in blocks
  }

  /**
   The blocks handed out by the next `n` extensions of a file, each after an acknowledgement and part
   of what the next traversal reports: all different, and none of them in use before. Where traversals
   succeed, they are fewer only when every block was seen in use.
   */
  method TakeBlocks(a: Allocator, tree: seq<nat>, n: nat, readable: bool) returns (bs: seq<nat>, error: Option<Error>)
    requires a.Valid() && forall b :: b in tree <==> b in a.live
    modifies a, a.buffer
    ensures a.Valid() && a.live == old(a.live) + Elements(bs)
    ensures Distinct(bs) && forall b :: b in bs ==> b < a.blockCount && b !in old(a.live)
    ensures |bs| <= n && (error.None? <==> |bs| == n)
    ensures error.Some? && readable ==> error == Some(NoSpc)
    ensures error == Some(NoSpc) ==> forall b :: 0 <= b < a.blockCount ==> b in a.skipped && b in a.skipped[b]
  {
    bs, error := [], None;
    while |bs| < n
      invariant a.Valid() && a.live == old(a.live) + Elements(bs)
      invariant Distinct(bs) && forall b :: b in bs ==> b < a.blockCount && b !in old(a.live)
      invariant |bs| <= n
      decreases n - |bs|
    {
      a.Ack();
      var r := a.Alloc(tree + bs, readable);
      if r.Err? {
        error := Some(r.error);
        return;
      }
      a.Publish({r.value});
      bs := bs + [r.value];
    }
  }

  /** Blocks taken this way are what a file is promised of its free blocks. */
  lemma TakenIsPool(file: File, live: set<nat>, bs: seq<nat>)
    requires ListsIn(file, live) && Distinct(bs) && forall b :: b in bs ==> b !in live
    requires Numbered(file.free, bs)
    ensures file.Pool()
  {
    hide NumberOf;
    forall c | c in file.free ensures c !in file.chain && c !in file.newChain {
      var k :| 0 <= k < |bs| && file.free[k] == c;
      assert NumberOf(c) == bs[k] && bs[k] in bs;
    }
    forall i, j | 0 <= i < j < |file.free| ensures file.free[i] != file.free[j] {
      assert NumberOf(file.free[i]) == bs[i] && NumberOf(file.free[j]) == bs[j];
    }
  }
}
