/** The explosion filter: which blocks an explosion may destroy.

    When an explosion computes its list of affected blocks, every block that
    should be protected is removed from that list in place, and the rest keep
    their order. TNT is always left to explode; any other block is protected
    exactly when its ledger history says a player placed it.
 */
module ExplosionFilter {
  import opened Ledger
  import opened Provenance

  /** A block type, identified by its name. */
  datatype Material = Material(name: string)

  /** The one material that is never protected, so chained TNT still goes
      off. */
  const TNT: Material := Material("TNT")

  /** A block in an explosion's list: its type and what the ledger answers
      when asked for its history. */
  datatype Block = Block(material: Material, lookup: Lookup)

  /** The protection rule for a single block. */
  function ShouldProtect(apiPresent: bool, b: Block): bool
  {
    if b.material == TNT then false else Verdict(apiPresent, b.lookup)
  }

  /** The blocks left in the explosion's list once the protected ones are
      removed (the blocks the explosion destroys), in their original order. */
  function Unprotected(apiPresent: bool, blocks: seq<Block>): (kept: seq<Block>)
    ensures |kept| + ProtectedCount(apiPresent, blocks) == |blocks|
    decreases |blocks|
  {
    if |blocks| == 0 then []
    else
      var last := blocks[|blocks| - 1];
      Unprotected(apiPresent, blocks[..|blocks| - 1])
        + (if ShouldProtect(apiPresent, last) then [] else [last])
  }

  /** How many blocks of the list are protected. */
  function ProtectedCount(apiPresent: bool, blocks: seq<Block>): nat
    decreases |blocks|
  {
    if |blocks| == 0 then 0
    else
      ProtectedCount(apiPresent, blocks[..|blocks| - 1])
        + (if ShouldProtect(apiPresent, blocks[|blocks| - 1]) then 1 else 0)
  }

  /** The positions of the unprotected blocks: one per block left in the
      list, each a position of the original list, strictly increasing. */
  function UnprotectedIndices(apiPresent: bool, blocks: seq<Block>): (idx: seq<nat>)
    ensures |idx| == |Unprotected(apiPresent, blocks)|
    ensures forall i :: 0 <= i < |idx| ==> idx[i] < |blocks|
    ensures forall i, j :: 0 <= i < j < |idx| ==> idx[i] < idx[j]
    decreases |blocks|
  {
    if |blocks| == 0 then []
    else
      var n := |blocks| - 1;
      UnprotectedIndices(apiPresent, blocks[..n])
        + (if ShouldProtect(apiPresent, blocks[n]) then [] else [n])
  }

  /** The per-block decision as the source makes it: TNT first, then the
      ledger. */
  method ShouldProtectBlock(apiPresent: bool, b: Block) returns (protect: bool)
    ensures b.material == TNT ==> !protect
    ensures protect <==>
              b.material != TNT && apiPresent && b.lookup.Entries? &&
              exists k :: PlayerPlacedAt(b.lookup.history, k)
    ensures protect == ShouldProtect(apiPresent, b)
  {
    if b.material == TNT {
      return false;
    }
    protect := IsPlayerPlaced(apiPresent, b.lookup);
  }

  /** Removes every protected block from the explosion's list. A null list
      stays null; otherwise the result is the list with the protected blocks
      taken out and the others in their original order. */
  method ProtectPlacedBlocks(apiPresent: bool, blocks: Option<seq<Block>>)
    returns (after: Option<seq<Block>>)
    ensures blocks.None? ==> after.None?
    ensures blocks.Some? ==> after.Some?
    ensures blocks.Some? ==>
              forall b :: b in after.value <==>
                b in blocks.value && !ShouldProtect(apiPresent, b)
    ensures blocks.Some? ==>
              |after.value| + ProtectedCount(apiPresent, blocks.value) == |blocks.value|
    ensures blocks.Some? ==> after.value == Unprotected(apiPresent, blocks.value)
  {
    if blocks.None? || |blocks.value| == 0 {
      return blocks;
    }
    var bs := blocks.value;
    var kept: seq<Block> := [];
    var i := 0;
    while i < |bs|
      invariant 0 <= i <= |bs|
      invariant kept == Unprotected(apiPresent, bs[..i])
    {
      var protect := ShouldProtectBlock(apiPresent, bs[i]);
      assert bs[..i + 1][..i] == bs[..i];
      assert Unprotected(apiPresent, bs[..i + 1]) ==
               Unprotected(apiPresent, bs[..i]) + (if protect then [] else [bs[i]]);
      if !protect {
        kept := kept + [bs[i]];
      }
      i := i + 1;
    }
    assert bs[..i] == bs;
    UnprotectedMembers(apiPresent, bs);
    after := Some(kept);
  }

  /** The protection rule, read against the ledger history: a block is
      protected exactly when it is not TNT, the ledger is available, and the
      newest placement in its history names a real player. */
  lemma ProtectionRule(apiPresent: bool, b: Block)
    ensures b.material == TNT ==> !ShouldProtect(apiPresent, b)
    ensures b.material != TNT ==>
              ShouldProtect(apiPresent, b) == Verdict(apiPresent, b.lookup)
    ensures ShouldProtect(apiPresent, b) <==>
              b.material != TNT && apiPresent && b.lookup.Entries? &&
              exists k :: PlayerPlacedAt(b.lookup.history, k)
  {
    if b.lookup.Entries? {
      ScanCharacterization(b.lookup.history);
    }
  }

  /** A block is left in the list exactly when it was in the list and is
      not protected. */
  lemma {:induction false} UnprotectedMembers(apiPresent: bool, blocks: seq<Block>)
    ensures forall b :: b in Unprotected(apiPresent, blocks) <==>
              b in blocks && !ShouldProtect(apiPresent, b)
    decreases |blocks|
  {
    if |blocks| > 0 {
      var p := blocks[..|blocks| - 1];
      var last := blocks[|blocks| - 1];
      UnprotectedMembers(apiPresent, p);
      assert blocks == p + [last];
    }
  }

  /** Filtering a concatenation filters each part: the relative order of
      the blocks left in the list is the order they had. */
  lemma {:induction false} UnprotectedConcat(apiPresent: bool, a: seq<Block>, c: seq<Block>)
    ensures Unprotected(apiPresent, a + c) ==
              Unprotected(apiPresent, a) + Unprotected(apiPresent, c)
    decreases |c|
  {
    if |c| == 0 {
      assert a + c == a;
    } else {
      var c' := c[..|c| - 1];
      assert (a + c)[..|a + c| - 1] == a + c';
      assert (a + c)[|a + c| - 1] == c[|c| - 1];
      UnprotectedConcat(apiPresent, a, c');
    }
  }

  /** The filter is idempotent: removing the protected blocks from a list
      that already holds none changes nothing. */
  lemma {:induction false} UnprotectedIdempotent(apiPresent: bool, blocks: seq<Block>)
    ensures Unprotected(apiPresent, Unprotected(apiPresent, blocks)) ==
              Unprotected(apiPresent, blocks)
    decreases |blocks|
  {
    if |blocks| > 0 {
      var p := blocks[..|blocks| - 1];
      var last := blocks[|blocks| - 1];
      UnprotectedIdempotent(apiPresent, p);
      var sp := Unprotected(apiPresent, p);
      var tail := if ShouldProtect(apiPresent, last) then [] else [last];
      UnprotectedConcat(apiPresent, sp, tail);
      if !ShouldProtect(apiPresent, last) {
        assert tail == [] + [last];
      }
    }
  }

  /** The filtered list is the original list read at the positions of the
      unprotected blocks. */
  lemma {:induction false} UnprotectedSelectsIndices(apiPresent: bool, blocks: seq<Block>)
    ensures forall i :: 0 <= i < |UnprotectedIndices(apiPresent, blocks)| ==>
              Unprotected(apiPresent, blocks)[i] ==
                blocks[UnprotectedIndices(apiPresent, blocks)[i]]
    decreases |blocks|
  {
    if |blocks| > 0 {
      var n := |blocks| - 1;
      var p := blocks[..n];
      UnprotectedSelectsIndices(apiPresent, p);
      var ip := UnprotectedIndices(apiPresent, p);
      var sp := Unprotected(apiPresent, p);
      var idx := UnprotectedIndices(apiPresent, blocks);
      var kept := Unprotected(apiPresent, blocks);
      forall i | 0 <= i < |idx|
        ensures kept[i] == blocks[idx[i]]
      {
        if i < |ip| {
          assert idx[i] == ip[i];
          assert kept[i] == sp[i];
          assert p[ip[i]] == blocks[ip[i]];
        }
      }
    }
  }

  /** The selected positions are exactly the positions of the blocks that
      are not protected. */
  lemma {:induction false} UnprotectedIndicesExact(apiPresent: bool, blocks: seq<Block>)
    ensures forall j :: 0 <= j < |blocks| ==>
              (j in UnprotectedIndices(apiPresent, blocks) <==>
                 !ShouldProtect(apiPresent, blocks[j]))
    decreases |blocks|
  {
    if |blocks| > 0 {
      var n := |blocks| - 1;
      var p := blocks[..n];
      UnprotectedIndicesExact(apiPresent, p);
      var ip := UnprotectedIndices(apiPresent, p);
      var keepLast := !ShouldProtect(apiPresent, blocks[n]);
      var tail: seq<nat> := if keepLast then [n] else [];
      var idx := UnprotectedIndices(apiPresent, blocks);
      assert idx == ip + tail;
      assert n !in ip;
      assert n in idx <==> keepLast;
      forall j | 0 <= j < |blocks|
        ensures j in idx <==> !ShouldProtect(apiPresent, blocks[j])
      {
        if j < n {
          assert p[j] == blocks[j];
          assert j !in tail;
          assert j in idx <==> j in ip;
          assert j in ip <==> !ShouldProtect(apiPresent, p[j]);
          assert ShouldProtect(apiPresent, p[j]) == ShouldProtect(apiPresent, blocks[j]);
        } else {
          assert j == n;
        }
      }
    }
  }

  /** An explosion whose list holds only TNT and blocks with no placement
      record destroys all of them. */
  lemma NothingPlacedNothingProtected(apiPresent: bool, blocks: seq<Block>)
    requires forall i :: 0 <= i < |blocks| ==>
               blocks[i].material == TNT ||
               !blocks[i].lookup.Entries? ||
               forall j :: 0 <= j < |blocks[i].lookup.history| ==>
                 !IsPlacement(blocks[i].lookup.history[j])
    ensures Unprotected(apiPresent, blocks) == blocks
  {
    forall i | 0 <= i < |blocks|
      ensures !ShouldProtect(apiPresent, blocks[i])
    {
      if blocks[i].material != TNT && blocks[i].lookup.Entries? {
        NoPlacementNotPlaced(blocks[i].lookup.history);
      }
    }
    NoneProtectedKeepsAll(apiPresent, blocks);
  }

  /** When no block of the list is protected, the filter leaves the list as
      it is. */
  lemma {:induction false} NoneProtectedKeepsAll(apiPresent: bool, blocks: seq<Block>)
    requires forall i :: 0 <= i < |blocks| ==> !ShouldProtect(apiPresent, blocks[i])
    ensures Unprotected(apiPresent, blocks) == blocks
    decreases |blocks|
  {
    if |blocks| > 0 {
      var p := blocks[..|blocks| - 1];
      assert forall i :: 0 <= i < |p| ==> p[i] == blocks[i];
      NoneProtectedKeepsAll(apiPresent, p);
      assert p + [blocks[|blocks| - 1]] == blocks;
    }
  }
}
