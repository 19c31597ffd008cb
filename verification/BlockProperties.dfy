/** What reconstruction guarantees about its blocks and edges, and its independence of the load
    address. */
module BlockProperties {
  import opened Words
  import opened BasicBlocks

  // ---------------------------------------------------------- the partition

  /** The blocks are in address order, non-empty and adjacent, and cover the function exactly. */
  lemma {:induction false} BlocksPartitionFunction(bytes: seq<u8>, start: u64, size: nat, options: BlockOptions, hash: ByteHash)
    requires size <= |bytes| && start + size < TWO_64
    ensures var blocks := BlocksOf(bytes, start, size, options, hash);
            && (blocks == [] <==> size == 0)
            && (forall i | 0 <= i < |blocks| :: start <= blocks[i].start < blocks[i].end <= start + size)
            && (blocks != [] ==> blocks[0].start == start && blocks[|blocks| - 1].end == start + size)
            && (forall i | 0 <= i < |blocks| - 1 :: blocks[i].end == blocks[i + 1].start)
            && (forall i, j | 0 <= i < j < |blocks| :: blocks[i].end <= blocks[j].start)
  {
    hide BlockAt, IsLeader, Bounds;
    BoundsCover(bytes, size, options.fallthrough, 0);
    var bounds := Bounds(bytes, size, options.fallthrough, 0);
    BoundsAscend(bounds, 0, size);
    forall i | 0 <= i < |bounds|
      ensures BlocksOf(bytes, start, size, options, hash)[i].start == start + bounds[i].0
           && BlocksOf(bytes, start, size, options, hash)[i].end == start + bounds[i].1
    {
      BlockPlace(bytes, start, bounds, i, size, options, hash);
    }
  }

  lemma BlockPlace(
      bytes: seq<u8>, start: u64, bounds: seq<(nat, nat)>, i: nat, size: nat, options: BlockOptions, hash: ByteHash)
    requires size <= |bytes| && start + size < TWO_64 && i < |bounds| && bounds[i].0 < bounds[i].1 <= size
    ensures var b := BlockAt(bytes, start, bounds, i, options, hash);
            b.start == start + bounds[i].0 && b.end == start + bounds[i].1
  {
    hide NormalizedBlock, SuccessorOffsets;
  }

  lemma {:induction false} BoundsAscend(bounds: seq<(nat, nat)>, from: nat, size: nat)
    requires WellBounded(bounds, from, size)
    ensures forall i, j | 0 <= i < j < |bounds| :: bounds[i].1 <= bounds[j].0
    decreases |bounds|
  {
    if |bounds| > 1 {
      var rest := bounds[1..];
      assert WellBounded(rest, bounds[1].0, size) by {
        assert forall i | 0 <= i < |rest| :: rest[i] == bounds[i + 1];
        StartsGrow(bounds, from, size);
      }
      BoundsAscend(rest, bounds[1].0, size);
      forall i, j | 0 <= i < j < |bounds|
        ensures bounds[i].1 <= bounds[j].0
      {
        if i > 0 {
          assert rest[i - 1].1 <= rest[j - 1].0;
        } else {
          StartsGrow(bounds, from, size);
        }
      }
    }
  }

  lemma {:induction false} StartsGrow(bounds: seq<(nat, nat)>, from: nat, size: nat)
    requires WellBounded(bounds, from, size) && |bounds| > 1
    ensures forall j | 1 <= j < |bounds| :: bounds[1].0 <= bounds[j].0
  {
    var j := 1;
    while j < |bounds|
      invariant 1 <= j <= |bounds|
      invariant forall k | 1 <= k < j :: bounds[1].0 <= bounds[k].0
    {
      if j > 1 {
        assert bounds[j - 1].1 == bounds[j].0;
      }
      j := j + 1;
    }
  }

  /** Blocks start exactly at the leaders. */
  lemma {:induction false} BlocksStartAtLeaders(bytes: seq<u8>, size: nat, fallthrough: bool, from: nat, r: nat)
    requires from <= size <= |bytes| && from <= r
    requires from < size ==> IsLeader(bytes, size, fallthrough, from)
    ensures HasStart(Bounds(bytes, size, fallthrough, from), r) <==> r < size && IsLeader(bytes, size, fallthrough, r)
    decreases size - from
  {
    hide IsLeader;
    var bounds := Bounds(bytes, size, fallthrough, from);
    if from < size {
      var e := NextLeader(bytes, size, fallthrough, from + 1);
      var rest := Bounds(bytes, size, fallthrough, e);
      assert bounds == [(from, e)] + rest;
      HasStartCons((from, e), rest, r);
      if r >= e {
        BlocksStartAtLeaders(bytes, size, fallthrough, e, r);
      } else {
        BoundsCover(bytes, size, fallthrough, e);
        assert !HasStart(rest, r);
      }
    }
  }

  lemma HasStartCons(first: (nat, nat), rest: seq<(nat, nat)>, r: nat)
    ensures HasStart([first] + rest, r) <==> first.0 == r || HasStart(rest, r)
  {
    var all := [first] + rest;
    if k :| 0 <= k < |rest| && rest[k].0 == r {
      assert all[k + 1].0 == r;
    }
    if first.0 == r {
      assert all[0].0 == r;
    }
  }

  // ------------------------------------------------------------------ edges

  /** Every recognised target inside the function starts a block, and every successor of every
      block is a block start. */
  lemma {:induction false} TargetsStartBlocks(bytes: seq<u8>, size: nat, fallthrough: bool, off: nat)
    requires size <= |bytes| && IsInstruction(off, size)
    requires TargetOffset(bytes, off).Some? && TargetOffset(bytes, off).value < size
    ensures HasStart(Bounds(bytes, size, fallthrough, 0), TargetOffset(bytes, off).value)
  {
    hide TargetOffset, EndsBlock;
    var t := TargetOffset(bytes, off).value;
    assert LeaderBy(bytes, size, fallthrough, off, t);
    BlocksStartAtLeaders(bytes, size, fallthrough, 0, t);
  }

  lemma {:induction false} SuccessorsStartBlocks(bytes: seq<u8>, size: nat, fallthrough: bool, i: nat)
    requires size <= |bytes| && i < |Bounds(bytes, size, fallthrough, 0)|
    ensures Bounds(bytes, size, fallthrough, 0)[i].1 <= size
    ensures forall t | t in SuccessorOffsets(bytes, Bounds(bytes, size, fallthrough, 0), i, fallthrough) ::
              HasStart(Bounds(bytes, size, fallthrough, 0), t)
  {
    hide Bounds, Displacement, InsnAt, IsRet, IsUncondBranch;
    var bounds := Bounds(bytes, size, fallthrough, 0);
    BoundsCover(bytes, size, fallthrough, 0);
    if i + 1 < |bounds| {
      assert HasStart(bounds, bounds[i + 1].0);
    }
  }

  /** Some block ends exactly at `end` and contains `off`. */
  ghost predicate EndsAt(bounds: seq<(nat, nat)>, i: nat, off: nat, end: nat) {
    i < |bounds| && bounds[i].0 <= off && bounds[i].1 == end
  }

  /** Leaders are aligned, so a block boundary inside (off, off + 4) does not exist. */
  lemma {:induction false} LeadersAreAligned(bytes: seq<u8>, size: nat, fallthrough: bool, r: nat)
    requires size <= |bytes| && IsLeader(bytes, size, fallthrough, r)
    ensures r % 4 == 0
  {
    hide Wrap64, InsnAt, Displacement, EndsBlock;
    if r != 0 {
      var off: nat :| LeaderBy(bytes, size, fallthrough, off, r);
      if r != off + 4 {
        DisplacementIsAligned(InsnAt(bytes, off));
        AlignedWrap(off + Displacement(InsnAt(bytes, off)).value);
      }
    }
  }

  lemma DisplacementIsAligned(insn: u32)
    ensures match Displacement(insn) case None => true case Some(d) => d % 4 == 0
  {
    hide IsUncondBranch, IsCondBranch, IsCbz, IsTbz, SignExtend;
  }

  lemma AlignedWrap(x: int)
    requires x % 4 == 0
    ensures Wrap64(x) % 4 == 0
  {
  }

  /** The block of an instruction ends at the first leader behind the instruction, or with the
      function. */
  lemma {:induction false} BlockOfInstruction(bytes: seq<u8>, size: nat, fallthrough: bool, from: nat, off: nat) returns (i: nat)
    requires from <= off && IsInstruction(off, size) && size <= |bytes|
    ensures EndsAt(Bounds(bytes, size, fallthrough, from), i, off, NextLeader(bytes, size, fallthrough, off + 4))
    decreases size - from
  {
    hide IsLeader;
    var e := NextLeader(bytes, size, fallthrough, from + 1);
    var rest := Bounds(bytes, size, fallthrough, e);
    assert Bounds(bytes, size, fallthrough, from) == [(from, e)] + rest;
    if e <= off {
      var k := BlockOfInstruction(bytes, size, fallthrough, e, off);
      i := k + 1;
    } else {
      if e < off + 4 {
        LeadersAreAligned(bytes, size, fallthrough, e);
        assert false;
      }
      i := 0;
      NextLeaderIs(bytes, size, fallthrough, off + 4, e);
    }
  }

  lemma {:induction false} NextLeaderIs(bytes: seq<u8>, size: nat, fallthrough: bool, r: nat, e: nat)
    requires r <= e <= size <= |bytes| && (e < size ==> IsLeader(bytes, size, fallthrough, e))
    requires forall k | r <= k < e :: !IsLeader(bytes, size, fallthrough, k)
    ensures NextLeader(bytes, size, fallthrough, r) == e
  {
  }

  ghost predicate SomeBlockEnds(bounds: seq<(nat, nat)>, off: nat, end: nat) {
    exists i :: EndsAt(bounds, i, off, end)
  }

  /** An instruction ends a block if and only if it ends the function or a leader follows it. */
  lemma EndsBlockExactly(bytes: seq<u8>, size: nat, fallthrough: bool, off: nat)
    requires size <= |bytes| && IsInstruction(off, size)
    ensures SomeBlockEnds(Bounds(bytes, size, fallthrough, 0), off, off + 4)
       <==> off + 4 == size || IsLeader(bytes, size, fallthrough, off + 4)
  {
    hide IsLeader, Bounds;
    var bounds := Bounds(bytes, size, fallthrough, 0);
    if off + 4 == size || IsLeader(bytes, size, fallthrough, off + 4) {
      var i := BlockOfInstruction(bytes, size, fallthrough, 0, off);
    }
    var end := off + 4;
    if SomeBlockEnds(bounds, off, end) {
      var i: nat :| EndsAt(bounds, i, off, end);
      BoundsCover(bytes, size, fallthrough, 0);
      if off + 4 != size {
        assert i + 1 < |bounds| && bounds[i + 1].0 == off + 4;
        FirstIsLeader(bytes, size, fallthrough);
        BlocksStartAtLeaders(bytes, size, fallthrough, 0, off + 4);
      }
    }
  }

  lemma FirstIsLeader(bytes: seq<u8>, size: nat, fallthrough: bool)
    requires size <= |bytes|
    ensures IsLeader(bytes, size, fallthrough, 0)
  {
  }

  /** Every RET, and with fall-through edges on every recognised conditional branch, is the last
      instruction of its block; with any function size. */
  lemma {:induction false} EndingInstructionsEndBlocks(bytes: seq<u8>, size: nat, fallthrough: bool, off: nat) returns (i: nat)
    requires size <= |bytes| && IsInstruction(off, size) && EndsBlock(InsnAt(bytes, off), fallthrough)
    ensures EndsAt(Bounds(bytes, size, fallthrough, 0), i, off, off + 4)
  {
    hide EndsBlock, TargetOffset;
    if off + 4 < size {
      assert LeaderBy(bytes, size, fallthrough, off, off + 4);
    }
    i := BlockOfInstruction(bytes, size, fallthrough, 0, off);
  }

  /** The last instruction of a block, at `last`, leads to s: s is its target, or the block behind
      it is and the instruction lets control pass. */
  ghost predicate LeadsTo(bytes: seq<u8>, size: nat, fallthrough: bool, last: nat, s: nat)
    requires last + 4 <= size <= |bytes|
  {
    || (TargetOffset(bytes, last) == Some(s) && s < size && IsLeader(bytes, size, fallthrough, s))
    || (s == last + 4 < size && fallthrough
        && if TargetOffset(bytes, last).Some? then !IsUncondBranch(InsnAt(bytes, last)) else !IsRet(InsnAt(bytes, last)))
  }

  /** The successors of a block are where its last instruction leads. */
  lemma SuccessorsExactly(bytes: seq<u8>, size: nat, fallthrough: bool, i: nat, s: nat)
    requires size <= |bytes| && i < |Bounds(bytes, size, fallthrough, 0)|
    ensures var bounds := Bounds(bytes, size, fallthrough, 0);
            && bounds[i].0 < bounds[i].1 <= size
            && (s in SuccessorOffsets(bytes, bounds, i, fallthrough)
                <==> bounds[i].0 + 4 <= bounds[i].1 && LeadsTo(bytes, size, fallthrough, bounds[i].1 - 4, s))
  {
    hide IsLeader, InsnAt, Displacement, IsUncondBranch, IsRet, Bounds, TargetOffset;
    var bounds := Bounds(bytes, size, fallthrough, 0);
    BoundsCover(bytes, size, fallthrough, 0);
    FirstIsLeader(bytes, size, fallthrough);
    BlocksStartAtLeaders(bytes, size, fallthrough, 0, s);
    var fall := FallthroughOffset(bounds, i, fallthrough);
    assert s in fall <==> fallthrough && s == bounds[i].1 < size;
  }

  /** Edges of recognised branches. The block of a branch ends behind it if and only if the branch
      ends the function or a leader follows; in any case its successors are where the instruction
      before the next leader leads. So the branch has its in-function target among the successors
      of its block exactly if it ends the block or that other instruction leads there too. With
      fall-through edges on, a conditional branch always keeps both edges. */
  lemma BranchEdges(bytes: seq<u8>, size: nat, fallthrough: bool, off: nat) returns (i: nat)
    requires size <= |bytes| && IsInstruction(off, size) && TargetOffset(bytes, off).Some?
    ensures var bounds := Bounds(bytes, size, fallthrough, 0);
            var end := NextLeader(bytes, size, fallthrough, off + 4);
            && EndsAt(bounds, i, off, end)
            && (end == off + 4 <==> off + 4 == size || IsLeader(bytes, size, fallthrough, off + 4))
            && (forall s: nat :: s in SuccessorOffsets(bytes, bounds, i, fallthrough)
                            <==> LeadsTo(bytes, size, fallthrough, end - 4, s))
            && (TargetOffset(bytes, off).value < size ==>
                  (TargetOffset(bytes, off).value in SuccessorOffsets(bytes, bounds, i, fallthrough)
                   <==> end == off + 4 || LeadsTo(bytes, size, fallthrough, end - 4, TargetOffset(bytes, off).value)))
            && (fallthrough && !IsUncondBranch(InsnAt(bytes, off)) ==>
                  end == off + 4 && (end < size ==> end in SuccessorOffsets(bytes, bounds, i, fallthrough)))
  {
    hide InsnAt, Displacement, IsUncondBranch, IsRet, Bounds, TargetOffset, SuccessorOffsets, LeaderBy;
    var bounds := Bounds(bytes, size, fallthrough, 0);
    i := BlockOfInstruction(bytes, size, fallthrough, 0, off);
    var end := NextLeader(bytes, size, fallthrough, off + 4);
    forall s: nat
      ensures s in SuccessorOffsets(bytes, bounds, i, fallthrough) <==> LeadsTo(bytes, size, fallthrough, end - 4, s)
    {
      SuccessorsExactly(bytes, size, fallthrough, i, s);
    }
    BranchIsLeaderBy(bytes, size, fallthrough, off);
  }

  lemma BranchIsLeaderBy(bytes: seq<u8>, size: nat, fallthrough: bool, off: nat)
    requires size <= |bytes| && IsInstruction(off, size) && TargetOffset(bytes, off).Some?
    ensures TargetOffset(bytes, off).value < size ==> IsLeader(bytes, size, fallthrough, TargetOffset(bytes, off).value)
    ensures fallthrough && !IsUncondBranch(InsnAt(bytes, off)) && off + 4 < size ==>
              IsLeader(bytes, size, fallthrough, off + 4)
  {
    hide InsnAt, IsUncondBranch;
    if TargetOffset(bytes, off).value < size {
      assert LeaderBy(bytes, size, fallthrough, off, TargetOffset(bytes, off).value);
    }
    if fallthrough && !IsUncondBranch(InsnAt(bytes, off)) && off + 4 < size {
      assert LeaderBy(bytes, size, fallthrough, off, off + 4);
    }
  }

  /** A B instruction does not end its block, and inside a block its edge is lost: here a jump over
      a RET leaves its block without successors although its target is a block. */
  lemma {:induction false} UnconditionalBranchCanLoseItsEdge()
    ensures var bytes := [0x03, 0x00, 0x00, 0x14, 0xc0, 0x03, 0x5f, 0xd6, 0x1f, 0x20, 0x03, 0xd5, 0x1f, 0x20, 0x03, 0xd5];
            var bounds := Bounds(bytes, 16, true, 0);
            && TargetOffset(bytes, 0) == Some(12) && HasStart(bounds, 12)
            && |bounds| > 0 && bounds[0] == (0, 8) && SuccessorOffsets(bytes, bounds, 0, true) == []
  {
    hide InsnAt, Displacement, TargetOffset, EndsBlock, IsRet, IsUncondBranch, Bounds, NextLeader;
    var bytes: seq<u8> := [0x03, 0x00, 0x00, 0x14, 0xc0, 0x03, 0x5f, 0xd6, 0x1f, 0x20, 0x03, 0xd5, 0x1f, 0x20, 0x03, 0xd5];
    JumpOverReturn(bytes);
    TargetsStartBlocks(bytes, 16, true, 0);
    assert LeaderBy(bytes, 16, true, 4, 8);
    forall r | 1 <= r < 8
      ensures !IsLeader(bytes, 16, true, r)
    {
      forall off: nat
        ensures !LeaderBy(bytes, 16, true, off, r)
      {
        if IsInstruction(off, 16) {
          assert off == 0 || off == 4 || off == 8 || off == 12;
        }
      }
    }
    FirstBlock(bytes);
  }

  lemma JumpOverReturn(bytes: seq<u8>)
    requires bytes == [0x03, 0x00, 0x00, 0x14, 0xc0, 0x03, 0x5f, 0xd6, 0x1f, 0x20, 0x03, 0xd5, 0x1f, 0x20, 0x03, 0xd5]
    ensures TargetOffset(bytes, 0) == Some(12) && !EndsBlock(InsnAt(bytes, 0), true)
    ensures TargetOffset(bytes, 4) == None && EndsBlock(InsnAt(bytes, 4), true) && IsRet(InsnAt(bytes, 4))
    ensures TargetOffset(bytes, 8) == None && !EndsBlock(InsnAt(bytes, 8), true)
    ensures TargetOffset(bytes, 12) == None && !EndsBlock(InsnAt(bytes, 12), true)
  {
    assert InsnAt(bytes, 0) == 0x1400_0003;
    assert InsnAt(bytes, 4) == 0xd65f_03c0;
    assert InsnAt(bytes, 8) == 0xd503_201f;
    assert InsnAt(bytes, 12) == 0xd503_201f;
  }

  lemma FirstBlock(bytes: seq<u8>)
    requires |bytes| == 16 && IsLeader(bytes, 16, true, 8) && forall r | 1 <= r < 8 :: !IsLeader(bytes, 16, true, r)
    ensures Bounds(bytes, 16, true, 0) != [] && Bounds(bytes, 16, true, 0)[0] == (0, 8)
  {
    hide IsLeader;
    assert NextLeader(bytes, 16, true, 1) == 8;
  }

  // ------------------------------------------------- translation invariance

  function ShiftBlock(b: BasicBlock, delta: int): BasicBlock {
    BasicBlock(
      Wrap64(b.start + delta), Wrap64(b.end + delta), b.hash,
      seq(|b.successors|, k requires 0 <= k < |b.successors| => Wrap64(b.successors[k] + delta)))
  }

  /** The relocation ranges move along, none of them over the ends of the address space. */
  ghost predicate RangesShifted(from: seq<(u64, u64)>, to: seq<(u64, u64)>, delta: int) {
    && |from| == |to|
    && forall k | 0 <= k < |from| :: to[k].0 == from[k].0 + delta && to[k].1 == from[k].1 + delta
  }

  lemma {:induction false} RelocatedShifts(address: u64, from: seq<(u64, u64)>, to: seq<(u64, u64)>, delta: int)
    requires RangesShifted(from, to, delta) && 0 <= address + delta < TWO_64
    ensures Relocated(address + delta, to) <==> Relocated(address, from)
  {
    if k :| 0 <= k < |from| && from[k].0 <= address < from[k].1 {
      assert to[k].0 <= address + delta < to[k].1;
    }
  }

  lemma {:induction false} NormalizedBlockShifts(
      bytes: seq<u8>, off: nat, size: nat, blockStart: u64, options: BlockOptions, options': BlockOptions, delta: int)
    requires off + size <= |bytes| && blockStart + size < TWO_64
    requires 0 <= blockStart + delta && blockStart + delta + size < TWO_64
    requires RangesShifted(options.relocations, options'.relocations, delta) && options.normalize == options'.normalize
    ensures NormalizedBlock(bytes, off, size, blockStart + delta, options')
         == NormalizedBlock(bytes, off, size, blockStart, options)
  {
    hide MaskedByte, Relocated;
    forall i | 0 <= i < size
      ensures NormalizedByte(bytes, off, size, i, blockStart + delta, options')
           == NormalizedByte(bytes, off, size, i, blockStart, options)
    {
      InRange(blockStart + i);
      InRange(blockStart + delta + i);
      RelocatedShifts(blockStart + i, options.relocations, options'.relocations, delta);
    }
  }

  /** The same bytes loaded `delta` further, with the relocation ranges moved along, give the same
      blocks, hashes and successors, all moved by `delta`. */
  lemma {:induction false} ReconstructionIsTranslationInvariant(
      bytes: seq<u8>, start: u64, size: nat, options: BlockOptions, options': BlockOptions, hash: ByteHash, delta: int)
    requires size <= |bytes| && start + size < TWO_64
    requires 0 <= start + delta && start + delta + size < TWO_64
    requires options' == options.(relocations := options'.relocations)
    requires RangesShifted(options.relocations, options'.relocations, delta)
    ensures var blocks := BlocksOf(bytes, start, size, options, hash);
            var moved := BlocksOf(bytes, start + delta, size, options', hash);
            && |moved| == |blocks|
            && forall i | 0 <= i < |blocks| :: moved[i] == ShiftBlock(blocks[i], delta)
  {
    hide NormalizedBlock, IsLeader, SuccessorOffsets, Bounds, Wrap64;
    BoundsCover(bytes, size, options.fallthrough, 0);
    var bounds := Bounds(bytes, size, options.fallthrough, 0);
    forall i | 0 <= i < |bounds|
      ensures BlockAt(bytes, start + delta, bounds, i, options', hash)
           == ShiftBlock(BlockAt(bytes, start, bounds, i, options, hash), delta)
    {
      BlockShifts(bytes, start, bounds, i, size, options, options', hash, delta);
    }
  }

  lemma {:induction false} BlockShifts(
      bytes: seq<u8>, start: u64, bounds: seq<(nat, nat)>, i: nat, size: nat,
      options: BlockOptions, options': BlockOptions, hash: ByteHash, delta: int)
    requires size <= |bytes| && i < |bounds| && bounds[i].0 < bounds[i].1 <= size && start + size < TWO_64
    requires 0 <= start + delta && start + delta + size < TWO_64
    requires options' == options.(relocations := options'.relocations)
    requires RangesShifted(options.relocations, options'.relocations, delta)
    ensures BlockAt(bytes, start + delta, bounds, i, options', hash)
         == ShiftBlock(BlockAt(bytes, start, bounds, i, options, hash), delta)
  {
    hide NormalizedBlock, SuccessorOffsets, Wrap64, RangesShifted;
    var (begin, end) := bounds[i];
    InRange(start + begin);
    InRange(start + end);
    InRange(start + delta + begin);
    InRange(start + delta + end);
    NormalizedBlockShifts(bytes, begin, end - begin, start + begin, options, options', delta);
    var successors := SuccessorOffsets(bytes, bounds, i, options.fallthrough);
    forall k | 0 <= k < |successors|
      ensures Wrap64(start + delta + successors[k]) == Wrap64(Wrap64(start + successors[k]) + delta)
    {
      WrapSum(start + successors[k], delta);
    }
    assert Absolute(start + delta, successors)
        == ShiftBlock(BlockAt(bytes, start, bounds, i, options, hash), delta).successors;
  }
}
