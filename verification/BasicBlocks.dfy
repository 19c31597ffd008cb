/** Basic blocks of an AArch64 function: `reconstructAArch64` of src/cfg_reconstruction.cpp. The
    byte hash is a parameter. */
module BasicBlocks {
  import opened Words
  import opened OrderedSets

  datatype BlockOptions = BlockOptions(fallthrough: bool, normalize: bool, relocations: seq<(u64, u64)>)

  datatype BasicBlock = BasicBlock(start: u64, end: u64, hash: u64, successors: seq<u64>)

  type ByteHash = seq<u8> -> u64

  // ------------------------------------------------------------ instructions

  /** The little-endian instruction word at `off`. */
  function InsnAt(bytes: seq<u8>, off: nat): u32
    requires off + 4 <= |bytes|
  {
    var b: seq<int> := bytes[off..off + 4];
    b[0] + 0x100 * b[1] + 0x1_0000 * b[2] + 0x100_0000 * b[3]
  }

  /** (insn & 0xFC000000) == 0x14000000 */
  predicate IsUncondBranch(insn: u32) {
    insn / 0x400_0000 == 0x05
  }

  /** (insn & 0xFC000000) == 0x94000000 */
  predicate IsCallImm(insn: u32) {
    insn / 0x400_0000 == 0x25
  }

  /** (insn & 0xFF000010) == 0x54000000 */
  predicate IsCondBranch(insn: u32) {
    insn / 0x100_0000 == 0x54 && insn / 0x10 % 2 == 0
  }

  /** (insn & 0x7F000000) == 0x34000000; CBNZ is not recognised. */
  predicate IsCbz(insn: u32) {
    insn / 0x100_0000 % 0x80 == 0x34
  }

  /** (insn & 0x7F000000) == 0x36000000; TBNZ is not recognised. */
  predicate IsTbz(insn: u32) {
    insn / 0x100_0000 % 0x80 == 0x36
  }

  /** (insn & 0xFFFFFC1F) == 0xD65F0000 */
  predicate IsRet(insn: u32) {
    insn / 0x400 == 0x35_97c0 && insn % 0x20 == 0
  }

  /** `signExtend`, the sign bit having weight `half`. */
  function SignExtend(x: int, half: int): int {
    if x < half then x else x - 2 * half
  }

  /** Displacement of a recognised branch, in bytes. */
  function Displacement(insn: u32): Option<int> {
    if IsUncondBranch(insn) then Some(4 * SignExtend(insn % 0x400_0000, 0x200_0000))
    else if IsCondBranch(insn) || IsCbz(insn) then Some(4 * SignExtend(insn / 0x20 % 0x8_0000, 0x4_0000))
    else if IsTbz(insn) then Some(4 * SignExtend(insn / 0x20 % 0x4000, 0x2000))
    else None
  }

  /** `branchTargetAArch64` */
  function BranchTarget(pc: u64, insn: u32): Option<u64> {
    match Displacement(insn)
    case None => None
    case Some(d) => Some(Wrap64(pc + d))
  }

  /** `normalizeInsnAArch64`: pc-relative immediates are masked out. */
  function MaskInsn(insn: u32, normalize: bool): u32 {
    if !normalize then insn
    else if IsUncondBranch(insn) || IsCallImm(insn) then insn - insn % 0x400_0000
    else if IsCondBranch(insn) || IsCbz(insn) then insn - insn % 0x100_0000 + insn % 0x20
    else if IsTbz(insn) then insn - insn % 0x8_0000 + insn % 0x20
    else if insn / 0x100_0000 % 0x20 == 0x10 then
      // ADR and ADRP: bits 31, 28 to 24 and 4 to 0 stay.
      insn / 0x8000_0000 * 0x8000_0000 + 0x1000_0000 + insn % 0x20
    else if insn / 0x100_0000 % 4 == 0 && insn / 0x800_0000 % 8 == 3 then
      // LDR literal, (insn & 0x3B000000) == 0x18000000
      insn - insn % 0x100_0000 + insn % 0x20
    else insn
  }

  function ByteOf(x: u32, k: nat): u8 {
    match k
    case 0 => x % 0x100
    case 1 => x / 0x100 % 0x100
    case 2 => x / 0x1_0000 % 0x100
    case _ => x / 0x100_0000
  }

  predicate Relocated(address: u64, ranges: seq<(u64, u64)>) {
    exists k :: 0 <= k < |ranges| && ranges[k].0 <= address < ranges[k].1
  }

  /** Byte `i` of a block with whole instructions masked; a tail of up to three bytes stays. */
  function MaskedByte(bytes: seq<u8>, off: nat, size: nat, i: nat, normalize: bool): u8
    requires off + size <= |bytes| && i < size
  {
    if i / 4 * 4 + 4 <= size then ByteOf(MaskInsn(InsnAt(bytes, off + i / 4 * 4), normalize), i % 4)
    else bytes[off + i]
  }

  /** Byte `i` of a block as it is hashed. */
  function NormalizedByte(bytes: seq<u8>, off: nat, size: nat, i: nat, blockStart: u64, options: BlockOptions): u8
    requires off + size <= |bytes| && i < size
  {
    if Relocated(Wrap64(blockStart + i), options.relocations) then 0
    else MaskedByte(bytes, off, size, i, options.normalize)
  }

  function NormalizedBlock(bytes: seq<u8>, off: nat, size: nat, blockStart: u64, options: BlockOptions): seq<u8>
    requires off + size <= |bytes|
  {
    seq(size, i requires 0 <= i < size => NormalizedByte(bytes, off, size, i, blockStart, options))
  }

  // ----------------------------------------------------------------- leaders

  /** Instructions behind which a block always ends: recognised conditional branches (when
      fall-through edges are on) and RET, but not B. */
  predicate EndsBlock(insn: u32, fallthrough: bool) {
    if Displacement(insn).Some? then !IsUncondBranch(insn) && fallthrough else IsRet(insn)
  }

  /** Where the branch at `off` goes, relative to the function start. */
  function TargetOffset(bytes: seq<u8>, off: nat): Option<u64>
    requires off + 4 <= |bytes|
  {
    match Displacement(InsnAt(bytes, off))
    case None => None
    case Some(d) => Some(Wrap64(off + d))
  }

  predicate IsInstruction(off: nat, size: nat) {
    off % 4 == 0 && off + 4 <= size
  }

  /** The instruction at `off` makes `r` a leader. */
  predicate LeaderBy(bytes: seq<u8>, size: nat, fallthrough: bool, off: nat, r: nat)
    requires size <= |bytes|
  {
    && IsInstruction(off, size)
    && r < size
    && (|| TargetOffset(bytes, off) == Some(r)
        || (r == off + 4 && EndsBlock(InsnAt(bytes, off), fallthrough)))
  }

  ghost predicate IsLeader(bytes: seq<u8>, size: nat, fallthrough: bool, r: nat)
    requires size <= |bytes|
  {
    r == 0 || exists off: nat :: LeaderBy(bytes, size, fallthrough, off, r)
  }

  /** The first leader at or behind `r`, or the function's end. */
  ghost function NextLeader(bytes: seq<u8>, size: nat, fallthrough: bool, r: nat): (n: nat)
    requires r <= size <= |bytes|
    ensures r <= n <= size && (n < size ==> IsLeader(bytes, size, fallthrough, n))
    ensures forall k | r <= k < n :: !IsLeader(bytes, size, fallthrough, k)
    decreases size - r
  {
    if r == size || IsLeader(bytes, size, fallthrough, r) then r else NextLeader(bytes, size, fallthrough, r + 1)
  }

  /** The blocks from offset `r` on as offset ranges. */
  ghost function Bounds(bytes: seq<u8>, size: nat, fallthrough: bool, r: nat): seq<(nat, nat)>
    requires r <= size <= |bytes|
    decreases size - r
  {
    if r == size then []
    else
      var e := NextLeader(bytes, size, fallthrough, r + 1);
      [(r, e)] + Bounds(bytes, size, fallthrough, e)
  }

  predicate HasStart(bounds: seq<(nat, nat)>, r: nat) {
    exists i :: 0 <= i < |bounds| && bounds[i].0 == r
  }

  function FallthroughOffset(bounds: seq<(nat, nat)>, i: nat, fallthrough: bool): seq<nat> {
    if fallthrough && i + 1 < |bounds| then [bounds[i + 1].0] else []
  }

  /** Successors of block `i` as offsets, read off its last instruction. */
  function SuccessorOffsets(bytes: seq<u8>, bounds: seq<(nat, nat)>, i: nat, fallthrough: bool): seq<nat>
    requires i < |bounds| && bounds[i].1 <= |bytes|
  {
    var (begin, end) := bounds[i];
    if end < begin + 4 then []
    else
      var insn := InsnAt(bytes, end - 4);
      match TargetOffset(bytes, end - 4)
      case Some(t) =>
        (if HasStart(bounds, t) then [t] else [])
        + (if IsUncondBranch(insn) then [] else FallthroughOffset(bounds, i, fallthrough))
      case None =>
        if IsRet(insn) then [] else FallthroughOffset(bounds, i, fallthrough)
  }

  ghost predicate WellBounded(bounds: seq<(nat, nat)>, from: nat, size: nat) {
    && (from < size <==> bounds != [])
    && (forall i | 0 <= i < |bounds| :: from <= bounds[i].0 < bounds[i].1 <= size)
    && (bounds != [] ==> bounds[0].0 == from && bounds[|bounds| - 1].1 == size)
    && (forall i | 0 <= i < |bounds| - 1 :: bounds[i].1 == bounds[i + 1].0)
  }

  lemma {:induction false} BoundsCover(bytes: seq<u8>, size: nat, fallthrough: bool, r: nat)
    requires r <= size <= |bytes|
    ensures WellBounded(Bounds(bytes, size, fallthrough, r), r, size)
    decreases size - r
  {
    hide IsLeader;
    if r < size {
      var e := NextLeader(bytes, size, fallthrough, r + 1);
      BoundsCover(bytes, size, fallthrough, e);
      var rest := Bounds(bytes, size, fallthrough, e);
      var all := Bounds(bytes, size, fallthrough, r);
      assert forall i | 1 <= i < |all| :: all[i] == rest[i - 1];
    }
  }

  /** The block of a function at `start` that covers the offsets `range`, without successors. */
  function BareBlock(bytes: seq<u8>, start: u64, range: (nat, nat), options: BlockOptions, hash: ByteHash): BasicBlock
    requires range.0 <= range.1 <= |bytes|
  {
    var (begin, end) := range;
    BasicBlock(
      Wrap64(start + begin), Wrap64(start + end),
      hash(NormalizedBlock(bytes, begin, end - begin, Wrap64(start + begin), options)), [])
  }

  function BlockAt(
      bytes: seq<u8>, start: u64, bounds: seq<(nat, nat)>, i: nat, options: BlockOptions, hash: ByteHash): BasicBlock
    requires i < |bounds| && bounds[i].0 <= bounds[i].1 <= |bytes|
  {
    BareBlock(bytes, start, bounds[i], options, hash).(
      successors := Absolute(start, SuccessorOffsets(bytes, bounds, i, options.fallthrough)))
  }

  function Absolute(start: u64, offsets: seq<nat>): (r: seq<u64>)
    ensures |r| == |offsets|
  {
    seq(|offsets|, k requires 0 <= k < |offsets| => Wrap64(start + offsets[k]))
  }

  ghost function BlocksOf(bytes: seq<u8>, start: u64, size: nat, options: BlockOptions, hash: ByteHash): (r: seq<BasicBlock>)
    requires size <= |bytes|
  {
    BoundsCover(bytes, size, options.fallthrough, 0);
    var bounds := Bounds(bytes, size, options.fallthrough, 0);
    seq(|bounds|, i requires 0 <= i < |bounds| => BlockAt(bytes, start, bounds, i, options, hash))
  }

  // ---------------------------------------------------------- implementation

  /** First half of `normalizedBlockHash`: instructions are masked in place in the copy. */
  method MaskInstructions(normalized: array<u8>, bytes: seq<u8>, off: nat, normalize: bool)
    requires off + normalized.Length <= |bytes|
    requires normalized[..] == bytes[off..off + normalized.Length]
    modifies normalized
    ensures forall k | 0 <= k < normalized.Length ::
              normalized[k] == MaskedByte(bytes, off, normalized.Length, k, normalize)
  {
    hide MaskInsn, InsnAt, ByteOf;
    var size := normalized.Length;
    assert forall k | 0 <= k < size :: normalized[..][k] == bytes[off + k];
    var i := 0;
    while i + 4 <= size
      invariant 0 <= i <= size && i % 4 == 0
      invariant forall k | 0 <= k < i :: normalized[k] == MaskedByte(bytes, off, size, k, normalize)
      invariant forall k | i <= k < size :: normalized[k] == bytes[off + k]
    {
      var masked := MaskInsn(InsnAt(bytes, off + i), normalize);
      MaskedWord(bytes, off, size, i, 0, normalize);
      MaskedWord(bytes, off, size, i, 1, normalize);
      MaskedWord(bytes, off, size, i, 2, normalize);
      MaskedWord(bytes, off, size, i, 3, normalize);
      normalized[i] := ByteOf(masked, 0);
      normalized[i + 1] := ByteOf(masked, 1);
      normalized[i + 2] := ByteOf(masked, 2);
      normalized[i + 3] := ByteOf(masked, 3);
      i := i + 4;
    }
  }

  lemma MaskedWord(bytes: seq<u8>, off: nat, size: nat, i: nat, k: nat, normalize: bool)
    requires off + size <= |bytes| && i + 4 <= size && i % 4 == 0 && k < 4
    ensures MaskedByte(bytes, off, size, i + k, normalize) == ByteOf(MaskInsn(InsnAt(bytes, off + i), normalize), k)
  {
    hide MaskInsn, InsnAt, ByteOf;
    assert (i + k) / 4 * 4 == i && (i + k) % 4 == k;
  }

  /** `normalizedBlockHash`: copy, mask, clear relocated bytes, hash. */
  method NormalizedBlockHash(bytes: seq<u8>, off: nat, size: nat, blockStart: u64, options: BlockOptions, hash: ByteHash)
    returns (h: u64)
    requires off + size <= |bytes|
    ensures h == hash(NormalizedBlock(bytes, off, size, blockStart, options))
  {
    hide MaskedByte, Relocated;
    var normalized := new u8[size](i requires 0 <= i < size => bytes[off + i]);
    assert normalized[..] == bytes[off..off + size];
    MaskInstructions(normalized, bytes, off, options.normalize);
    for k := 0 to size
      invariant forall j | 0 <= j < k :: normalized[j] == NormalizedByte(bytes, off, size, j, blockStart, options)
      invariant forall j | k <= j < size :: normalized[j] == MaskedByte(bytes, off, size, j, options.normalize)
    {
      if Relocated(Wrap64(blockStart + k), options.relocations) {
        normalized[k] := 0;
      }
    }
    assert normalized[..] == NormalizedBlock(bytes, off, size, blockStart, options);
    return hash(normalized[..]);
  }

  /** Inside a function that does not wrap around, a target lies in the function exactly when its
      relative form is below the size, and then it is that offset behind the start. */
  lemma {:induction false} TargetInFunction(start: u64, size: nat, off: nat, d: int)
    requires start + size < TWO_64
    ensures var target, r := Wrap64(Wrap64(start + off) + d), Wrap64(off + d);
            && (start <= target < start + size <==> r < size)
            && (r < size ==> target == start + r)
  {
    var target, r := Wrap64(Wrap64(start + off) + d), Wrap64(off + d);
    WrapSum(start + off, d);
    WrapSum(off + d, start);
    assert target == Wrap64(start + r);
    if start + r >= TWO_64 {
      assert target == start + r - TWO_64;
    }
  }

  /** The leaders found among the instructions before `limit`. */
  ghost predicate LeaderBefore(bytes: seq<u8>, size: nat, fallthrough: bool, limit: nat, r: nat)
    requires size <= |bytes|
  {
    r == 0 || exists off: nat :: off < limit && LeaderBy(bytes, size, fallthrough, off, r)
  }

  /** What one instruction adds to the leaders. */
  ghost predicate LeadersOf(
      leaders: set<u64>, bytes: seq<u8>, start: u64, size: nat, fallthrough: bool, limit: nat)
    requires size <= |bytes|
  {
    forall a: u64 :: a in leaders <==>
      start <= a < start + size && LeaderBefore(bytes, size, fallthrough, limit, a - start)
  }

  lemma LeaderBeforeNext(bytes: seq<u8>, size: nat, fallthrough: bool, off: nat, r: nat)
    requires size <= |bytes| && off % 4 == 0
    ensures LeaderBefore(bytes, size, fallthrough, off + 4, r)
       <==> LeaderBefore(bytes, size, fallthrough, off, r) || LeaderBy(bytes, size, fallthrough, off, r)
  {
    hide TargetOffset, EndsBlock, InsnAt;
    if LeaderBefore(bytes, size, fallthrough, off + 4, r) && r != 0 {
      var o: nat :| o < off + 4 && LeaderBy(bytes, size, fallthrough, o, r);
      assert o % 4 == 0 && o <= off;
    }
  }

  /** One round of the leader loop. */
  method AddLeaders(leaders: set<u64>, bytes: seq<u8>, start: u64, size: nat, fallthrough: bool, off: nat)
    returns (more: set<u64>)
    requires size <= |bytes| && start + size < TWO_64 && IsInstruction(off, size)
    requires LeadersOf(leaders, bytes, start, size, fallthrough, off)
    ensures LeadersOf(more, bytes, start, size, fallthrough, off + 4)
  {
    hide Displacement, InsnAt, IsRet, IsUncondBranch, Wrap64, LeaderBefore;
    more := leaders;
    var pc, end := start + off, start + size;
    var insn := InsnAt(bytes, off);
    assert Wrap64(start + off) == pc by { InRange(pc); }
    var target := BranchTarget(pc, insn);
    if target.Some? {
      TargetInFunction(start, size, off, Displacement(insn).value);
      if start <= target.value < end {
        more := more + {target.value};
      }
      if !IsUncondBranch(insn) && fallthrough && pc + 4 < end {
        more := more + {pc + 4};
      }
    } else if IsRet(insn) && pc + 4 < end {
      more := more + {pc + 4};
    }
    forall a: u64
      ensures a in more <==> start <= a < end && LeaderBefore(bytes, size, fallthrough, off + 4, a - start)
    {
      if start <= a < end {
        LeaderBeforeNext(bytes, size, fallthrough, off, a - start);
      }
    }
  }

  method FindLeaders(bytes: seq<u8>, start: u64, size: nat, fallthrough: bool) returns (leaders: set<u64>)
    requires 0 < size <= |bytes| && start + size < TWO_64
    ensures Remaining(leaders, bytes, start, size, fallthrough, 0)
  {
    hide LeaderBy;
    leaders := {start};
    var off := 0;
    assert forall r: nat :: LeaderBefore(bytes, size, fallthrough, 0, r) <==> r == 0;
    while off + 4 <= size
      invariant 0 <= off <= size && off % 4 == 0
      invariant LeadersOf(leaders, bytes, start, size, fallthrough, off)
    {
      leaders := AddLeaders(leaders, bytes, start, size, fallthrough, off);
      off := off + 4;
    }
    AllLeadersFound(bytes, size, fallthrough, off);
  }

  lemma AllLeadersFound(bytes: seq<u8>, size: nat, fallthrough: bool, off: nat)
    requires size <= |bytes| && off % 4 == 0 && off + 4 > size
    ensures forall r: nat :: LeaderBefore(bytes, size, fallthrough, off, r) <==> IsLeader(bytes, size, fallthrough, r)
  {
    hide TargetOffset, EndsBlock, InsnAt;
    forall r: nat, o: nat | LeaderBy(bytes, size, fallthrough, o, r)
      ensures o < off
    {
      assert o % 4 == 0 && o + 4 <= size;
    }
  }

  /** `points` are the leaders at or behind offset `here`, which is one of them or the end. */
  ghost predicate Remaining(points: set<u64>, bytes: seq<u8>, start: u64, size: nat, fallthrough: bool, here: nat)
    requires size <= |bytes|
  {
    && here <= size
    && (here < size ==> IsLeader(bytes, size, fallthrough, here))
    && forall a: u64 :: a in points <==> start + here <= a < start + size && IsLeader(bytes, size, fallthrough, a - start)
  }

  lemma {:induction false} NextPoint(points: set<u64>, bytes: seq<u8>, start: u64, size: nat, fallthrough: bool, here: nat)
    requires size <= |bytes| && start + size < TWO_64
    requires Remaining(points, bytes, start, size, fallthrough, here)
    ensures here < size <==> points != {}
    ensures here < size ==>
              && Least(points) == start + here
              && Remaining(points - {start + here}, bytes, start, size, fallthrough,
                           NextLeader(bytes, size, fallthrough, here + 1))
  {
    hide IsLeader, Least;
    if here < size {
      var s: u64 := start + here;
      assert s - start == here;
      assert s in points;
      var next := NextLeader(bytes, size, fallthrough, here + 1);
      forall a: u64
        ensures a in points - {s} <==> start + next <= a < start + size && IsLeader(bytes, size, fallthrough, a - start)
      {
        if start + here < a < start + size {
          var k := a - start;
          assert here + 1 <= k < next ==> !IsLeader(bytes, size, fallthrough, k);
        }
      }
    }
  }

  /** The blocks from offset `r` on, still without successors. */
  ghost function BareBlocks(
      bytes: seq<u8>, start: u64, size: nat, options: BlockOptions, hash: ByteHash, r: nat): (blocks: seq<BasicBlock>)
    requires r <= size <= |bytes|
    decreases size - r
  {
    if r == size then []
    else
      var e := NextLeader(bytes, size, options.fallthrough, r + 1);
      [BareBlock(bytes, start, (r, e), options, hash)] + BareBlocks(bytes, start, size, options, hash, e)
  }

  lemma {:induction false} BareBlocksFollowBounds(
      bytes: seq<u8>, start: u64, size: nat, options: BlockOptions, hash: ByteHash, r: nat)
    requires r <= size <= |bytes|
    ensures var bounds := Bounds(bytes, size, options.fallthrough, r);
            var blocks := BareBlocks(bytes, start, size, options, hash, r);
            && WellBounded(bounds, r, size) && |blocks| == |bounds|
            && forall i | 0 <= i < |blocks| :: blocks[i] == BareBlock(bytes, start, bounds[i], options, hash)
    decreases size - r
  {
    hide BareBlock, IsLeader;
    BoundsCover(bytes, size, options.fallthrough, r);
    if r < size {
      BareBlocksFollowBounds(bytes, start, size, options, hash, NextLeader(bytes, size, options.fallthrough, r + 1));
    }
  }

  /** The block-building loop: start and end of each block, in address order, with its hash. */
  method CutBlocks(bytes: seq<u8>, start: u64, size: nat, options: BlockOptions, hash: ByteHash, leaders: set<u64>)
    returns (blocks: seq<BasicBlock>)
    requires size <= |bytes| && start + size < TWO_64
    requires Remaining(leaders, bytes, start, size, options.fallthrough, 0)
    ensures blocks == BareBlocks(bytes, start, size, options, hash, 0)
  {
    hide Remaining, BareBlock, IsLeader, NextLeader, Least;
    blocks := [];
    var points := leaders;
    ghost var here: nat := 0;
    NextPoint(points, bytes, start, size, options.fallthrough, here);
    while points != {}
      invariant here <= size && Remaining(points, bytes, start, size, options.fallthrough, here)
      invariant here < size <==> points != {}
      invariant blocks + BareBlocks(bytes, start, size, options, hash, here)
             == BareBlocks(bytes, start, size, options, hash, 0)
      decreases |points|
    {
      NextPoint(points, bytes, start, size, options.fallthrough, here);
      var s := Least(points);
      points := points - {s};
      here := NextLeader(bytes, size, options.fallthrough, here + 1);
      NextPoint(points, bytes, start, size, options.fallthrough, here);
      var e := if points == {} then start + size else Least(points);
      var block := CutBlock(bytes, start, s, e, options, hash);
      blocks := blocks + [block];
    }
  }

  method CutBlock(bytes: seq<u8>, start: u64, s: u64, e: u64, options: BlockOptions, hash: ByteHash)
    returns (block: BasicBlock)
    requires start <= s <= e && e - start <= |bytes|
    ensures block == BareBlock(bytes, start, (s - start, e - start), options, hash)
  {
    var h := NormalizedBlockHash(bytes, s - start, e - s, s, options, hash);
    InRange(s);
    InRange(e);
    return BasicBlock(s, e, h, []);
  }

  /** Blocks laid out at `start` as `bounds` say. */
  ghost predicate LaidOut(blocks: seq<BasicBlock>, bounds: seq<(nat, nat)>, start: u64, size: nat) {
    && |blocks| == |bounds| && start + size < TWO_64
    && forall i | 0 <= i < |blocks| ::
         && bounds[i].0 < bounds[i].1 <= size
         && blocks[i].start == start + bounds[i].0 && blocks[i].end == start + bounds[i].1
  }

  /** The successor list of one block, from its last four bytes. */
  method FindSuccessors(
      bytes: seq<u8>, start: u64, size: nat, blocks: seq<BasicBlock>, indexByStart: map<u64, nat>, i: nat,
      fallthrough: bool, ghost bounds: seq<(nat, nat)>) returns (successors: seq<u64>)
    requires size <= |bytes| && i < |blocks| && LaidOut(blocks, bounds, start, size)
    requires forall a: u64 :: a in indexByStart <==> exists k :: 0 <= k < |blocks| && blocks[k].start == a
    ensures successors == Absolute(start, SuccessorOffsets(bytes, bounds, i, fallthrough))
  {
    hide Displacement, InsnAt, IsRet, IsUncondBranch, Wrap64;
    var bb := blocks[i];
    var rel, blockSize := bb.start - start, bb.end - bb.start;
    successors := [];
    if blockSize < 4 {
      return;
    }
    var term := InsnAt(bytes, rel + blockSize - 4);
    var next: seq<u64> := if fallthrough && i + 1 < |blocks| then [blocks[i + 1].start] else [];
    assert next == Absolute(start, FallthroughOffset(bounds, i, fallthrough)) by {
      if i + 1 < |blocks| {
        InRange(blocks[i + 1].start);
      }
    }
    var target := BranchTarget(bb.end - 4, term);
    if target.Some? {
      var d := Displacement(term).value;
      InRange(bb.end - 4);
      TargetInFunction(start, size, bounds[i].1 - 4, d);
      StartsAgree(blocks, bounds, start, size, target.value, Wrap64(bounds[i].1 - 4 + d));
      if target.value in indexByStart {
        InRange(target.value);
        successors := [target.value];
      }
      if !IsUncondBranch(term) {
        successors := successors + next;
      }
    } else if !IsRet(term) {
      successors := next;
    }
  }

  /** A block starts at an address exactly when one starts at the offset, inside the function. */
  lemma StartsAgree(blocks: seq<BasicBlock>, bounds: seq<(nat, nat)>, start: u64, size: nat, target: u64, r: u64)
    requires LaidOut(blocks, bounds, start, size)
    requires start <= target < start + size <==> r < size
    requires r < size ==> target == start + r
    ensures (exists k :: 0 <= k < |blocks| && blocks[k].start == target) <==> HasStart(bounds, r)
    ensures HasStart(bounds, r) ==> target == start + r
  {
    if k :| 0 <= k < |blocks| && blocks[k].start == target {
      assert bounds[k].0 == r;
    }
    if k :| 0 <= k < |bounds| && bounds[k].0 == r {
      assert blocks[k].start == target;
    }
  }

  lemma {:induction false} BareBlocksLaidOut(bytes: seq<u8>, start: u64, size: nat, options: BlockOptions, hash: ByteHash)
    requires size <= |bytes| && start + size < TWO_64
    ensures LaidOut(BareBlocks(bytes, start, size, options, hash, 0), Bounds(bytes, size, options.fallthrough, 0), start, size)
  {
    hide NormalizedBlock, IsLeader, BareBlocks, Bounds;
    BareBlocksFollowBounds(bytes, start, size, options, hash, 0);
    var bounds := Bounds(bytes, size, options.fallthrough, 0);
    forall i | 0 <= i < |bounds|
      ensures Wrap64(start + bounds[i].0) == start + bounds[i].0 && Wrap64(start + bounds[i].1) == start + bounds[i].1
    {
      InRange(start + bounds[i].0);
      InRange(start + bounds[i].1);
    }
  }

  /** The second pass fills in the successors in place. */
  method LinkBlocks(bytes: seq<u8>, start: u64, size: nat, options: BlockOptions, hash: ByteHash, bare: seq<BasicBlock>)
    returns (blocks: seq<BasicBlock>)
    requires size <= |bytes| && start + size < TWO_64
    requires bare == BareBlocks(bytes, start, size, options, hash, 0)
    ensures blocks == BlocksOf(bytes, start, size, options, hash)
  {
    hide BareBlock, IsLeader, SuccessorOffsets, BareBlocks, Bounds;
    ghost var bounds := Bounds(bytes, size, options.fallthrough, 0);
    BareBlocksFollowBounds(bytes, start, size, options, hash, 0);
    BareBlocksLaidOut(bytes, start, size, options, hash);
    var indexByStart: map<u64, nat> := map[];
    for i := 0 to |bare|
      invariant forall a: u64 :: a in indexByStart <==> exists k :: 0 <= k < i && bare[k].start == a
    {
      indexByStart := indexByStart[bare[i].start := i];
    }
    blocks := bare;
    for i := 0 to |bare|
      invariant |blocks| == |bare|
      invariant forall k | 0 <= k < i :: blocks[k] == BlockAt(bytes, start, bounds, k, options, hash)
      invariant forall k | i <= k < |bare| :: blocks[k] == bare[k]
    {
      var successors := FindSuccessors(bytes, start, size, bare, indexByStart, i, options.fallthrough, bounds);
      blocks := blocks[i := blocks[i].(successors := successors)];
    }
  }

  /** `CFGReconstructor::reconstruct` for AArch64: fails when the bytes are too few, and an empty
      function has no blocks. */
  method Reconstruct(bytes: seq<u8>, start: u64, size: nat, options: BlockOptions, hash: ByteHash)
    returns (r: Option<seq<BasicBlock>>)
    requires start + size < TWO_64
    ensures r == if size > |bytes| then None else Some(BlocksOf(bytes, start, size, options, hash))
  {
    if size > |bytes| {
      return None;
    }
    if size == 0 {
      assert BlocksOf(bytes, start, size, options, hash) == [];
      return Some([]);
    }
    var leaders := FindLeaders(bytes, start, size, options.fallthrough);
    var bare := CutBlocks(bytes, start, size, options, hash, leaders);
    var blocks := LinkBlocks(bytes, start, size, options, hash, bare);
    return Some(blocks);
  }
}
