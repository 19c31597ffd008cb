/** Where blocks start and what is hashed of them, told from the instructions as the architecture
    writes them: the converse of the round trips for pc-relative instructions. */
module BlockStarts {
  import opened Words
  import opened BasicBlocks
  import opened BlockProperties
  import opened BranchEncoding

  // -------------------------------------------------- what an instruction is

  /** The word is the instruction `i` with the immediate `imm`. */
  predicate Is(insn: u32, i: PcRelative, imm: int) {
    Wellformed(i) && -HalfRange(i) <= imm < HalfRange(i) && insn == Encode(i, imm)
  }

  ghost predicate IsPcRelative(insn: u32) {
    exists i, imm :: Is(insn, i, imm)
  }

  ghost predicate BranchesBy(insn: u32, i: PcRelative, imm: int) {
    IsBranch(i) && Is(insn, i, imm)
  }

  /** RET through any register. */
  ghost predicate Returns(insn: u32) {
    exists reg: Reg :: insn == 0xd65f_0000 + 0x20 * reg
  }

  /** The fields of a pc-relative instruction, from its top byte and the three below it. */
  function FieldsOf(top: u8, low: int): Option<(PcRelative, int)>
    requires 0 <= low < 0x100_0000
  {
    var long := SignExtend(0x100_0000 * (top % 4) + low, 0x200_0000);
    var short := SignExtend(low / 0x20, 0x4_0000);
    if top / 4 == 5 then Some((B, long))
    else if top / 4 == 0x25 then Some((Bl, long))
    else if top == 0x54 && low / 0x10 % 2 == 0 then Some((BCond(low % 0x20), short))
    else if top % 0x80 == 0x34 then Some((Cbz(top / 0x80, low % 0x20), short))
    else if top % 0x80 == 0x36 then
      Some((Tbz(top / 0x80, low / 0x8_0000, low % 0x20), SignExtend(low / 0x20 % 0x4000, 0x2000)))
    else if top % 0x20 == 0x10 then Some((Adr(top / 0x80, top / 0x20 % 4, low % 0x20), short))
    else if top % 4 == 0 && top / 8 % 8 == 3 then Some((LdrLiteral(top / 0x40, top / 4 % 2, low % 0x20), short))
    else None
  }

  lemma SignKept(x: int)
    ensures 0 <= x < 0x400_0000 ==>
              -0x200_0000 <= SignExtend(x, 0x200_0000) < 0x200_0000 && SignExtend(x, 0x200_0000) % 0x400_0000 == x
    ensures 0 <= x < 0x8_0000 ==> -0x4_0000 <= SignExtend(x, 0x4_0000) < 0x4_0000 && SignExtend(x, 0x4_0000) % 0x8_0000 == x
    ensures 0 <= x < 0x4000 ==> -0x2000 <= SignExtend(x, 0x2000) < 0x2000 && SignExtend(x, 0x2000) % 0x4000 == x
  {
  }

  lemma LongFields(top: u8, low: int)
    requires 0 <= low < 0x100_0000 && (top / 4 == 5 || top / 4 == 0x25)
    ensures var (i, imm) := FieldsOf(top, low).value; Is(Word(top, low), i, imm)
  {
    hide SignExtend;
    SignKept(0x100_0000 * (top % 4) + low);
  }

  lemma ShortFields(top: u8, low: int, n: int)
    requires 0 <= low < 0x100_0000 && n == SignExtend(low / 0x20, 0x4_0000)
    ensures -0x4_0000 <= n < 0x4_0000 && low == 0x20 * (n % 0x8_0000) + low % 0x20
  {
    hide SignExtend;
    SignKept(low / 0x20);
  }

  lemma TestFields(top: u8, low: int)
    requires 0 <= low < 0x100_0000 && top % 0x80 == 0x36
    ensures Is(Word(top, low), Tbz(top / 0x80, low / 0x8_0000, low % 0x20), SignExtend(low / 0x20 % 0x4000, 0x2000))
  {
    hide SignExtend;
    SignKept(low / 0x20 % 0x4000);
    var f := low / 0x20;
    assert f / 0x4000 == low / 0x8_0000;
    assert low == 0x20 * (0x4000 * (f / 0x4000) + f % 0x4000) + low % 0x20;
  }

  lemma CondFields(top: u8, low: int, n: int)
    requires 0 <= low < 0x100_0000 && n == SignExtend(low / 0x20, 0x4_0000)
    ensures top == 0x54 && low / 0x10 % 2 == 0 ==> low % 0x20 < 16 && Is(Word(top, low), BCond(low % 0x20), n)
    ensures top % 0x80 == 0x34 ==> Is(Word(top, low), Cbz(top / 0x80, low % 0x20), n)
  {
    hide SignExtend;
    ShortFields(top, low, n);
  }

  lemma AddressFields(top: u8, low: int, n: int)
    requires 0 <= low < 0x100_0000 && n == SignExtend(low / 0x20, 0x4_0000) && top % 0x20 == 0x10
    ensures Is(Word(top, low), Adr(top / 0x80, top / 0x20 % 4, low % 0x20), n)
  {
    hide SignExtend;
    ShortFields(top, low, n);
    assert top == 0x80 * (top / 0x80) + 0x20 * (top / 0x20 % 4) + 0x10;
  }

  lemma LiteralFields(top: u8, low: int, n: int)
    requires 0 <= low < 0x100_0000 && n == SignExtend(low / 0x20, 0x4_0000) && top % 4 == 0 && top / 8 % 8 == 3
    ensures Is(Word(top, low), LdrLiteral(top / 0x40, top / 4 % 2, low % 0x20), n)
  {
    hide SignExtend;
    ShortFields(top, low, n);
    assert top == 0x40 * (top / 0x40) + 0x18 + 4 * (top / 4 % 2) && top / 0x40 < 4;
  }

  lemma {:induction false} FieldsEncode(top: u8, low: int)
    requires 0 <= low < 0x100_0000
    ensures match FieldsOf(top, low)
            case None => true
            case Some((i, imm)) => Is(Word(top, low), i, imm)
  {
    hide SignExtend, Encode, Word;
    var n := SignExtend(low / 0x20, 0x4_0000);
    CondFields(top, low, n);
    if top / 4 == 5 || top / 4 == 0x25 {
      LongFields(top, low);
    } else if top % 0x80 == 0x36 {
      TestFields(top, low);
    } else if top % 0x20 == 0x10 {
      AddressFields(top, low, n);
    } else if top % 4 == 0 && top / 8 % 8 == 3 {
      LiteralFields(top, low, n);
    }
  }

  lemma FieldsDecode(top: u8, low: int)
    requires 0 <= low < 0x100_0000
    ensures match FieldsOf(top, low)
            case None => Displacement(Word(top, low)) == None && MaskInsn(Word(top, low), true) == Word(top, low)
            case Some((i, imm)) => Displacement(Word(top, low)).Some? <==> IsBranch(i)
  {
    hide Word, Displacement, MaskInsn, SignExtend;
    DecodeParts(top, low);
    MaskParts(top, low);
  }

  lemma Split(insn: u32)
    ensures insn / 0x100_0000 < 0x100 && insn == Word(insn / 0x100_0000, insn % 0x100_0000)
  {
  }

  /** The decoder recognises a branch if and only if the word is a B, B.cond, CBZ or TBZ, and then with
      the distance written in it; and the normalizer leaves alone whatever is not pc-relative. */
  lemma RecognisedExactly(insn: u32)
    ensures Displacement(insn).Some? <==> exists i, imm :: BranchesBy(insn, i, imm)
    ensures forall i, imm | BranchesBy(insn, i, imm) :: Displacement(insn) == Some(4 * imm)
    ensures !IsPcRelative(insn) ==> MaskInsn(insn, true) == insn
  {
    hide Word, Displacement, MaskInsn, FieldsOf, Encode;
    var top, low := insn / 0x100_0000, insn % 0x100_0000;
    Split(insn);
    FieldsEncode(top, low);
    FieldsDecode(top, low);
    forall i, imm | Is(insn, i, imm)
      ensures Displacement(insn) == if IsBranch(i) then Some(4 * imm) else None
    {
      DisplacementRoundTrip(i, imm);
    }
    match FieldsOf(top, low)
    case None =>
    case Some((i, imm)) =>
      assert Is(insn, i, imm) && (BranchesBy(insn, i, imm) <==> IsBranch(i));
  }

  lemma ReturnsExactly(insn: u32)
    ensures IsRet(insn) <==> Returns(insn)
  {
    if IsRet(insn) {
      var reg: Reg := insn / 0x20 % 0x20;
      assert insn == 0xd65f_0000 + 0x20 * reg;
    }
  }

  // ------------------------------------------------------- where blocks start

  /** The instruction at `off` is a branch whose distance leads from it to offset r, going around
      the address space. */
  ghost predicate JumpsTo(bytes: seq<u8>, off: nat, r: nat)
    requires off + 4 <= |bytes|
  {
    exists i, imm :: BranchesBy(InsnAt(bytes, off), i, imm) && (off + 4 * imm - r) % 0x1_0000_0000_0000_0000 == 0
  }

  /** A block has to end behind it: a RET, or with fall-through edges a conditional branch. */
  ghost predicate Ends(insn: u32, fallthrough: bool) {
    Returns(insn) || (fallthrough && exists i, imm :: BranchesBy(insn, i, imm) && !i.B?)
  }

  /** A whole instruction at `off` makes a block start at r. */
  ghost predicate StartedBy(bytes: seq<u8>, size: nat, fallthrough: bool, off: nat, r: nat)
    requires size <= |bytes|
  {
    off % 4 == 0 && off + 4 <= size
    && (JumpsTo(bytes, off, r) || (r == off + 4 && Ends(InsnAt(bytes, off), fallthrough)))
  }

  lemma TargetIs(bytes: seq<u8>, off: nat, r: nat)
    requires off + 4 <= |bytes| && r < TWO_64
    ensures TargetOffset(bytes, off) == Some(r) <==> JumpsTo(bytes, off, r)
  {
    hide InsnAt, Displacement, Wrap64, BranchesBy;
    var insn := InsnAt(bytes, off);
    RecognisedExactly(insn);
    if Displacement(insn).Some? {
      SameAddress(off + Displacement(insn).value, r);
    }
  }

  lemma SameAddress(x: int, r: nat)
    requires r < TWO_64
    ensures Wrap64(x) == r <==> (x - r) % 0x1_0000_0000_0000_0000 == 0
  {
  }

  lemma OnlyUnconditional(insn: u32)
    ensures IsUncondBranch(insn) ==> exists imm :: BranchesBy(insn, B, imm)
    ensures forall i, imm | BranchesBy(insn, i, imm) && IsUncondBranch(insn) :: i.B?
    ensures !IsUncondBranch(insn) ==> forall i, imm | BranchesBy(insn, i, imm) :: !i.B?
    ensures Displacement(insn).Some? ==> !IsRet(insn)
  {
    hide Encode, Word, SignExtend;
    var top, low := insn / 0x100_0000, insn % 0x100_0000;
    Split(insn);
    Quotients(top, low);
    if IsUncondBranch(insn) {
      FieldsEncode(top, low);
      assert BranchesBy(insn, B, SignExtend(0x100_0000 * (top % 4) + low, 0x200_0000));
    }
    forall i, imm | BranchesBy(insn, i, imm)
      ensures IsUncondBranch(insn) <==> i.B?
    {
      TopOfBranch(insn, i, imm);
    }
  }

  lemma TopOfBranch(insn: u32, i: PcRelative, imm: int)
    requires BranchesBy(insn, i, imm)
    ensures insn / 0x400_0000 == 5 <==> i.B?
  {
    Parts(i, imm);
    Quotients(Top(i, imm), Low(i, imm));
    if i.B? {
      LongParts(i, imm);
    } else {
      TopTells(i, imm);
    }
  }

  lemma EndsExactly(insn: u32, fallthrough: bool)
    ensures EndsBlock(insn, fallthrough) <==> Ends(insn, fallthrough)
  {
    hide Displacement, IsRet, IsUncondBranch, Returns, BranchesBy;
    RecognisedExactly(insn);
    ReturnsExactly(insn);
    OnlyUnconditional(insn);
  }

  /** Blocks start at the function's start, at the targets of branches and behind instructions that
      have to end a block, inside the function, and nowhere else. */
  lemma {:induction false} BlocksStartExactly(bytes: seq<u8>, size: nat, fallthrough: bool, r: nat)
    requires size <= |bytes| && size < TWO_64 && r < size
    ensures HasStart(Bounds(bytes, size, fallthrough, 0), r)
       <==> r == 0 || exists off: nat :: StartedBy(bytes, size, fallthrough, off, r)
  {
    hide Bounds, InsnAt, TargetOffset, EndsBlock, JumpsTo, Ends;
    FirstIsLeader(bytes, size, fallthrough);
    BlocksStartAtLeaders(bytes, size, fallthrough, 0, r);
    forall off: nat
      ensures LeaderBy(bytes, size, fallthrough, off, r) <==> StartedBy(bytes, size, fallthrough, off, r)
    {
      if off + 4 <= size {
        TargetIs(bytes, off, r);
        EndsExactly(InsnAt(bytes, off), fallthrough);
      }
    }
  }

  // ------------------------------------------------------------ what is hashed

  /** Byte i of a block lies in a relocation. */
  ghost predicate Rewritten(start: u64, i: nat, relocations: seq<(u64, u64)>) {
    exists k :: 0 <= k < |relocations|
                && relocations[k].0 <= (start + i) % 0x1_0000_0000_0000_0000 < relocations[k].1
  }

  lemma RewrittenIs(start: u64, i: nat, relocations: seq<(u64, u64)>)
    ensures Relocated(Wrap64(start + i), relocations) <==> Rewritten(start, i, relocations)
  {
  }

  lemma FourDigits(x: u32)
    ensures ByteOf(x, 0) + 0x100 * ByteOf(x, 1) + 0x1_0000 * ByteOf(x, 2) + 0x100_0000 * ByteOf(x, 3) == x
  {
    var y := x / 0x100;
    var z := y / 0x100;
    assert z == x / 0x1_0000 && z / 0x100 == x / 0x100_0000;
    assert x == 0x100 * y + x % 0x100 && y == 0x100 * z + y % 0x100 && z == 0x100 * (z / 0x100) + z % 0x100;
  }

  lemma BytesRejoin(x: u32, b: seq<u8>)
    requires |b| == 4 && b[0] == ByteOf(x, 0) && b[1] == ByteOf(x, 1) && b[2] == ByteOf(x, 2) && b[3] == ByteOf(x, 3)
    ensures InsnAt(b, 0) == x
  {
    hide ByteOf;
    FourDigits(x);
    assert b[0..4] == b;
  }

  lemma {:induction false} HashedWord(bytes: seq<u8>, off: nat, size: nat, start: u64, options: BlockOptions, i: nat)
    requires off + size <= |bytes| && i % 4 == 0 && i + 4 <= size
    requires forall k | i <= k < i + 4 :: !Rewritten(start, k, options.relocations)
    ensures InsnAt(NormalizedBlock(bytes, off, size, start, options), i)
         == MaskInsn(InsnAt(bytes, off + i), options.normalize)
  {
    hide MaskInsn, ByteOf, Rewritten, Relocated, MaskedByte, Wrap64;
    var x := MaskInsn(InsnAt(bytes, off + i), options.normalize);
    var block := NormalizedBlock(bytes, off, size, start, options);
    forall k: nat | k < 4
      ensures block[i + k] == ByteOf(x, k)
    {
      RewrittenIs(start, i + k, options.relocations);
      MaskedWord(bytes, off, size, i, k, options.normalize);
    }
    hide NormalizedBlock;
    var b := block[i..i + 4];
    BytesRejoin(x, b);
    assert b[0..4] == b;
  }

  /** Of a block the hash sees: zeros where a relocation lies, a tail shorter than an instruction as
      it is, and whole instructions as the normalizer leaves them. */
  lemma {:induction false} HashedBytes(bytes: seq<u8>, off: nat, size: nat, start: u64, options: BlockOptions, i: nat)
    requires off + size <= |bytes| && i < size
    ensures var block := NormalizedBlock(bytes, off, size, start, options);
            && |block| == size
            && (Rewritten(start, i, options.relocations) ==> block[i] == 0)
            && (!Rewritten(start, i, options.relocations) && size - size % 4 <= i ==> block[i] == bytes[off + i])
            && (i % 4 == 0 && i + 4 <= size && (forall k | i <= k < i + 4 :: !Rewritten(start, k, options.relocations)) ==>
                  InsnAt(block, i) == MaskInsn(InsnAt(bytes, off + i), options.normalize))
  {
    hide InsnAt, MaskInsn, Wrap64, Rewritten, Relocated;
    RewrittenIs(start, i, options.relocations);
    if i % 4 == 0 && i + 4 <= size && (forall k | i <= k < i + 4 :: !Rewritten(start, k, options.relocations)) {
      HashedWord(bytes, off, size, start, options, i);
    }
    hide NormalizedBlock;
    if size - size % 4 <= i {
      LastWord(size, i);
    }
    HashedByte(bytes, off, size, start, options, i);
  }

  lemma LastWord(size: nat, i: nat)
    requires size - size % 4 <= i < size
    ensures i / 4 * 4 + 4 > size
  {
  }

  lemma HashedByte(bytes: seq<u8>, off: nat, size: nat, start: u64, options: BlockOptions, i: nat)
    requires off + size <= |bytes| && i < size
    ensures NormalizedBlock(bytes, off, size, start, options)[i] == NormalizedByte(bytes, off, size, i, start, options)
  {
  }

  // -------------------------------------------------------------- the edges

  ghost predicate Unconditional(insn: u32) {
    exists imm :: BranchesBy(insn, B, imm)
  }

  /** The last four bytes of block i are a branch to r, where a block starts. */
  ghost predicate JumpEdge(bytes: seq<u8>, bounds: seq<(nat, nat)>, i: nat, r: nat)
    requires i < |bounds| && bounds[i].1 <= |bytes|
  {
    bounds[i].0 + 4 <= bounds[i].1 && HasStart(bounds, r) && JumpsTo(bytes, bounds[i].1 - 4, r)
  }

  /** The next block starts at r, and control passes to it: fall-through edges are on, and the last
      four bytes are neither a RET nor a B. */
  ghost predicate FallEdge(bytes: seq<u8>, bounds: seq<(nat, nat)>, i: nat, fallthrough: bool, r: nat)
    requires i < |bounds| && bounds[i].1 <= |bytes|
  {
    && bounds[i].0 + 4 <= bounds[i].1 && fallthrough && i + 1 < |bounds| && r == bounds[i + 1].0
    && !Returns(InsnAt(bytes, bounds[i].1 - 4)) && !Unconditional(InsnAt(bytes, bounds[i].1 - 4))
  }

  function Times(b: bool): nat {
    if b then 1 else 0
  }

  /** The two parts of a list of successors. */
  function JumpPart(bytes: seq<u8>, bounds: seq<(nat, nat)>, last: nat): (s: seq<nat>)
    requires last + 4 <= |bytes|
    ensures |s| <= 1
  {
    var target := TargetOffset(bytes, last);
    if target.Some? && HasStart(bounds, target.value) then [target.value] else []
  }

  function FallPart(bytes: seq<u8>, bounds: seq<(nat, nat)>, i: nat, fallthrough: bool, last: nat): (s: seq<nat>)
    requires last + 4 <= |bytes|
    ensures |s| <= 1
  {
    if IsUncondBranch(InsnAt(bytes, last)) || IsRet(InsnAt(bytes, last)) then []
    else FallthroughOffset(bounds, i, fallthrough)
  }

  lemma SuccessorsSplit(bytes: seq<u8>, bounds: seq<(nat, nat)>, i: nat, fallthrough: bool)
    requires i < |bounds| && bounds[i].0 + 4 <= bounds[i].1 <= |bytes|
    ensures var last := bounds[i].1 - 4;
            SuccessorOffsets(bytes, bounds, i, fallthrough)
            == JumpPart(bytes, bounds, last) + FallPart(bytes, bounds, i, fallthrough, last)
  {
    hide InsnAt, TargetOffset, IsRet, IsUncondBranch, JumpsTo, Returns, Unconditional, HasStart;
    LastInstruction(bytes, bounds[i].1 - 4);
  }

  lemma PartsMean(bytes: seq<u8>, bounds: seq<(nat, nat)>, i: nat, fallthrough: bool)
    requires i < |bounds| && bounds[i].0 + 4 <= bounds[i].1 <= |bytes|
    ensures var last := bounds[i].1 - 4;
            && (forall x: nat | x < TWO_64 :: x in JumpPart(bytes, bounds, last) <==> JumpEdge(bytes, bounds, i, x))
            && (forall x: nat :: x in FallPart(bytes, bounds, i, fallthrough, last)
                             <==> FallEdge(bytes, bounds, i, fallthrough, x))
            && forall x | x in JumpPart(bytes, bounds, last) :: x < TWO_64
  {
    hide InsnAt, TargetOffset, IsRet, IsUncondBranch, JumpsTo, Returns, Unconditional, HasStart;
    LastInstruction(bytes, bounds[i].1 - 4);
  }

  lemma AtMostTwo(a: seq<nat>, b: seq<nat>, r: nat)
    requires |a| <= 1 && |b| <= 1
    ensures multiset(a + b)[r] == Times(r in a) + Times(r in b)
    ensures |a + b| == 2 ==> (a + b)[0] in a && (a + b)[1] in b
  {
  }

  /** Every successor of a block stands in its list once for each edge to it, the target of the
      branch first. */
  lemma SuccessorsAreEdges(bytes: seq<u8>, bounds: seq<(nat, nat)>, i: nat, fallthrough: bool, r: nat)
    requires i < |bounds| && bounds[i].1 <= |bytes| && r < TWO_64
    ensures var s := SuccessorOffsets(bytes, bounds, i, fallthrough);
            && multiset(s)[r] == Times(JumpEdge(bytes, bounds, i, r)) + Times(FallEdge(bytes, bounds, i, fallthrough, r))
            && |s| <= 2
            && (|s| == 2 ==> JumpEdge(bytes, bounds, i, s[0]) && FallEdge(bytes, bounds, i, fallthrough, s[1]))
  {
    hide JumpPart, FallPart;
    if bounds[i].0 + 4 <= bounds[i].1 {
      hide SuccessorOffsets, JumpEdge, FallEdge;
      var last := bounds[i].1 - 4;
      SuccessorsSplit(bytes, bounds, i, fallthrough);
      PartsMean(bytes, bounds, i, fallthrough);
      AtMostTwo(JumpPart(bytes, bounds, last), FallPart(bytes, bounds, i, fallthrough, last), r);
    }
  }

  lemma LastInstruction(bytes: seq<u8>, off: nat)
    requires off + 4 <= |bytes|
    ensures forall r: u64 :: TargetOffset(bytes, off) == Some(r) <==> JumpsTo(bytes, off, r)
    ensures IsRet(InsnAt(bytes, off)) <==> Returns(InsnAt(bytes, off))
    ensures IsUncondBranch(InsnAt(bytes, off)) <==> Unconditional(InsnAt(bytes, off))
    ensures TargetOffset(bytes, off).Some? ==> !IsRet(InsnAt(bytes, off))
    ensures IsUncondBranch(InsnAt(bytes, off)) ==> TargetOffset(bytes, off).Some?
  {
    hide InsnAt, Displacement, TargetOffset, IsRet, IsUncondBranch, JumpsTo, Returns, BranchesBy;
    forall r: u64
      ensures TargetOffset(bytes, off) == Some(r) <==> JumpsTo(bytes, off, r)
    {
      TargetIs(bytes, off, r);
    }
    ReturnsExactly(InsnAt(bytes, off));
    OnlyUnconditional(InsnAt(bytes, off));
    TargetHasDisplacement(bytes, off);
  }

  lemma TargetHasDisplacement(bytes: seq<u8>, off: nat)
    requires off + 4 <= |bytes|
    ensures TargetOffset(bytes, off).Some? <==> Displacement(InsnAt(bytes, off)).Some?
    ensures IsUncondBranch(InsnAt(bytes, off)) ==> TargetOffset(bytes, off).Some?
  {
    hide InsnAt, SignExtend;
  }

  // ---------------------------------------------------------- whole functions

  /** The blocks of a function: each is where its offsets lie behind the function's start, carries the
      hash of its normalized bytes and the addresses of its successors in their order. */
  lemma {:induction false} ReconstructedBlock(
      bytes: seq<u8>, start: u64, size: nat, options: BlockOptions, hash: ByteHash, i: nat)
    requires size <= |bytes| && start + size < TWO_64
    requires i < |BlocksOf(bytes, start, size, options, hash)|
    ensures var bounds := Bounds(bytes, size, options.fallthrough, 0);
            var block := BlocksOf(bytes, start, size, options, hash)[i];
            && |bounds| == |BlocksOf(bytes, start, size, options, hash)|
            && bounds[i].0 <= bounds[i].1 <= size
            && block.start == start + bounds[i].0 && block.end == start + bounds[i].1
            && block.hash == hash(NormalizedBlock(bytes, bounds[i].0, bounds[i].1 - bounds[i].0, block.start, options))
            && var offsets := SuccessorOffsets(bytes, bounds, i, options.fallthrough);
               |block.successors| == |offsets|
               && forall k | 0 <= k < |offsets| :: block.successors[k] == start + offsets[k] < start + size
  {
    hide NormalizedBlock, SuccessorOffsets, Bounds;
    BoundsCover(bytes, size, options.fallthrough, 0);
    var bounds := Bounds(bytes, size, options.fallthrough, 0);
    BlockPlace(bytes, start, bounds, i, size, options, hash);
    SuccessorsStartBlocks(bytes, size, options.fallthrough, i);
    var offsets := SuccessorOffsets(bytes, bounds, i, options.fallthrough);
    forall k | 0 <= k < |offsets|
      ensures offsets[k] < size && Wrap64(start + offsets[k]) == start + offsets[k]
    {
      assert offsets[k] in offsets;
      InRange(start + offsets[k]);
    }
  }
}
