/** Writing call frame programs by the tables of DWARF 5 (sections 6.4.2 and 7.24), and the
    interpreter of src/cfi_parser.cpp reading them back. */
module CfiEncoding {
  import opened Words
  import opened Leb128
  import opened ByteOrder
  import opened CfiModel
  import opened CfiInterpreter
  import opened UnwindTable

  /** The call frame instructions under their own names, with the operands they are written with.
      `n` is a factored offset. */
  datatype CallFrame =
    | AdvanceLoc(delta: u8)
    | AdvanceLoc1(wide: u64)
    | AdvanceLoc2(wide: u64)
    | AdvanceLoc4(wide: u64)
    | MipsAdvanceLoc8(wide: u64)
    | SetLocation(address: u64)
    | OffsetPrimary(low: u8, n: u64)
    | OffsetExtended(reg: u64, n: u64)
    | OffsetExtendedSf(reg: u64, signed: i64)
    | GnuNegativeOffsetExtended(reg: u64, n: u64)
    | ValOffsetAt(reg: u64, n: u64)
    | ValOffsetSf(reg: u64, signed: i64)
    | RestorePrimary(low: u8)
    | RestoreExtended(reg: u64)
    | UndefinedReg(reg: u64)
    | SameValueReg(reg: u64)
    | RegisterCopy(reg: u64, from: u64)
    | RememberState
    | RestoreState
    | DefineCfa(reg: u64, offset: u64)
    | DefineCfaSf(reg: u64, signed: i64)
    | DefineCfaRegister(reg: u64)
    | DefineCfaOffset(offset: u64)
    | DefineCfaOffsetSf(signed: i64)
    | DefineCfaExpression(block: seq<u8>)
    | ExpressionAt(reg: u64, block: seq<u8>)
    | ValExpressionAt(reg: u64, block: seq<u8>)
    | NegateRaSignState
    | GnuArgsSize(size: u64)
    | Nop

  predicate FitsI64(x: int) {
    -TWO_63 <= x < TWO_63
  }

  /** A rule that points `offset` bytes away from the CFA. */
  function Away(kind: RuleKind, reg: u64, offset: int): Instr
    requires FitsI64(offset)
  {
    SetRule(reg, Rule(kind).(offset := offset))
  }

  /** Operands fit their fields, and what the instruction computes fits the machine. */
  predicate Encodable(op: CallFrame, cie: Cie) {
    var caf, daf := cie.codeAlignmentFactor, cie.dataAlignmentFactor;
    match op
    case AdvanceLoc(delta) => delta < 0x40 && delta * caf < TWO_64
    case AdvanceLoc1(wide) => wide < 0x100 && wide * caf < TWO_64
    case AdvanceLoc2(wide) => wide < 0x1_0000 && wide * caf < TWO_64
    case AdvanceLoc4(wide) => wide < TWO_32 && wide * caf < TWO_64
    case MipsAdvanceLoc8(wide) => wide * caf < TWO_64
    case SetLocation(address) => cie.addressSize == 8 || (cie.addressSize == 4 && address < TWO_32)
    case OffsetPrimary(low, n) => low < 0x40 && n < TWO_63 && FitsI64(n * daf)
    case OffsetExtended(_, n) => n < TWO_63 && FitsI64(n * daf)
    case ValOffsetAt(_, n) => n < TWO_63 && FitsI64(n * daf)
    case GnuNegativeOffsetExtended(_, n) => n < TWO_63 && FitsI64((0 - n) * daf)
    case OffsetExtendedSf(_, signed) => FitsI64(signed * daf)
    case ValOffsetSf(_, signed) => FitsI64(signed * daf)
    case DefineCfaSf(_, signed) => FitsI64(signed * daf)
    case DefineCfaOffsetSf(signed) => FitsI64(signed * daf)
    case DefineCfa(_, offset) => offset < TWO_63
    case DefineCfaOffset(offset) => offset < TWO_63
    case RestorePrimary(low) => low < 0x40
    case DefineCfaExpression(block) => cie.version >= 3 && |block| < TWO_64
    case ExpressionAt(_, block) => |block| < TWO_64
    case ValExpressionAt(_, block) => |block| < TWO_64
    case _ => true
  }

  /** What section 6.4.2 says the instruction does; nothing wraps. */
  function Effect(op: CallFrame, cie: Cie): Instr
    requires Encodable(op, cie)
  {
    var caf, daf := cie.codeAlignmentFactor, cie.dataAlignmentFactor;
    match op
    case AdvanceLoc(delta) => Advance(delta * caf)
    case AdvanceLoc1(wide) => Advance(wide * caf)
    case AdvanceLoc2(wide) => Advance(wide * caf)
    case AdvanceLoc4(wide) => Advance(wide * caf)
    case MipsAdvanceLoc8(wide) => Advance(wide * caf)
    case SetLocation(address) => SetLoc(address)
    case OffsetPrimary(low, n) => Away(Offset, low, n * daf)
    case OffsetExtended(reg, n) => Away(Offset, reg, n * daf)
    case OffsetExtendedSf(reg, signed) => Away(Offset, reg, signed * daf)
    case GnuNegativeOffsetExtended(reg, n) => Away(Offset, reg, (0 - n) * daf)
    case ValOffsetAt(reg, n) => Away(ValOffset, reg, n * daf)
    case ValOffsetSf(reg, signed) => Away(ValOffset, reg, signed * daf)
    case RestorePrimary(low) => RestoreRule(low)
    case RestoreExtended(reg) => RestoreRule(reg)
    case UndefinedReg(reg) => SetRule(reg, Rule(Undefined))
    case SameValueReg(reg) => SetRule(reg, Rule(SameValue))
    case RegisterCopy(reg, from) => SetRule(reg, Rule(Register).(regNum := from))
    case RememberState => Remember
    case RestoreState => Restore
    case DefineCfa(reg, offset) => DefCfa(reg, offset)
    case DefineCfaSf(reg, signed) => DefCfa(reg, signed * daf)
    case DefineCfaRegister(reg) => DefCfaRegister(reg)
    case DefineCfaOffset(offset) => DefCfaOffset(offset)
    case DefineCfaOffsetSf(signed) => DefCfaOffset(signed * daf)
    case DefineCfaExpression(block) => DefCfaExpression(block)
    case ExpressionAt(reg, block) => SetRule(reg, Rule(Expression).(expression := block))
    case ValExpressionAt(reg, block) => SetRule(reg, Rule(ValExpression).(expression := block))
    case NegateRaSignState => NegateRaState
    case GnuArgsSize(_) => Skip
    case Nop => Skip
  }

  // ---------------------------------------------------- instructions to bytes

  function Block(block: seq<u8>): seq<u8> {
    EncodeUnsigned(|block|) + block
  }

  /** The bytes of table 7.29. */
  function Assemble(op: CallFrame, cie: Cie, little: bool): (e: seq<u8>)
    requires Encodable(op, cie)
    ensures |e| > 0
  {
    match op
    case AdvanceLoc(delta) => [0x40 + delta]
    case OffsetPrimary(low, n) => [0x80 + low] + EncodeUnsigned(n)
    case RestorePrimary(low) => [0xc0 + low]
    case Nop => [0x00]
    case SetLocation(address) => [0x01] + EncodeFixed(address, cie.addressSize, little)
    case AdvanceLoc1(wide) => [0x02] + EncodeFixed(wide, 1, little)
    case AdvanceLoc2(wide) => [0x03] + EncodeFixed(wide, 2, little)
    case AdvanceLoc4(wide) => [0x04] + EncodeFixed(wide, 4, little)
    case OffsetExtended(reg, n) => [0x05] + (EncodeUnsigned(reg) + EncodeUnsigned(n))
    case RestoreExtended(reg) => [0x06] + EncodeUnsigned(reg)
    case UndefinedReg(reg) => [0x07] + EncodeUnsigned(reg)
    case SameValueReg(reg) => [0x08] + EncodeUnsigned(reg)
    case RegisterCopy(reg, from) => [0x09] + (EncodeUnsigned(reg) + EncodeUnsigned(from))
    case RememberState => [0x0a]
    case RestoreState => [0x0b]
    case DefineCfa(reg, offset) => [0x0c] + (EncodeUnsigned(reg) + EncodeUnsigned(offset))
    case DefineCfaRegister(reg) => [0x0d] + EncodeUnsigned(reg)
    case DefineCfaOffset(offset) => [0x0e] + EncodeUnsigned(offset)
    case DefineCfaExpression(block) => [0x0f] + Block(block)
    case ExpressionAt(reg, block) => [0x10] + (EncodeUnsigned(reg) + Block(block))
    case OffsetExtendedSf(reg, signed) => [0x11] + (EncodeUnsigned(reg) + EncodeSigned(signed))
    case DefineCfaSf(reg, signed) => [0x12] + (EncodeUnsigned(reg) + EncodeSigned(signed))
    case DefineCfaOffsetSf(signed) => [0x13] + EncodeSigned(signed)
    case ValOffsetAt(reg, n) => [0x14] + (EncodeUnsigned(reg) + EncodeUnsigned(n))
    case ValOffsetSf(reg, signed) => [0x15] + (EncodeUnsigned(reg) + EncodeSigned(signed))
    case ValExpressionAt(reg, block) => [0x16] + (EncodeUnsigned(reg) + Block(block))
    case MipsAdvanceLoc8(wide) => [0x1d] + EncodeFixed(wide, 8, little)
    case NegateRaSignState => [0x2d]
    case GnuArgsSize(size) => [0x2e] + EncodeUnsigned(size)
    case GnuNegativeOffsetExtended(reg, n) => [0x2f] + (EncodeUnsigned(reg) + EncodeUnsigned(n))
  }

  lemma UnsignedAt(bytes: seq<u8>, off: nat, v: u64)
    requires HasAt(bytes, off, EncodeUnsigned(v))
    ensures Unsigned(bytes, off) == Some(Decoded(v, off + |EncodeUnsigned(v)|))
  {
    var e := EncodeUnsigned(v);
    hide EncodeUnsigned, Unsigned;
    UnsignedRoundTrip(bytes[..off], v, bytes[off + |e|..]);
    assert bytes[..off] + e + bytes[off + |e|..] == bytes;
  }

  lemma SignedAt(bytes: seq<u8>, off: nat, v: i64)
    requires HasAt(bytes, off, EncodeSigned(v))
    ensures Signed(bytes, off) == Some(Decoded(v, off + |EncodeSigned(v)|))
  {
    var e := EncodeSigned(v);
    hide EncodeSigned, Signed;
    SignedRoundTrip(bytes[..off], v, bytes[off + |e|..]);
    assert bytes[..off] + e + bytes[off + |e|..] == bytes;
  }

  lemma BlockAtHas(bytes: seq<u8>, off: nat, block: seq<u8>, first: u64)
    requires |block| < TWO_64 && HasAt(bytes, off, Block(block))
    ensures Unsigned(bytes, off) == Some(Decoded(|block|, off + |EncodeUnsigned(|block|)|))
    ensures BlockAt(bytes, off + |EncodeUnsigned(|block|)|, |block|, first)
         == Some(Operands(first, 0, 0, block, off + |Block(block)|))
  {
    hide EncodeUnsigned, Unsigned;
    HasAtSplit(bytes, off, EncodeUnsigned(|block|), block);
    UnsignedAt(bytes, off, |block|);
  }

  lemma Powers()
    ensures Pow256(1) == 0x100 && Pow256(2) == 0x1_0000 && Pow256(4) == TWO_32 && Pow256(8) == TWO_64
  {
    assert Pow256(3) == 0x100_0000;
    assert Pow256(5) == 0x100_0000_0000 && Pow256(6) == 0x1_0000_0000_0000 && Pow256(7) == 0x100_0000_0000_0000;
  }

  lemma WrapIsId(x: int)
    ensures 0 <= x < TWO_64 ==> Wrap64(x) == x
    ensures FitsI64(x) ==> WrapI64(x) == x
  {
  }

  // ------------------------------------------------- one instruction read back

  lemma FetchPlain(cie: Cie, little: bool, ins: seq<u8>, off: nat)
    requires off < |ins| && LayoutOf(ins[off], cie) == Some(NoOperand)
    ensures Fetch(cie, little, ins, off) == Some(Fetched(Meaning(ins[off], Operands(0, 0, 0, [], off + 1), cie), off + 1))
  {
    hide LayoutOf, Meaning;
  }

  lemma FetchFixed(cie: Cie, little: bool, ins: seq<u8>, off: nat, v: u64, width: nat)
    requires off < |ins| && HasAt(ins, off, [ins[off]] + EncodeFixed(v, width, little)) && v < Pow256(width)
    requires LayoutOf(ins[off], cie) == Some(FixedOperand(width))
    ensures Fetch(cie, little, ins, off)
         == Some(Fetched(Meaning(ins[off], Operands(v, 0, 0, [], off + 1 + width), cie), off + 1 + width))
  {
    hide LayoutOf, Meaning, EncodeFixed, FixedWidth, Wrap64;
    HasAtSplit(ins, off, [ins[off]], EncodeFixed(v, width, little));
    FixedRoundTrip(ins, off + 1, v, width, little);
    WrapIsId(v);
  }

  lemma FetchOne(cie: Cie, little: bool, ins: seq<u8>, off: nat, v: u64)
    requires off < |ins| && HasAt(ins, off, [ins[off]] + EncodeUnsigned(v))
    requires LayoutOf(ins[off], cie) == Some(OneUnsigned)
    ensures var next := off + 1 + |EncodeUnsigned(v)|;
            Fetch(cie, little, ins, off) == Some(Fetched(Meaning(ins[off], Operands(v, 0, 0, [], next), cie), next))
  {
    hide LayoutOf, Meaning, EncodeUnsigned, Unsigned;
    HasAtSplit(ins, off, [ins[off]], EncodeUnsigned(v));
    UnsignedAt(ins, off + 1, v);
  }

  lemma FetchTwo(cie: Cie, little: bool, ins: seq<u8>, off: nat, v: u64, w: u64)
    requires off < |ins| && HasAt(ins, off, [ins[off]] + (EncodeUnsigned(v) + EncodeUnsigned(w)))
    requires LayoutOf(ins[off], cie) == Some(TwoUnsigned)
    ensures var next := off + 1 + |EncodeUnsigned(v)| + |EncodeUnsigned(w)|;
            Fetch(cie, little, ins, off) == Some(Fetched(Meaning(ins[off], Operands(v, w, 0, [], next), cie), next))
  {
    hide LayoutOf, Meaning, EncodeUnsigned, Unsigned;
    HasAtSplit(ins, off, [ins[off]], EncodeUnsigned(v) + EncodeUnsigned(w));
    HasAtSplit(ins, off + 1, EncodeUnsigned(v), EncodeUnsigned(w));
    UnsignedAt(ins, off + 1, v);
    UnsignedAt(ins, off + 1 + |EncodeUnsigned(v)|, w);
  }

  lemma FetchMixed(cie: Cie, little: bool, ins: seq<u8>, off: nat, v: u64, s: i64)
    requires off < |ins| && HasAt(ins, off, [ins[off]] + (EncodeUnsigned(v) + EncodeSigned(s)))
    requires LayoutOf(ins[off], cie) == Some(UnsignedSigned)
    ensures var next := off + 1 + |EncodeUnsigned(v)| + |EncodeSigned(s)|;
            Fetch(cie, little, ins, off) == Some(Fetched(Meaning(ins[off], Operands(v, 0, s, [], next), cie), next))
  {
    hide LayoutOf, Meaning, EncodeUnsigned, EncodeSigned, Unsigned, Signed;
    HasAtSplit(ins, off, [ins[off]], EncodeUnsigned(v) + EncodeSigned(s));
    HasAtSplit(ins, off + 1, EncodeUnsigned(v), EncodeSigned(s));
    UnsignedAt(ins, off + 1, v);
    SignedAt(ins, off + 1 + |EncodeUnsigned(v)|, s);
  }

  lemma FetchSigned(cie: Cie, little: bool, ins: seq<u8>, off: nat, s: i64)
    requires off < |ins| && HasAt(ins, off, [ins[off]] + EncodeSigned(s))
    requires LayoutOf(ins[off], cie) == Some(OneSigned)
    ensures var next := off + 1 + |EncodeSigned(s)|;
            Fetch(cie, little, ins, off) == Some(Fetched(Meaning(ins[off], Operands(0, 0, s, [], next), cie), next))
  {
    hide LayoutOf, Meaning, EncodeSigned, Signed;
    HasAtSplit(ins, off, [ins[off]], EncodeSigned(s));
    SignedAt(ins, off + 1, s);
  }

  lemma FetchBlock(cie: Cie, little: bool, ins: seq<u8>, off: nat, block: seq<u8>)
    requires off < |ins| && |block| < TWO_64 && HasAt(ins, off, [ins[off]] + Block(block))
    requires LayoutOf(ins[off], cie) == Some(Layout.Block)
    ensures var next := off + 1 + |Block(block)|;
            Fetch(cie, little, ins, off) == Some(Fetched(Meaning(ins[off], Operands(0, 0, 0, block, next), cie), next))
  {
    hide LayoutOf, Meaning, EncodeUnsigned, Unsigned, BlockAt, Block;
    HasAtSplit(ins, off, [ins[off]], Block(block));
    BlockAtHas(ins, off + 1, block, 0);
  }

  lemma FetchRegBlock(cie: Cie, little: bool, ins: seq<u8>, off: nat, v: u64, block: seq<u8>)
    requires off < |ins| && |block| < TWO_64 && HasAt(ins, off, [ins[off]] + (EncodeUnsigned(v) + Block(block)))
    requires LayoutOf(ins[off], cie) == Some(UnsignedBlock)
    ensures var next := off + 1 + |EncodeUnsigned(v)| + |Block(block)|;
            Fetch(cie, little, ins, off) == Some(Fetched(Meaning(ins[off], Operands(v, 0, 0, block, next), cie), next))
  {
    hide LayoutOf, Meaning, EncodeUnsigned, Unsigned, BlockAt, Block;
    HasAtSplit(ins, off, [ins[off]], EncodeUnsigned(v) + Block(block));
    HasAtSplit(ins, off + 1, EncodeUnsigned(v), Block(block));
    UnsignedAt(ins, off + 1, v);
    BlockAtHas(ins, off + 1 + |EncodeUnsigned(v)|, block, v);
  }

  lemma LocationAssembled(cie: Cie, little: bool, ins: seq<u8>, off: nat, op: CallFrame)
    requires Encodable(op, cie) && HasAt(ins, off, Assemble(op, cie, little))
    requires op.AdvanceLoc? || op.AdvanceLoc1? || op.AdvanceLoc2? || op.AdvanceLoc4? || op.MipsAdvanceLoc8? || op.SetLocation?
    ensures Fetch(cie, little, ins, off) == Some(Fetched(Effect(op, cie), off + |Assemble(op, cie, little)|))
  {
    hide Fetch, EncodeUnsigned, EncodeSigned, EncodeFixed, Pow256, Block, Wrap64, WrapI64;
    assert ins[off] == ins[off..off + |Assemble(op, cie, little)|][0];
    Powers();
    match op
    case AdvanceLoc(delta) => FetchPlain(cie, little, ins, off); WrapIsId(delta * cie.codeAlignmentFactor);
    case AdvanceLoc1(wide) => FetchFixed(cie, little, ins, off, wide, 1); WrapIsId(wide * cie.codeAlignmentFactor);
    case AdvanceLoc2(wide) => FetchFixed(cie, little, ins, off, wide, 2); WrapIsId(wide * cie.codeAlignmentFactor);
    case AdvanceLoc4(wide) => FetchFixed(cie, little, ins, off, wide, 4); WrapIsId(wide * cie.codeAlignmentFactor);
    case MipsAdvanceLoc8(wide) => FetchFixed(cie, little, ins, off, wide, 8); WrapIsId(wide * cie.codeAlignmentFactor);
    case SetLocation(address) => FetchFixed(cie, little, ins, off, address, cie.addressSize);
  }

  lemma TwoAssembled(cie: Cie, little: bool, ins: seq<u8>, off: nat, op: CallFrame)
    requires Encodable(op, cie) && HasAt(ins, off, Assemble(op, cie, little))
    requires op.OffsetExtended? || op.ValOffsetAt? || op.GnuNegativeOffsetExtended? || op.RegisterCopy? || op.DefineCfa?
    ensures Fetch(cie, little, ins, off) == Some(Fetched(Effect(op, cie), off + |Assemble(op, cie, little)|))
  {
    hide Fetch, EncodeUnsigned, EncodeSigned, EncodeFixed, Pow256, Block, Wrap64, WrapI64;
    assert ins[off] == ins[off..off + |Assemble(op, cie, little)|][0];
    match op
    case OffsetExtended(reg, n) => FetchTwo(cie, little, ins, off, reg, n); WrapIsId(n * cie.dataAlignmentFactor);
    case ValOffsetAt(reg, n) => FetchTwo(cie, little, ins, off, reg, n); WrapIsId(n * cie.dataAlignmentFactor);
    case GnuNegativeOffsetExtended(reg, n) => FetchTwo(cie, little, ins, off, reg, n); WrapIsId((0 - n) * cie.dataAlignmentFactor);
    case RegisterCopy(reg, from) => FetchTwo(cie, little, ins, off, reg, from);
    case DefineCfa(reg, offset) => FetchTwo(cie, little, ins, off, reg, offset);
  }

  lemma SignedAssembled(cie: Cie, little: bool, ins: seq<u8>, off: nat, op: CallFrame)
    requires Encodable(op, cie) && HasAt(ins, off, Assemble(op, cie, little))
    requires op.OffsetExtendedSf? || op.ValOffsetSf? || op.DefineCfaSf? || op.DefineCfaOffsetSf?
    ensures Fetch(cie, little, ins, off) == Some(Fetched(Effect(op, cie), off + |Assemble(op, cie, little)|))
  {
    hide Fetch, EncodeUnsigned, EncodeSigned, EncodeFixed, Pow256, Block, Wrap64, WrapI64;
    assert ins[off] == ins[off..off + |Assemble(op, cie, little)|][0];
    match op
    case OffsetExtendedSf(reg, s) => FetchMixed(cie, little, ins, off, reg, s); WrapIsId(s * cie.dataAlignmentFactor);
    case ValOffsetSf(reg, s) => FetchMixed(cie, little, ins, off, reg, s); WrapIsId(s * cie.dataAlignmentFactor);
    case DefineCfaSf(reg, s) => FetchMixed(cie, little, ins, off, reg, s); WrapIsId(s * cie.dataAlignmentFactor);
    case DefineCfaOffsetSf(s) => FetchSigned(cie, little, ins, off, s); WrapIsId(s * cie.dataAlignmentFactor);
  }

  lemma OneAssembled(cie: Cie, little: bool, ins: seq<u8>, off: nat, op: CallFrame)
    requires Encodable(op, cie) && HasAt(ins, off, Assemble(op, cie, little))
    requires op.OffsetPrimary? || op.RestoreExtended? || op.UndefinedReg? || op.SameValueReg? || op.DefineCfaRegister? || op.DefineCfaOffset? || op.GnuArgsSize?
    ensures Fetch(cie, little, ins, off) == Some(Fetched(Effect(op, cie), off + |Assemble(op, cie, little)|))
  {
    hide Fetch, EncodeUnsigned, EncodeSigned, EncodeFixed, Pow256, Block, Wrap64, WrapI64;
    assert ins[off] == ins[off..off + |Assemble(op, cie, little)|][0];
    match op
    case OffsetPrimary(_, n) => FetchOne(cie, little, ins, off, n); WrapIsId(n * cie.dataAlignmentFactor);
    case RestoreExtended(reg) => FetchOne(cie, little, ins, off, reg);
    case UndefinedReg(reg) => FetchOne(cie, little, ins, off, reg);
    case SameValueReg(reg) => FetchOne(cie, little, ins, off, reg);
    case DefineCfaRegister(reg) => FetchOne(cie, little, ins, off, reg);
    case DefineCfaOffset(offset) => FetchOne(cie, little, ins, off, offset);
    case GnuArgsSize(size) => FetchOne(cie, little, ins, off, size);
  }

  lemma BlockAssembled(cie: Cie, little: bool, ins: seq<u8>, off: nat, op: CallFrame)
    requires Encodable(op, cie) && HasAt(ins, off, Assemble(op, cie, little))
    requires op.DefineCfaExpression? || op.ExpressionAt? || op.ValExpressionAt?
    ensures Fetch(cie, little, ins, off) == Some(Fetched(Effect(op, cie), off + |Assemble(op, cie, little)|))
  {
    hide Fetch, EncodeUnsigned, EncodeSigned, EncodeFixed, Pow256, Block, Wrap64, WrapI64;
    assert ins[off] == ins[off..off + |Assemble(op, cie, little)|][0];
    match op
    case DefineCfaExpression(block) => FetchBlock(cie, little, ins, off, block);
    case ExpressionAt(reg, block) => FetchRegBlock(cie, little, ins, off, reg, block);
    case ValExpressionAt(reg, block) => FetchRegBlock(cie, little, ins, off, reg, block);
  }

  lemma PlainAssembled(cie: Cie, little: bool, ins: seq<u8>, off: nat, op: CallFrame)
    requires Encodable(op, cie) && HasAt(ins, off, Assemble(op, cie, little))
    requires op.RestorePrimary? || op.RememberState? || op.RestoreState? || op.NegateRaSignState? || op.Nop?
    ensures Fetch(cie, little, ins, off) == Some(Fetched(Effect(op, cie), off + |Assemble(op, cie, little)|))
  {
    hide Fetch, EncodeUnsigned, EncodeSigned, EncodeFixed, Pow256, Block, Wrap64, WrapI64;
    assert ins[off] == ins[off..off + |Assemble(op, cie, little)|][0];
    FetchPlain(cie, little, ins, off);
  }

  /** Every instruction that can be written is read back as what section 6.4.2 says of it, and
      exactly its bytes are consumed, in both byte orders. */
  lemma FetchAssembled(cie: Cie, little: bool, ins: seq<u8>, off: nat, op: CallFrame)
    requires Encodable(op, cie) && HasAt(ins, off, Assemble(op, cie, little))
    ensures Fetch(cie, little, ins, off) == Some(Fetched(Effect(op, cie), off + |Assemble(op, cie, little)|))
  {
    hide Fetch, Assemble, Effect, Encodable;
    match op
    case AdvanceLoc(_) | AdvanceLoc1(_) | AdvanceLoc2(_) | AdvanceLoc4(_) | MipsAdvanceLoc8(_) | SetLocation(_) =>
      LocationAssembled(cie, little, ins, off, op);
    case OffsetExtended(_, _) | ValOffsetAt(_, _) | GnuNegativeOffsetExtended(_, _) | RegisterCopy(_, _) | DefineCfa(_, _) =>
      TwoAssembled(cie, little, ins, off, op);
    case OffsetExtendedSf(_, _) | ValOffsetSf(_, _) | DefineCfaSf(_, _) | DefineCfaOffsetSf(_) =>
      SignedAssembled(cie, little, ins, off, op);
    case DefineCfaExpression(_) | ExpressionAt(_, _) | ValExpressionAt(_, _) =>
      BlockAssembled(cie, little, ins, off, op);
    case RestorePrimary(_) | RememberState | RestoreState | NegateRaSignState | Nop =>
      PlainAssembled(cie, little, ins, off, op);
    case _ =>
      OneAssembled(cie, little, ins, off, op);
  }

  // ------------------------------------------------------- streams that break off

  lemma {:induction false} LengthMore(bytes: seq<u8>, more: seq<u8>, off: nat)
    requires Length(bytes, off).Some?
    ensures Length(bytes + more, off) == Length(bytes, off)
    decreases |bytes| - off
  {
    if bytes[off] >= 0x80 {
      LengthMore(bytes, more, off + 1);
    }
  }

  lemma {:induction false} DigitsMore(bytes: seq<u8>, more: seq<u8>, off: nat, n: nat)
    requires off + n <= |bytes|
    ensures Digits(bytes + more, off, n) == Digits(bytes, off, n)
    decreases n
  {
    if n > 0 {
      DigitsMore(bytes, more, off + 1, n - 1);
    }
  }

  lemma {:induction false} FixedMore(bytes: seq<u8>, more: seq<u8>, off: nat, n: nat, little: bool)
    requires off + n <= |bytes|
    ensures FixedWidth(bytes + more, off, n, little) == FixedWidth(bytes, off, n, little)
    decreases n
  {
    if n > 0 {
      FixedMore(bytes, more, if little then off + 1 else off, n - 1, little);
    }
  }

  lemma NumbersMore(bytes: seq<u8>, more: seq<u8>, off: nat)
    ensures Unsigned(bytes, off).Some? ==> Unsigned(bytes + more, off) == Unsigned(bytes, off)
    ensures Signed(bytes, off).Some? ==> Signed(bytes + more, off) == Signed(bytes, off)
  {
    hide Length, Digits;
    if Length(bytes, off).Some? {
      LengthMore(bytes, more, off);
      DigitsMore(bytes, more, off, Length(bytes, off).value);
    }
  }

  lemma BlockMore(bytes: seq<u8>, more: seq<u8>, off: nat, count: u64, first: u64)
    ensures BlockAt(bytes, off, count, first).Some? ==>
              BlockAt(bytes + more, off, count, first) == BlockAt(bytes, off, count, first)
  {
    if off <= |bytes| && count <= |bytes| - off {
      assert (bytes + more)[off..off + count] == bytes[off..off + count];
    }
  }

  lemma {:induction false} OperandsMore(layout: Layout, bytes: seq<u8>, more: seq<u8>, off: nat, little: bool)
    requires ReadOperands(layout, bytes, off, little).Some?
    ensures ReadOperands(layout, bytes + more, off, little) == ReadOperands(layout, bytes, off, little)
  {
    hide Unsigned, Signed, FixedWidth, BlockAt;
    NumbersMore(bytes, more, off);
    match layout
    case FixedOperand(width) => FixedMore(bytes, more, off, width, little);
    case TwoUnsigned | UnsignedSigned => NumbersMore(bytes, more, Unsigned(bytes, off).value.next);
    case Block => BlockMore(bytes, more, Unsigned(bytes, off).value.next, Unsigned(bytes, off).value.value, 0);
    case ByteCountedBytes => BlockMore(bytes, more, off + 1, bytes[off], 0);
    case UnsignedBlock =>
      var reg := Unsigned(bytes, off).value;
      NumbersMore(bytes, more, reg.next);
      var len := Unsigned(bytes, reg.next).value;
      BlockMore(bytes, more, len.next, len.value, reg.value);
    case _ =>
  }

  /** What follows an instruction has no influence on how it is decoded. */
  lemma {:induction false} FetchMore(cie: Cie, little: bool, ins: seq<u8>, more: seq<u8>, off: nat)
    requires off < |ins| && Fetch(cie, little, ins, off).Some?
    ensures Fetch(cie, little, ins + more, off) == Fetch(cie, little, ins, off)
  {
    hide LayoutOf, ReadOperands, Meaning;
    OperandsMore(LayoutOf(ins[off], cie).value, ins, more, off + 1, little);
  }

  /** An instruction that is cut off ends the stream, and the row stays as it is ... */
  lemma {:induction false} TruncatedEndsStream(
      cie: Cie, little: bool, ins: seq<u8>, off: nat, op: CallFrame, missing: seq<u8>, m: Machine)
    requires Encodable(op, cie) && off < |ins| && missing != []
    requires ins[off..] + missing == Assemble(op, cie, little)
    ensures Trace(cie, little, ins, off, m) == [m.row]
  {
    hide Fetch, Assemble, Encodable, Effect;
    var whole := ins + missing;
    assert whole[off..off + |Assemble(op, cie, little)|] == ins[off..] + missing;
    FetchAssembled(cie, little, whole, off, op);
    if Fetch(cie, little, ins, off).Some? {
      FetchMore(cie, little, ins, missing, off);
      assert false;
    }
    assert Step(cie, little, ins, off, m) == Place(|ins|, m);
  }

  /** ... and so does an opcode of no table. */
  lemma UnknownEndsStream(cie: Cie, little: bool, ins: seq<u8>, off: nat, m: Machine)
    requires off < |ins| && ins[off] < 0x40 && 0x16 < ins[off] && ins[off] !in {0x1d, 0x2d, 0x2e, 0x2f}
    ensures Trace(cie, little, ins, off, m) == [m.row]
  {
    assert Step(cie, little, ins, off, m) == Place(|ins|, m);
  }

  // ------------------------------------------------------------ whole programs

  predicate AllEncodable(ops: seq<CallFrame>, cie: Cie) {
    forall k | 0 <= k < |ops| :: Encodable(ops[k], cie)
  }

  function AssembleAll(ops: seq<CallFrame>, cie: Cie, little: bool): seq<u8>
    requires AllEncodable(ops, cie)
    decreases |ops|
  {
    if ops == [] then [] else Assemble(ops[0], cie, little) + AssembleAll(ops[1..], cie, little)
  }

  /** The procedure of section 6.4.3 on the instructions themselves. */
  function InForce(ops: seq<CallFrame>, cie: Cie, m: Machine, pc: u64): UnwindRow
    requires AllEncodable(ops, cie)
    decreases |ops|
  {
    if ops == [] then m.row
    else
      var i := Effect(ops[0], cie);
      if LocationAfter(i, m.row.location) > pc then m.row else InForce(ops[1..], cie, Apply(i, cie, m), pc)
  }

  /** No instruction moves the location backwards. */
  predicate Forward(ops: seq<CallFrame>, cie: Cie, location: u64)
    requires AllEncodable(ops, cie)
    decreases |ops|
  {
    ops != [] ==>
      var next := LocationAfter(Effect(ops[0], cie), location);
      location <= next && Forward(ops[1..], cie, next)
  }

  lemma {:induction false} ProgramRuns(cie: Cie, little: bool, ins: seq<u8>, off: nat, ops: seq<CallFrame>, m: Machine, pc: u64)
    requires AllEncodable(ops, cie) && HasAt(ins, off, AssembleAll(ops, cie, little))
    requires off + |AssembleAll(ops, cie, little)| == |ins|
    ensures RulesInForce(cie, little, ins, off, m, pc) == InForce(ops, cie, m, pc)
    ensures Forward(ops, cie, m.row.location) ==> NonDecreasing(m.row, Trace(cie, little, ins, off, m))
    decreases |ops|
  {
    hide Fetch, Assemble, Effect, Apply;
    if ops != [] {
      HasAtSplit(ins, off, Assemble(ops[0], cie, little), AssembleAll(ops[1..], cie, little));
      FetchAssembled(cie, little, ins, off, ops[0]);
      var i := Effect(ops[0], cie);
      var next := Apply(i, cie, m);
      ApplyMovesLocation(i, cie, m);
      ProgramRuns(cie, little, ins, off + |Assemble(ops[0], cie, little)|, ops[1..], next, pc);
      var rows := Trace(cie, little, ins, off, m);
      assert rows[0] == next.row;
      assert rows[1..] == Trace(cie, little, ins, off + |Assemble(ops[0], cie, little)|, next);
    }
  }

  /** From instructions to answers: a program written down by the standard's tables, with
      locations that never go backwards, makes the parser's lookup give, at every program counter
      of the FDE, the rules that the standard's procedure finds on the instructions. */
  lemma {:induction false} AssembledProgramUnwinds(fde: Fde, cie: Cie, little: bool, ops: seq<CallFrame>, pc: u64)
    requires fde.initialLocation + fde.addressRange < TWO_64
    requires fde.initialLocation <= pc < fde.initialLocation + fde.addressRange
    requires AllEncodable(ops, cie) && fde.instructions == AssembleAll(ops, cie, little)
    requires Forward(ops, cie, fde.initialLocation)
    ensures RowFor(fde, cie, little, pc) == InForce(ops, cie, InitialMachine(fde, cie), pc)
  {
    hide AssembleAll, RowFor, RulesInForce, InForce, Trace, Forward, NonDecreasing;
    var ins, m := fde.instructions, InitialMachine(fde, cie);
    assert ins[0..|ins|] == ins;
    ProgramRuns(cie, little, ins, 0, ops, m, pc);
    LookupMeetsStandard(fde, cie, little, pc);
  }
}
