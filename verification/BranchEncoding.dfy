/** The AArch64 instructions with pc-relative immediates that src/cfg_reconstruction.cpp knows,
    written out from their fields: what the decoder and the normalizer of hashes make of them. */
module BranchEncoding {
  import opened Words
  import opened BasicBlocks

  type Bit = x: int | 0 <= x < 2
  type Reg = x: int | 0 <= x < 32

  /** All fields but the immediate. `high` is bit 31. */
  datatype PcRelative =
    | B
    | Bl
    | BCond(cond: u8)
    | Cbz(high: Bit, reg: Reg)
    | Tbz(high: Bit, bit: Reg, reg: Reg)
    | Adr(high: Bit, low: u8, reg: Reg)
    | LdrLiteral(opc: u8, vector: Bit, reg: Reg)

  predicate Wellformed(i: PcRelative) {
    match i
    case BCond(cond) => cond < 16
    case Adr(_, low, _) => low < 4
    case LdrLiteral(opc, _, _) => opc < 4
    case _ => true
  }

  /** Half the number of values of the immediate. */
  function HalfRange(i: PcRelative): int {
    match i
    case B | Bl => 0x200_0000
    case Tbz(_, _, _) => 0x2000
    case _ => 0x4_0000
  }

  /** The instruction word with a signed immediate. */
  function Encode(i: PcRelative, imm: int): u32
    requires Wellformed(i) && -HalfRange(i) <= imm < HalfRange(i)
  {
    match i
    case B => 0x1400_0000 + imm % 0x400_0000
    case Bl => 0x9400_0000 + imm % 0x400_0000
    case BCond(cond) => 0x5400_0000 + 0x20 * (imm % 0x8_0000) + cond
    case Cbz(high, reg) => 0x8000_0000 * high + 0x3400_0000 + 0x20 * (imm % 0x8_0000) + reg
    case Tbz(high, bit, reg) => 0x8000_0000 * high + 0x3600_0000 + 0x8_0000 * bit + 0x20 * (imm % 0x4000) + reg
    case Adr(high, low, reg) => 0x8000_0000 * high + 0x2000_0000 * low + 0x1000_0000 + 0x20 * (imm % 0x8_0000) + reg
    case LdrLiteral(opc, vector, reg) =>
      0x4000_0000 * opc + 0x1800_0000 + 0x400_0000 * vector + 0x20 * (imm % 0x8_0000) + reg
  }

  predicate IsBranch(i: PcRelative) {
    i.B? || i.BCond? || i.Cbz? || i.Tbz?
  }

  /** The instruction with its immediate cleared, and for ADR and ADRP the two low bits of it. */
  function Cleared(i: PcRelative): PcRelative {
    if i.Adr? then i.(low := 0) else i
  }

  // ------------------------------------------- top byte and lower three bytes

  function Word(top: u8, low: int): u32
    requires 0 <= low < 0x100_0000
  {
    0x100_0000 * top + low
  }

  lemma Quotients(top: u8, low: int)
    requires 0 <= low < 0x100_0000
    ensures var x := Word(top, low);
            && x / 0x100_0000 == top && x % 0x100_0000 == low
            && x / 0x400_0000 == top / 4 && x / 0x800_0000 == top / 8 && x / 0x8000_0000 == top / 0x80
  {
  }

  lemma Mod32(k: int, y: int)
    ensures (0x20 * k + y) % 0x20 == y % 0x20 && (0x20 * k + y) / 0x20 == k + y / 0x20
  {
  }

  lemma Mod19(k: int, y: int)
    ensures (0x8_0000 * k + y) % 0x8_0000 == y % 0x8_0000
  {
  }

  lemma Bit4(k: int, y: int)
    ensures (0x20 * k + y) / 0x10 % 2 == y / 0x10 % 2
  {
    assert (0x20 * k + y) / 0x10 == 2 * k + y / 0x10;
  }

  lemma Mod26(top: u8, low: int)
    requires 0 <= low < 0x100_0000
    ensures Word(top, low) % 0x400_0000 == 0x100_0000 * (top % 4) + low
  {
    assert Word(top, low) == 0x400_0000 * (top / 4) + (0x100_0000 * (top % 4) + low);
  }

  lemma LowFields(top: u8, low: int)
    requires 0 <= low < 0x100_0000
    ensures var x := Word(top, low);
            && x % 0x20 == low % 0x20 && x / 0x10 % 2 == low / 0x10 % 2 && x % 0x8_0000 == low % 0x8_0000
            && x % 0x400_0000 == 0x100_0000 * (top % 4) + low
  {
    Mod26(top, low);
    assert Word(top, low) == 0x20 * (0x8_0000 * top) + low == 0x8_0000 * (0x20 * top) + low;
    hide Word;
    Mod32(0x8_0000 * top, low);
    Bit4(0x8_0000 * top, low);
    Mod19(0x20 * top, low);
  }

  lemma LowImmediates(top: u8, low: int)
    requires 0 <= low < 0x100_0000
    ensures var x := Word(top, low);
            x / 0x20 % 0x8_0000 == low / 0x20 && x / 0x20 % 0x4000 == low / 0x20 % 0x4000
  {
    assert Word(top, low) / 0x20 == 0x8_0000 * top + low / 0x20;
  }

  /** The decoder on the two parts. */
  lemma DecodeParts(top: u8, low: int)
    requires 0 <= low < 0x100_0000
    ensures Displacement(Word(top, low))
         == if top / 4 == 5 then Some(4 * SignExtend(0x100_0000 * (top % 4) + low, 0x200_0000))
            else if (top == 0x54 && low / 0x10 % 2 == 0) || top % 0x80 == 0x34 then
              Some(4 * SignExtend(low / 0x20, 0x4_0000))
            else if top % 0x80 == 0x36 then Some(4 * SignExtend(low / 0x20 % 0x4000, 0x2000))
            else None
  {
    hide Word;
    Quotients(top, low);
    LowFields(top, low);
    LowImmediates(top, low);
  }

  lemma MaskedWords(top: u8, low: int)
    requires 0 <= low < 0x100_0000
    ensures var x := Word(top, low);
            && x - x % 0x400_0000 == Word(top - top % 4, 0)
            && x - x % 0x100_0000 + x % 0x20 == Word(top, low % 0x20)
            && x - x % 0x8_0000 + x % 0x20 == Word(top, low - low % 0x8_0000 + low % 0x20)
            && x / 0x8000_0000 * 0x8000_0000 + 0x1000_0000 + x % 0x20 == Word(top / 0x80 * 0x80 + 0x10, low % 0x20)
  {
    Quotients(top, low);
    LowFields(top, low);
  }

  /** The normalizer on the two parts. */
  lemma MaskParts(top: u8, low: int)
    requires 0 <= low < 0x100_0000
    ensures MaskInsn(Word(top, low), true)
         == if top / 4 == 5 || top / 4 == 0x25 then Word(top - top % 4, 0)
            else if (top == 0x54 && low / 0x10 % 2 == 0) || top % 0x80 == 0x34 then Word(top, low % 0x20)
            else if top % 0x80 == 0x36 then Word(top, low - low % 0x8_0000 + low % 0x20)
            else if top % 0x20 == 0x10 then Word(top / 0x80 * 0x80 + 0x10, low % 0x20)
            else if top % 4 == 0 && top / 8 % 8 == 3 then Word(top, low % 0x20)
            else Word(top, low)
  {
    MaskedWords(top, low);
    hide Word;
    Quotients(top, low);
    LowFields(top, low);
  }

  function Top(i: PcRelative, imm: int): u8
    requires Wellformed(i)
  {
    match i
    case B => 0x14 + imm % 0x400_0000 / 0x100_0000
    case Bl => 0x94 + imm % 0x400_0000 / 0x100_0000
    case BCond(_) => 0x54
    case Cbz(high, _) => 0x80 * high + 0x34
    case Tbz(high, _, _) => 0x80 * high + 0x36
    case Adr(high, low, _) => 0x80 * high + 0x20 * low + 0x10
    case LdrLiteral(opc, vector, _) => 0x40 * opc + 0x18 + 4 * vector
  }

  function Low(i: PcRelative, imm: int): (low: int)
    requires Wellformed(i)
    ensures 0 <= low < 0x100_0000
  {
    match i
    case B | Bl => imm % 0x400_0000 % 0x100_0000
    case BCond(cond) => 0x20 * (imm % 0x8_0000) + cond
    case Tbz(_, bit, reg) => 0x8_0000 * bit + 0x20 * (imm % 0x4000) + reg
    case Cbz(_, reg) => 0x20 * (imm % 0x8_0000) + reg
    case Adr(_, _, reg) => 0x20 * (imm % 0x8_0000) + reg
    case LdrLiteral(_, _, reg) => 0x20 * (imm % 0x8_0000) + reg
  }

  lemma Parts(i: PcRelative, imm: int)
    requires Wellformed(i) && -HalfRange(i) <= imm < HalfRange(i)
    ensures Encode(i, imm) == Word(Top(i, imm), Low(i, imm))
  {
  }

  lemma SignRestored(imm: int)
    ensures -0x200_0000 <= imm < 0x200_0000 ==> SignExtend(imm % 0x400_0000, 0x200_0000) == imm
    ensures -0x4_0000 <= imm < 0x4_0000 ==> SignExtend(imm % 0x8_0000, 0x4_0000) == imm
    ensures -0x2000 <= imm < 0x2000 ==> SignExtend(imm % 0x4000, 0x2000) == imm
  {
  }

  /** The fields of the lower three bytes. */
  lemma LowParts(i: PcRelative, imm: int)
    requires Wellformed(i) && !i.B? && !i.Bl?
    ensures var low := Low(i, imm);
            && low / 0x20 % 0x4000 == imm % (if i.Tbz? then 0x4000 else 0x8_0000) % 0x4000
            && (!i.Tbz? ==> low / 0x20 == imm % 0x8_0000)
            && (i.Tbz? ==> low - low % 0x8_0000 == 0x8_0000 * i.bit)
            && low % 0x20 == (if i.BCond? then i.cond else i.reg)
            && low / 0x10 % 2 == (if i.BCond? then i.cond else i.reg) / 0x10
  {
    var r: int := if i.BCond? then i.cond else i.reg;
    var f := if i.Tbz? then 0x4000 * i.bit + imm % 0x4000 else imm % 0x8_0000;
    assert Low(i, imm) == 0x20 * f + r;
    hide Low;
    Mod32(f, r);
    Bit4(f, r);
    if i.Tbz? {
      TestedBit(i.bit, imm % 0x4000, i.reg);
    }
  }

  lemma TestedBit(bit: Reg, f: nat, reg: Reg)
    requires f < 0x4000
    ensures (0x4000 * bit + f) % 0x4000 == f
    ensures var low := 0x20 * (0x4000 * bit + f) + reg; low - low % 0x8_0000 == 0x8_0000 * bit
  {
    Mod19(bit, 0x20 * f + reg);
  }

  /** The two parts of an unconditional branch or call. */
  lemma LongParts(i: PcRelative, imm: int)
    requires i.B? || i.Bl?
    ensures var base := if i.B? then 0x14 else 0x94;
            && 0x100_0000 * (Top(i, imm) % 4) + Low(i, imm) == imm % 0x400_0000
            && Top(i, imm) - Top(i, imm) % 4 == base && Top(i, imm) / 4 == base / 4
            && Top(i, 0) == base && Low(i, 0) == 0
  {
  }

  lemma LongDisplacement(i: PcRelative, imm: int)
    requires (i.B? || i.Bl?) && -HalfRange(i) <= imm < HalfRange(i)
    ensures Displacement(Encode(i, imm)) == if i.B? then Some(4 * imm) else None
  {
    Parts(i, imm);
    LongParts(i, imm);
    SignRestored(imm);
    hide Encode, Word, Displacement, SignExtend, Top, Low;
    DecodeParts(Top(i, imm), Low(i, imm));
  }

  predicate KindByTop(i: PcRelative, t: u8) {
    && t / 4 != 5 && t / 4 != 0x25
    && (t == 0x54 <==> i.BCond?) && (t % 0x80 == 0x34 <==> i.Cbz?) && (t % 0x80 == 0x36 <==> i.Tbz?)
    && (t % 0x20 == 0x10 <==> i.Adr?) && (t % 4 == 0 && t / 8 % 8 == 3 <==> i.LdrLiteral?)
  }

  lemma AdrTop(i: PcRelative, imm: int)
    requires Wellformed(i) && i.Adr?
    ensures KindByTop(i, Top(i, imm))
  {
    var k := 4 * i.high + i.low;
    assert Top(i, imm) == 0x20 * k + 0x10 && k < 8;
    hide Top;
    if k < 4 {
      assert k == 0 || k == 1 || k == 2 || k == 3;
    } else {
      assert k == 4 || k == 5 || k == 6 || k == 7;
    }
  }

  lemma LdrTop(i: PcRelative, imm: int)
    requires Wellformed(i) && i.LdrLiteral?
    ensures KindByTop(i, Top(i, imm))
  {
    var opc := i.opc;
    assert Top(i, imm) == 0x40 * opc + 0x18 + 4 * i.vector;
    hide Top;
    assert opc == 0 || opc == 1 || opc == 2 || opc == 3;
    assert i.vector == 0 || i.vector == 1;
  }

  /** What the top byte tells about the kind of the others. */
  lemma TopTells(i: PcRelative, imm: int)
    requires Wellformed(i) && !i.B? && !i.Bl?
    ensures KindByTop(i, Top(i, imm))
  {
    match i
    case BCond(_) | Cbz(_, _) | Tbz(_, _, _) =>
    case Adr(_, _, _) => AdrTop(i, imm);
    case LdrLiteral(_, _, _) => LdrTop(i, imm);
  }

  lemma TopCleared(i: PcRelative, imm: int)
    requires Wellformed(i) && !i.B? && !i.Bl?
    ensures Top(Cleared(i), 0) == if i.Adr? then Top(i, imm) / 0x80 * 0x80 + 0x10 else Top(i, imm)
  {
  }

  lemma ShortDisplacement(i: PcRelative, imm: int)
    requires Wellformed(i) && !i.B? && !i.Bl? && -HalfRange(i) <= imm < HalfRange(i)
    ensures Displacement(Encode(i, imm)) == if IsBranch(i) then Some(4 * imm) else None
  {
    hide Encode, Word, Displacement, SignExtend, Low, Top;
    Parts(i, imm);
    TopTells(i, imm);
    DecodeParts(Top(i, imm), Low(i, imm));
    if IsBranch(i) {
      ShortImmediate(i, imm);
    }
  }

  lemma ShortImmediate(i: PcRelative, imm: int)
    requires Wellformed(i) && IsBranch(i) && !i.B? && -HalfRange(i) <= imm < HalfRange(i)
    ensures var low := Low(i, imm);
            && (i.BCond? ==> low / 0x10 % 2 == 0)
            && imm == if i.Tbz? then SignExtend(low / 0x20 % 0x4000, 0x2000) else SignExtend(low / 0x20, 0x4_0000)
  {
    LowParts(i, imm);
    SignRestored(imm);
    hide Low, SignExtend;
    assert imm % 0x4000 % 0x4000 == imm % 0x4000;
  }

  /** The target of every recognised branch is decoded as it was written; other instructions have
      none. */
  lemma DisplacementRoundTrip(i: PcRelative, imm: int)
    requires Wellformed(i) && -HalfRange(i) <= imm < HalfRange(i)
    ensures Displacement(Encode(i, imm)) == if IsBranch(i) then Some(4 * imm) else None
  {
    if i.B? || i.Bl? {
      LongDisplacement(i, imm);
    } else {
      ShortDisplacement(i, imm);
    }
  }

  lemma ClearedLow(i: PcRelative)
    requires Wellformed(i) && !i.B? && !i.Bl?
    ensures Low(Cleared(i), 0) == (if i.Tbz? then 0x8_0000 * i.bit else 0) + (if i.BCond? then i.cond else i.reg)
  {
  }

  lemma MaskClearsLong(i: PcRelative, imm: int)
    requires (i.B? || i.Bl?) && -HalfRange(i) <= imm < HalfRange(i)
    ensures MaskInsn(Encode(i, imm), true) == Encode(i, 0)
  {
    Parts(i, imm);
    Parts(i, 0);
    LongParts(i, imm);
    hide Encode, Word, MaskInsn, Top, Low;
    MaskParts(Top(i, imm), Low(i, imm));
  }

  lemma LowCleared(i: PcRelative, imm: int)
    requires Wellformed(i) && !i.B? && !i.Bl?
    ensures var low := Low(i, imm);
            && (i.BCond? ==> low / 0x10 % 2 == 0)
            && Low(Cleared(i), 0) == if i.Tbz? then low - low % 0x8_0000 + low % 0x20 else low % 0x20
  {
    LowParts(i, imm);
    ClearedLow(i);
    hide Low;
  }

  lemma MaskClearsShort(i: PcRelative, imm: int)
    requires Wellformed(i) && !i.B? && !i.Bl? && -HalfRange(i) <= imm < HalfRange(i)
    ensures MaskInsn(Encode(i, imm), true) == Encode(Cleared(i), 0)
  {
    hide Encode, Word, MaskInsn, Low, Top;
    Parts(i, imm);
    Parts(Cleared(i), 0);
    TopTells(i, imm);
    TopCleared(i, imm);
    LowCleared(i, imm);
    MaskParts(Top(i, imm), Low(i, imm));
  }

  lemma MaskClears(i: PcRelative, imm: int)
    requires Wellformed(i) && -HalfRange(i) <= imm < HalfRange(i)
    ensures MaskInsn(Encode(i, imm), true) == Encode(Cleared(i), 0)
  {
    if i.B? || i.Bl? {
      MaskClearsLong(i, imm);
    } else {
      MaskClearsShort(i, imm);
    }
  }

  lemma EncodeIsInjective(i: PcRelative, j: PcRelative)
    requires Wellformed(i) && Wellformed(j) && Encode(i, 0) == Encode(j, 0)
    ensures i == j
  {
    Parts(i, 0);
    Parts(j, 0);
    Quotients(Top(i, 0), Low(i, 0));
    Quotients(Top(j, 0), Low(j, 0));
    SameParts(i, j);
  }

  lemma SameKind(i: PcRelative, j: PcRelative)
    requires Wellformed(i) && Wellformed(j) && Top(i, 0) == Top(j, 0)
    ensures i.B? == j.B? && i.Bl? == j.Bl? && i.BCond? == j.BCond? && i.Cbz? == j.Cbz? && i.Tbz? == j.Tbz?
         && i.Adr? == j.Adr? && i.LdrLiteral? == j.LdrLiteral?
  {
    if i.B? || i.Bl? {
      LongParts(i, 0);
    } else {
      TopTells(i, 0);
    }
    if j.B? || j.Bl? {
      LongParts(j, 0);
    } else {
      TopTells(j, 0);
    }
    hide Top, Low;
  }

  lemma SameParts(i: PcRelative, j: PcRelative)
    requires Wellformed(i) && Wellformed(j) && Top(i, 0) == Top(j, 0) && Low(i, 0) == Low(j, 0)
    ensures i == j
  {
    SameKind(i, j);
    match i
    case B | Bl =>
    case BCond(cond) => assert Low(i, 0) == cond;
    case Cbz(high, reg) => assert Low(i, 0) == reg;
    case Tbz(high, bit, reg) => assert Low(i, 0) == 0x8_0000 * bit + reg;
    case Adr(high, low, reg) => assert Low(i, 0) == reg;
    case LdrLiteral(opc, vector, reg) => assert Low(i, 0) == reg;
  }

  /** Normalization forgets the immediate and nothing else: two instructions are hashed alike if
      and only if they differ at most in it. */
  lemma MaskForgetsImmediate(i: PcRelative, imm: int, i': PcRelative, imm': int)
    requires Wellformed(i) && -HalfRange(i) <= imm < HalfRange(i)
    requires Wellformed(i') && -HalfRange(i') <= imm' < HalfRange(i')
    ensures MaskInsn(Encode(i, imm), true) == MaskInsn(Encode(i', imm'), true) <==> Cleared(i) == Cleared(i')
  {
    hide MaskInsn, Encode;
    MaskClears(i, imm);
    MaskClears(i', imm');
    if Encode(Cleared(i), 0) == Encode(Cleared(i'), 0) {
      EncodeIsInjective(Cleared(i), Cleared(i'));
    }
  }
}
