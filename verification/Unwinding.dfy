/** What an unwind state does: `computeCFA` and `getRegisterValue` of src/cfi_parser.cpp and
    `unwindFrame` of src/call_stack.cpp. The DWARF expression evaluator is a parameter. */
module Unwinding {
  import opened Words
  import opened CfiModel
  import opened CfiInterpreter

  type Memory = u64 -> u64

  /** Expression bytes, register values, CFA, address size and memory to a value, if any. */
  type Evaluator = (seq<u8>, seq<u64>, u64, u8, Memory) -> Option<u64>

  function EvalExpression(
      eval: Evaluator, expression: seq<u8>, regs: seq<u64>, cfa: u64, addressSize: u8, mem: Memory): Option<u64>
  {
    if expression == [] then None else eval(expression, regs, cfa, addressSize, mem)
  }

  function ComputeCfa(info: UnwindInfo, regs: seq<u64>, mem: Memory, eval: Evaluator): u64 {
    match info.cfa.kind
    case RegisterOffset =>
      if info.cfa.regNum < |regs| then Wrap64(regs[info.cfa.regNum] + info.cfa.offset) else 0
    case CfaExpression =>
      match EvalExpression(eval, info.cfa.expression, regs, 0, info.addressSize, mem)
      case Some(v) => v
      case None => 0
  }

  const PAUTH_CMASK_REGISTER := 36

  function StripPac(v: u64, regs: seq<u64>): u64 {
    if PAUTH_CMASK_REGISTER < |regs| && regs[PAUTH_CMASK_REGISTER] != 0
    then ((v as bv64) & !(regs[PAUTH_CMASK_REGISTER] as bv64)) as int
    else v % 0x100_0000_0000_0000
  }

  /** The value a rule recovers for register `reg`, before any pointer authentication is
      stripped. */
  function RuleValue(
      rule: RegisterRule, reg: u64, addressSize: u8, regs: seq<u64>, cfa: u64, mem: Memory, eval: Evaluator): Option<u64>
  {
    match rule.kind
    case Undefined | Architectural => None
    case SameValue => if reg < |regs| then Some(regs[reg]) else None
    case Offset => Some(mem(Wrap64(cfa + rule.offset)))
    case ValOffset => Some(Wrap64(cfa + rule.offset))
    case Register => if rule.regNum < |regs| then Some(regs[rule.regNum]) else None
    case Expression =>
      (match EvalExpression(eval, rule.expression, regs, cfa, addressSize, mem)
       case None => None
       case Some(address) => Some(mem(address)))
    case ValExpression => EvalExpression(eval, rule.expression, regs, cfa, addressSize, mem)
  }

  function RegisterValue(
      info: UnwindInfo, reg: u64, regs: seq<u64>, cfa: u64, mem: Memory, eval: Evaluator): Option<u64>
  {
    if reg !in info.registers then None
    else
      match RuleValue(info.registers[reg], reg, info.addressSize, regs, cfa, mem, eval)
      case None => None
      case Some(v) =>
        if reg == info.returnAddressRegister && info.raSignState != 0 then Some(StripPac(v, regs)) else Some(v)
  }

  /** The caller's registers: what the rules recover, everything else unchanged. */
  function CallerRegisters(info: UnwindInfo, regs: seq<u64>, cfa: u64, mem: Memory, eval: Evaluator): (r: seq<u64>)
    ensures |r| == |regs|
  {
    seq(|regs|, i requires 0 <= i < |regs| =>
      if i < TWO_64 then
        match RegisterValue(info, i, regs, cfa, mem, eval)
        case Some(v) => v
        case None => regs[i]
      else regs[i])
  }

  datatype Caller = Caller(returnAddress: u64, registers: seq<u64>)

  /** The outcome of unwinding one frame; None where `unwindFrame` returns false. */
  function Unwind(info: UnwindInfo, regs: seq<u64>, mem: Memory, eval: Evaluator): Option<Caller> {
    if !info.valid then None
    else
      var cfa := ComputeCfa(info, regs, mem, eval);
      if cfa == 0 then None
      else
        match RegisterValue(info, info.returnAddressRegister, regs, cfa, mem, eval)
        case None => None
        case Some(ra) => Some(Caller(ra, CallerRegisters(info, regs, cfa, mem, eval)))
  }

  // ------------------------------------------- section 6.4.1 of DWARF 5

  /** `b` is `n` bytes from `a`, going around the address space. */
  predicate Apart(a: u64, b: u64, n: int) {
    (b - a - n) % 0x1_0000_0000_0000_0000 == 0
  }

  /** The expression has the value `v`; an empty one has none. */
  predicate Evaluates(
      eval: Evaluator, expression: seq<u8>, regs: seq<u64>, cfa: u64, addressSize: u8, mem: Memory, v: u64)
  {
    expression != [] && eval(expression, regs, cfa, addressSize, mem) == Some(v)
  }

  /** The callee holds `v` for register `reg` where its rule says: stored N bytes from the CFA, being
      N bytes from it, in the register itself or in another one, stored at the address an expression
      gives, or being its value. Nothing is held for an undefined register. */
  ghost predicate Holds(
      rule: RegisterRule, reg: u64, v: u64, addressSize: u8, regs: seq<u64>, cfa: u64, mem: Memory, eval: Evaluator)
  {
    match rule.kind
    case Undefined => false
    case SameValue => reg < |regs| && v == regs[reg]
    case Offset => exists a: u64 :: Apart(cfa, a, rule.offset) && v == mem(a)
    case ValOffset => Apart(cfa, v, rule.offset)
    case Register => rule.regNum < |regs| && v == regs[rule.regNum]
    case Expression => exists a: u64 :: Evaluates(eval, rule.expression, regs, cfa, addressSize, mem, a) && v == mem(a)
    case ValExpression => Evaluates(eval, rule.expression, regs, cfa, addressSize, mem, v)
    case Architectural => false
  }

  /** The CFA the state defines: so far from a register, or the value of an expression. */
  ghost predicate HasCfa(info: UnwindInfo, regs: seq<u64>, cfa: u64, mem: Memory, eval: Evaluator) {
    match info.cfa.kind
    case RegisterOffset => info.cfa.regNum < |regs| && Apart(regs[info.cfa.regNum], cfa, info.cfa.offset)
    case CfaExpression => Evaluates(eval, info.cfa.expression, regs, 0, info.addressSize, mem, cfa)
  }

  /** `signed` is `plain`, which has no bit of the mask, with some bits of the mask set. */
  predicate Masked(plain: bv64, code: bv64, signed: bv64, mask: bv64) {
    plain & mask == 0 && code & !mask == 0 && signed == plain | code
  }

  ghost predicate CarriesCode(v: u64, signed: bv64, mask: bv64) {
    exists plain, code: bv64 :: Masked(plain, code, signed, mask) && v == plain as int
  }

  predicate Tagged(v: u64, tag: u8, signed: u64) {
    v < 0x100_0000_0000_0000 && signed == v + tag * 0x100_0000_0000_0000
  }

  /** `signed` is the address `v` with an authentication code: in the bits of register 36 if there is
      such a register and it is not zero, in the top byte otherwise. */
  ghost predicate SignedFrom(v: u64, signed: u64, regs: seq<u64>) {
    if 36 < |regs| && regs[36] != 0
    then CarriesCode(v, signed as bv64, regs[36] as bv64)
    else exists tag: u8 :: Tagged(v, tag, signed)
  }

  /** The state says that register `reg` of the caller is `v`. The return address of a signed frame
      is held with its authentication code. */
  ghost predicate Recovers(info: UnwindInfo, reg: u64, v: u64, regs: seq<u64>, cfa: u64, mem: Memory, eval: Evaluator) {
    && reg in info.registers
    && exists held: u64 ::
         && Holds(info.registers[reg], reg, held, info.addressSize, regs, cfa, mem, eval)
         && if reg == info.returnAddressRegister && info.raSignState != 0 then SignedFrom(v, held, regs) else v == held
  }

  /** What the state says about register `i`, or the value it has. */
  ghost predicate AsTheStateSays(
      info: UnwindInfo, i: nat, v: u64, regs: seq<u64>, cfa: u64, mem: Memory, eval: Evaluator)
    requires i < |regs|
  {
    if i < TWO_64 && exists w: u64 :: Recovers(info, i, w, regs, cfa, mem, eval)
    then Recovers(info, i, v, regs, cfa, mem, eval)
    else v == regs[i]
  }

  /** This caller called the frame: the state defines a CFA that is not zero, the return address
      and every register it says something about are as it says, the others are unchanged. */
  ghost predicate CalledFrom(info: UnwindInfo, caller: Caller, regs: seq<u64>, cfa: u64, mem: Memory, eval: Evaluator) {
    && info.valid && cfa != 0 && HasCfa(info, regs, cfa, mem, eval)
    && Recovers(info, info.returnAddressRegister, caller.returnAddress, regs, cfa, mem, eval)
    && |caller.registers| == |regs|
    && forall i: nat | i < |regs| :: AsTheStateSays(info, i, caller.registers[i], regs, cfa, mem, eval)
  }

  lemma ApartIs(a: u64, b: u64, n: int)
    ensures Apart(a, b, n) <==> b == Wrap64(a + n)
  {
  }

  lemma MaskedIs(plain: bv64, code: bv64, signed: bv64, mask: bv64)
    ensures Masked(plain, code, signed, mask) ==> plain == signed & !mask
    ensures Masked(signed & !mask, signed & mask, signed, mask)
  {
  }

  lemma {:induction false} CarriesCodeIs(v: u64, signed: bv64, mask: bv64)
    ensures CarriesCode(v, signed, mask) <==> v == (signed & !mask) as int
  {
    hide Masked;
    MaskedIs(0, 0, signed, mask);
    if plain, code: bv64 :| Masked(plain, code, signed, mask) && v == plain as int {
      MaskedIs(plain, code, signed, mask);
    }
  }

  lemma TaggedIs(v: u64, tag: u8, signed: u64)
    ensures Tagged(v, tag, signed) ==> v == signed % 0x100_0000_0000_0000
    ensures signed / 0x100_0000_0000_0000 < 0x100
    ensures Tagged(signed % 0x100_0000_0000_0000, signed / 0x100_0000_0000_0000, signed)
  {
  }

  lemma {:induction false} StripUndoesSigning(v: u64, signed: u64, regs: seq<u64>)
    ensures SignedFrom(v, signed, regs) <==> v == StripPac(signed, regs)
  {
    hide Tagged, CarriesCode;
    if 36 < |regs| && regs[36] != 0 {
      CarriesCodeIs(v, signed as bv64, regs[36] as bv64);
    } else {
      TaggedIs(v, 0, signed);
      if tag: u8 :| Tagged(v, tag, signed) {
        TaggedIs(v, tag, signed);
      }
    }
  }

  lemma HoldsIs(
      rule: RegisterRule, reg: u64, v: u64, addressSize: u8, regs: seq<u64>, cfa: u64, mem: Memory, eval: Evaluator)
    ensures Holds(rule, reg, v, addressSize, regs, cfa, mem, eval)
       <==> RuleValue(rule, reg, addressSize, regs, cfa, mem, eval) == Some(v)
  {
    hide Wrap64, Apart;
    forall a: u64
      ensures Apart(cfa, a, rule.offset) <==> a == Wrap64(cfa + rule.offset)
    {
      ApartIs(cfa, a, rule.offset);
    }
    if rule.kind == Offset {
      assert Apart(cfa, Wrap64(cfa + rule.offset), rule.offset);
    }
  }

  lemma RecoversIs(info: UnwindInfo, reg: u64, v: u64, regs: seq<u64>, cfa: u64, mem: Memory, eval: Evaluator)
    ensures Recovers(info, reg, v, regs, cfa, mem, eval) <==> RegisterValue(info, reg, regs, cfa, mem, eval) == Some(v)
  {
    hide RuleValue, StripPac, Holds, SignedFrom;
    if reg in info.registers {
      forall held: u64
        ensures Holds(info.registers[reg], reg, held, info.addressSize, regs, cfa, mem, eval)
           <==> RuleValue(info.registers[reg], reg, info.addressSize, regs, cfa, mem, eval) == Some(held)
        ensures SignedFrom(v, held, regs) <==> v == StripPac(held, regs)
      {
        HoldsIs(info.registers[reg], reg, held, info.addressSize, regs, cfa, mem, eval);
        StripUndoesSigning(v, held, regs);
      }
    }
  }

  lemma HasCfaIs(info: UnwindInfo, regs: seq<u64>, cfa: u64, mem: Memory, eval: Evaluator)
    requires cfa != 0
    ensures HasCfa(info, regs, cfa, mem, eval) <==> ComputeCfa(info, regs, mem, eval) == cfa
  {
    hide Wrap64, Apart;
    if info.cfa.kind == RegisterOffset && info.cfa.regNum < |regs| {
      ApartIs(regs[info.cfa.regNum], cfa, info.cfa.offset);
    }
  }

  lemma RegisterIs(info: UnwindInfo, i: nat, v: u64, regs: seq<u64>, cfa: u64, mem: Memory, eval: Evaluator)
    requires i < |regs|
    ensures AsTheStateSays(info, i, v, regs, cfa, mem, eval) <==> v == CallerRegisters(info, regs, cfa, mem, eval)[i]
  {
    hide Recovers, RegisterValue;
    if i < TWO_64 {
      forall w: u64
        ensures Recovers(info, i, w, regs, cfa, mem, eval) <==> RegisterValue(info, i, regs, cfa, mem, eval) == Some(w)
      {
        RecoversIs(info, i, w, regs, cfa, mem, eval);
      }
    }
  }

  lemma {:induction false} UnwindsTo(
      info: UnwindInfo, caller: Caller, regs: seq<u64>, cfa: u64, mem: Memory, eval: Evaluator)
    requires cfa != 0
    ensures CalledFrom(info, caller, regs, cfa, mem, eval)
       <==> ComputeCfa(info, regs, mem, eval) == cfa && Unwind(info, regs, mem, eval) == Some(caller)
  {
    hide ComputeCfa, RegisterValue, Recovers, HasCfa, AsTheStateSays, CallerRegisters;
    HasCfaIs(info, regs, cfa, mem, eval);
    RecoversIs(info, info.returnAddressRegister, caller.returnAddress, regs, cfa, mem, eval);
    var registers := CallerRegisters(info, regs, cfa, mem, eval);
    if |caller.registers| == |regs| {
      forall i: nat | i < |regs|
        ensures AsTheStateSays(info, i, caller.registers[i], regs, cfa, mem, eval) <==> caller.registers[i] == registers[i]
      {
        RegisterIs(info, i, caller.registers[i], regs, cfa, mem, eval);
      }
      assert caller.registers == registers <==> forall i: nat | i < |regs| :: caller.registers[i] == registers[i];
    }
  }

  /** Unwinding recovers the caller that was saved, and invents none: it gives a caller exactly when
      this one called the frame. */
  lemma {:induction false} UnwindRecoversCaller(
      info: UnwindInfo, caller: Caller, regs: seq<u64>, mem: Memory, eval: Evaluator)
    ensures Unwind(info, regs, mem, eval) == Some(caller) <==>
              exists cfa: u64 :: CalledFrom(info, caller, regs, cfa, mem, eval)
  {
    hide ComputeCfa, CalledFrom;
    var cfa := ComputeCfa(info, regs, mem, eval);
    if cfa != 0 {
      UnwindsTo(info, caller, regs, cfa, mem, eval);
    }
    if c: u64 :| CalledFrom(info, caller, regs, c, mem, eval) {
      NotZero(info, caller, regs, c, mem, eval);
      UnwindsTo(info, caller, regs, c, mem, eval);
    }
  }

  lemma NotZero(info: UnwindInfo, caller: Caller, regs: seq<u64>, cfa: u64, mem: Memory, eval: Evaluator)
    requires CalledFrom(info, caller, regs, cfa, mem, eval)
    ensures cfa != 0
  {
  }

  class StackFrame {
    var pc: u64
    var returnAddress: u64
  }

  /** On success frame and registers become the caller's; on failure nothing changes. */
  method UnwindFrame(section: CfiSection, frame: StackFrame, registers: array<u64>, mem: Memory, eval: Evaluator)
    returns (ok: bool)
    modifies frame`returnAddress, registers
    ensures match Unwind(UnwindInfoAt(section, frame.pc), old(registers[..]), mem, eval)
            case None => !ok && registers[..] == old(registers[..]) && frame.returnAddress == old(frame.returnAddress)
            case Some(caller) => ok && registers[..] == caller.registers && frame.returnAddress == caller.returnAddress
  {
    hide UnwindInfoAt, RuleValue, StripPac;
    var info := GetUnwindInfo(section, frame.pc);
    if !info.valid {
      return false;
    }
    var old_ := registers[..];
    var cfa := ComputeCfa(info, old_, mem, eval);
    if cfa == 0 {
      return false;
    }
    var updated := old_;
    var todo := info.registers.Keys;
    while todo != {}
      invariant |updated| == |old_| && todo <= info.registers.Keys
      invariant forall i | 0 <= i < |old_| :: updated[i]
                  == if i in todo then old_[i] else CallerRegisters(info, old_, cfa, mem, eval)[i]
    {
      var reg :| reg in todo;
      var value := RegisterValue(info, reg, old_, cfa, mem, eval);
      if value.Some? && reg < |updated| {
        updated := updated[reg := value.value];
      }
      todo := todo - {reg};
    }
    var ra := RegisterValue(info, info.returnAddressRegister, old_, cfa, mem, eval);
    if ra == None {
      return false;
    }
    frame.returnAddress := ra.value;
    assert updated == CallerRegisters(info, old_, cfa, mem, eval);
    forall i | 0 <= i < registers.Length {
      registers[i] := updated[i];
    }
    assert registers[..] == updated;
    return true;
  }
}
