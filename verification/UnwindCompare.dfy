/** `compareUnwindInfo` of src/cfi_symbolic.cpp, and what its EQUIVALENT means for unwinding. The
    expression verifier is a parameter. */
module UnwindCompare {
  import opened Words
  import opened OrderedSets
  import opened CfiModel
  import opened CfiInterpreter
  import opened Unwinding

  datatype Verdict = Equivalent | Different | Unknown

  datatype Options = Options(
    requireSameRange: bool, missingIsUndefined: bool, verify: (seq<u8>, seq<u8>) -> Verdict)

  function RuleIn(info: UnwindInfo, reg: u64, options: Options): Option<RegisterRule> {
    if reg in info.registers then Some(info.registers[reg])
    else if options.missingIsUndefined then Some(Rule(Undefined))
    else None
  }

  function RuleVerdict(l: Option<RegisterRule>, r: Option<RegisterRule>, options: Options): Verdict {
    if l == None || r == None then Different
    else
      var lr, rr := l.value, r.value;
      if lr.kind != rr.kind then Different
      else
        match lr.kind
        case Offset | ValOffset => if lr.offset != rr.offset then Different else Equivalent
        case Register => if lr.regNum != rr.regNum then Different else Equivalent
        case Expression | ValExpression => options.verify(lr.expression, rr.expression)
        case Undefined | SameValue | Architectural => Equivalent
  }

  /** The verdict on the registers in ascending order: that of the first one that is not
      equivalent. */
  function RegistersVerdict(l: UnwindInfo, r: UnwindInfo, regs: set<u64>, options: Options): Verdict
    decreases |regs|
  {
    if regs == {} then Equivalent
    else
      var reg := Least(regs);
      var v := RuleVerdict(RuleIn(l, reg, options), RuleIn(r, reg, options), options);
      if v != Equivalent then v else RegistersVerdict(l, r, regs - {reg}, options)
  }

  function CfaVerdict(l: CfaDefinition, r: CfaDefinition, options: Options): Verdict {
    if l.kind != r.kind then Different
    else if l.kind == RegisterOffset then
      if l.regNum != r.regNum || l.offset != r.offset then Different else Equivalent
    else options.verify(l.expression, r.expression)
  }

  function StateVerdict(l: UnwindInfo, r: UnwindInfo, options: Options): Verdict {
    if !l.valid && !r.valid then Equivalent
    else if l.valid != r.valid then Different
    else
      var cfa := CfaVerdict(l.cfa, r.cfa, options);
      if cfa != Equivalent then cfa
      else if l.returnAddressRegister != r.returnAddressRegister then Different
      else if l.raSignState != r.raSignState then Different
      else RegistersVerdict(l, r, l.registers.Keys + r.registers.Keys, options)
  }

  method CompareUnwindInfo(l: UnwindInfo, r: UnwindInfo, options: Options) returns (verdict: Verdict)
    ensures verdict == StateVerdict(l, r, options)
  {
    hide RuleVerdict, RuleIn;
    if !l.valid && !r.valid {
      return Equivalent;
    }
    if l.valid != r.valid {
      return Different;
    }
    if l.cfa.kind != r.cfa.kind {
      return Different;
    }
    if l.cfa.kind == RegisterOffset {
      if l.cfa.regNum != r.cfa.regNum || l.cfa.offset != r.cfa.offset {
        return Different;
      }
    } else {
      var v := options.verify(l.cfa.expression, r.cfa.expression);
      if v != Equivalent {
        return v;
      }
    }
    if l.returnAddressRegister != r.returnAddressRegister || l.raSignState != r.raSignState {
      return Different;
    }
    var regs := l.registers.Keys + r.registers.Keys;
    while regs != {}
      invariant RegistersVerdict(l, r, regs, options)
             == RegistersVerdict(l, r, l.registers.Keys + r.registers.Keys, options)
      decreases |regs|
    {
      var reg := Least(regs);
      var v := RuleVerdict(RuleIn(l, reg, options), RuleIn(r, reg, options), options);
      if v != Equivalent {
        return v;
      }
      regs := regs - {reg};
    }
    return Equivalent;
  }

  // -------------------------------------------------------------- EQUIVALENT

  ghost predicate RulesEquivalent(l: UnwindInfo, r: UnwindInfo, regs: set<u64>, options: Options) {
    forall reg | reg in regs :: RuleVerdict(RuleIn(l, reg, options), RuleIn(r, reg, options), options) == Equivalent
  }

  ghost predicate StatesEquivalent(l: UnwindInfo, r: UnwindInfo, options: Options) {
    || (!l.valid && !r.valid)
    || (&& l.valid && r.valid
        && CfaVerdict(l.cfa, r.cfa, options) == Equivalent
        && l.returnAddressRegister == r.returnAddressRegister
        && l.raSignState == r.raSignState
        && RulesEquivalent(l, r, l.registers.Keys + r.registers.Keys, options))
  }

  lemma {:induction false} RegistersVerdictMeans(l: UnwindInfo, r: UnwindInfo, regs: set<u64>, options: Options)
    ensures RegistersVerdict(l, r, regs, options) == Equivalent <==> RulesEquivalent(l, r, regs, options)
    decreases |regs|
  {
    hide RuleVerdict, RuleIn;
    if regs != {} {
      var reg := Least(regs);
      RegistersVerdictMeans(l, r, regs - {reg}, options);
      assert forall x | x in regs :: x == reg || x in regs - {reg};
    }
  }

  /** EQUIVALENT is exactly agreement in validity, CFA, return-address register, sign state and
      every register rule. */
  lemma {:induction false} EquivalentMeans(l: UnwindInfo, r: UnwindInfo, options: Options)
    ensures StateVerdict(l, r, options) == Equivalent <==> StatesEquivalent(l, r, options)
  {
    RegistersVerdictMeans(l, r, l.registers.Keys + r.registers.Keys, options);
  }

  // ------------------------------------------------------------- on the fields

  /** Equal kinds, and what each kind looks at. */
  ghost predicate SameCfa(l: CfaDefinition, r: CfaDefinition, options: Options) {
    || (l.kind == RegisterOffset && r.kind == RegisterOffset && l.regNum == r.regNum && l.offset == r.offset)
    || (l.kind == CfaExpression && r.kind == CfaExpression && options.verify(l.expression, r.expression) == Equivalent)
  }

  ghost predicate SameRule(l: RegisterRule, r: RegisterRule, options: Options) {
    && l.kind == r.kind
    && (l.kind == Offset || l.kind == ValOffset ==> l.offset == r.offset)
    && (l.kind == Register ==> l.regNum == r.regNum)
    && (l.kind == Expression || l.kind == ValExpression ==> options.verify(l.expression, r.expression) == Equivalent)
  }

  /** A rule that only one side has agrees with a missing one if it says undefined and the option
      allows it. */
  ghost predicate SameAt(l: UnwindInfo, r: UnwindInfo, reg: u64, options: Options) {
    if reg in l.registers && reg in r.registers then SameRule(l.registers[reg], r.registers[reg], options)
    else if reg in l.registers then options.missingIsUndefined && l.registers[reg].kind == Undefined
    else if reg in r.registers then options.missingIsUndefined && r.registers[reg].kind == Undefined
    else true
  }

  /** The verifier does not decide the two expressions of a register. */
  ghost predicate UndecidedAt(l: UnwindInfo, r: UnwindInfo, reg: u64, options: Options) {
    && reg in l.registers && reg in r.registers
    && l.registers[reg].kind == r.registers[reg].kind
    && (l.registers[reg].kind == Expression || l.registers[reg].kind == ValExpression)
    && options.verify(l.registers[reg].expression, r.registers[reg].expression) == Unknown
  }

  ghost predicate UndecidedCfa(l: CfaDefinition, r: CfaDefinition, options: Options) {
    l.kind == CfaExpression && r.kind == CfaExpression && options.verify(l.expression, r.expression) == Unknown
  }

  /** Everything that is compared before the registers. */
  ghost predicate SameFrame(l: UnwindInfo, r: UnwindInfo, options: Options) {
    SameCfa(l.cfa, r.cfa, options) && l.returnAddressRegister == r.returnAddressRegister && l.raSignState == r.raSignState
  }

  /** `reg` is the least register that does not agree, and the verifier does not decide it. */
  ghost predicate FirstUndecided(l: UnwindInfo, r: UnwindInfo, reg: u64, options: Options) {
    UndecidedAt(l, r, reg, options) && forall x: u64 | x < reg :: SameAt(l, r, x, options)
  }

  lemma RuleVerdictByFields(l: UnwindInfo, r: UnwindInfo, reg: u64, options: Options)
    requires reg in l.registers || reg in r.registers
    ensures var v := RuleVerdict(RuleIn(l, reg, options), RuleIn(r, reg, options), options);
            && (v == Equivalent <==> SameAt(l, r, reg, options))
            && (v == Unknown <==> UndecidedAt(l, r, reg, options))
  {
  }

  lemma {:induction false} RegistersVerdictByFields(l: UnwindInfo, r: UnwindInfo, regs: set<u64>, options: Options)
    requires regs <= l.registers.Keys + r.registers.Keys
    ensures var v := RegistersVerdict(l, r, regs, options);
            && (v == Equivalent <==> forall reg | reg in regs :: SameAt(l, r, reg, options))
            && (v == Unknown <==> exists reg :: reg in regs && UndecidedAt(l, r, reg, options)
                                       && forall x | x in regs && x < reg :: SameAt(l, r, x, options))
    decreases |regs|
  {
    hide RuleVerdict, RuleIn, SameAt, UndecidedAt;
    if regs != {} {
      var reg := Least(regs);
      RuleVerdictByFields(l, r, reg, options);
      RegistersVerdictByFields(l, r, regs - {reg}, options);
      assert forall x | x in regs :: x == reg || x in regs - {reg};
    }
  }

  /** The verdict on fields alone: EQUIVALENT for two valid states exactly when CFA, return-address
      register, sign state and the rule of every register agree; UNKNOWN exactly when the first
      thing in the order of comparison that does not agree is a pair of expressions the verifier
      does not decide; DIFFERENT otherwise. Of two invalid states the verdict is EQUIVALENT, of a
      valid and an invalid one DIFFERENT. */
  lemma {:induction false} VerdictByFields(l: UnwindInfo, r: UnwindInfo, options: Options)
    ensures StateVerdict(l, r, options) == Equivalent <==>
              || (!l.valid && !r.valid)
              || (l.valid && r.valid && SameFrame(l, r, options) && forall reg: u64 :: SameAt(l, r, reg, options))
    ensures StateVerdict(l, r, options) == Unknown <==>
              && l.valid && r.valid
              && (|| UndecidedCfa(l.cfa, r.cfa, options)
                  || (SameFrame(l, r, options) && exists reg: u64 :: FirstUndecided(l, r, reg, options)))
  {
    hide RegistersVerdict;
    var regs := l.registers.Keys + r.registers.Keys;
    RegistersVerdictByFields(l, r, regs, options);
    RestAgrees(l, r, options);
    hide SameAt, UndecidedAt;
    if reg :| reg in regs && UndecidedAt(l, r, reg, options) && forall x | x in regs && x < reg :: SameAt(l, r, x, options) {
      assert FirstUndecided(l, r, reg, options);
    }
  }

  lemma RestAgrees(l: UnwindInfo, r: UnwindInfo, options: Options)
    ensures forall reg: u64 | reg !in l.registers.Keys + r.registers.Keys :: SameAt(l, r, reg, options)
    ensures forall reg: u64 | UndecidedAt(l, r, reg, options) :: reg in l.registers.Keys + r.registers.Keys
  {
  }

  /** A verifier that accepts equal expressions makes every state equivalent to itself, wherever
      it is looked up. */
  lemma {:induction false} SelfEquivalent(info: UnwindInfo, pc: u64, options: Options)
    requires forall e :: options.verify(e, e) == Equivalent
    ensures StateVerdict(info, info.(pc := pc), options) == Equivalent
  {
    VerdictByFields(info, info.(pc := pc), options);
  }

  // ------------------------------------------------------------ what it is worth

  /** The verifier only calls expressions equivalent that evaluate alike on every machine, at the
      address sizes of the two sides. */
  ghost predicate Sound(options: Options, eval: Evaluator, lhsAddressSize: u8, rhsAddressSize: u8) {
    forall le, re, regs, cfa, mem :: options.verify(le, re) == Equivalent ==>
      EvalExpression(eval, le, regs, cfa, lhsAddressSize, mem) == EvalExpression(eval, re, regs, cfa, rhsAddressSize, mem)
  }

  lemma {:induction false} CfaAgrees(
      l: UnwindInfo, r: UnwindInfo, options: Options, regs: seq<u64>, mem: Memory, eval: Evaluator)
    requires Sound(options, eval, l.addressSize, r.addressSize)
    requires CfaVerdict(l.cfa, r.cfa, options) == Equivalent
    ensures ComputeCfa(l, regs, mem, eval) == ComputeCfa(r, regs, mem, eval)
  {
    hide EvalExpression;
    if l.cfa.kind == CfaExpression {
      assert EvalExpression(eval, l.cfa.expression, regs, 0, l.addressSize, mem)
          == EvalExpression(eval, r.cfa.expression, regs, 0, r.addressSize, mem);
    }
  }

  lemma {:induction false} RuleValuesAgree(
      lr: RegisterRule, rr: RegisterRule, reg: u64, lhsAddressSize: u8, rhsAddressSize: u8, options: Options,
      regs: seq<u64>, cfa: u64, mem: Memory, eval: Evaluator)
    requires Sound(options, eval, lhsAddressSize, rhsAddressSize)
    requires RuleVerdict(Some(lr), Some(rr), options) == Equivalent
    ensures RuleValue(lr, reg, lhsAddressSize, regs, cfa, mem, eval) == RuleValue(rr, reg, rhsAddressSize, regs, cfa, mem, eval)
  {
    hide EvalExpression, Wrap64;
    if lr.kind == Expression || lr.kind == ValExpression {
      assert EvalExpression(eval, lr.expression, regs, cfa, lhsAddressSize, mem)
          == EvalExpression(eval, rr.expression, regs, cfa, rhsAddressSize, mem);
    }
  }

  /** A register without a rule, and one with the rule `undefined`, recover nothing alike; so the
      treatment of missing rules as undefined is harmless. */
  lemma {:induction false} RegisterAgrees(
      l: UnwindInfo, r: UnwindInfo, reg: u64, options: Options, regs: seq<u64>, cfa: u64, mem: Memory, eval: Evaluator)
    requires Sound(options, eval, l.addressSize, r.addressSize)
    requires l.valid && StatesEquivalent(l, r, options)
    ensures RegisterValue(l, reg, regs, cfa, mem, eval) == RegisterValue(r, reg, regs, cfa, mem, eval)
  {
    hide RuleValue, StripPac, Sound, CfaVerdict;
    if reg in l.registers.Keys + r.registers.Keys {
      var lr, rr := RuleIn(l, reg, options).value, RuleIn(r, reg, options).value;
      RuleValuesAgree(lr, rr, reg, l.addressSize, r.addressSize, options, regs, cfa, mem, eval);
      UndefinedRecoversNothing(reg, l.addressSize, regs, cfa, mem, eval);
      UndefinedRecoversNothing(reg, r.addressSize, regs, cfa, mem, eval);
    }
  }

  lemma UndefinedRecoversNothing(reg: u64, addressSize: u8, regs: seq<u64>, cfa: u64, mem: Memory, eval: Evaluator)
    ensures RuleValue(Rule(Undefined), reg, addressSize, regs, cfa, mem, eval) == None
  {
  }

  /** Semantic soundness: two states judged EQUIVALENT unwind every frame alike. On all register
      files and memories they agree on success or failure, on the CFA, on every recovered register
      and on the return address, with or without pointer authentication. */
  lemma {:induction false} EquivalentStatesUnwindAlike(
      l: UnwindInfo, r: UnwindInfo, options: Options, regs: seq<u64>, mem: Memory, eval: Evaluator)
    requires Sound(options, eval, l.addressSize, r.addressSize)
    requires StateVerdict(l, r, options) == Equivalent
    ensures Unwind(l, regs, mem, eval) == Unwind(r, regs, mem, eval)
    ensures l.valid ==> ComputeCfa(l, regs, mem, eval) == ComputeCfa(r, regs, mem, eval)
    ensures l.valid ==> forall reg: u64, cfa: u64 ::
              RegisterValue(l, reg, regs, cfa, mem, eval) == RegisterValue(r, reg, regs, cfa, mem, eval)
  {
    hide RegisterValue, ComputeCfa, Sound;
    EquivalentMeans(l, r, options);
    if l.valid {
      CfaAgrees(l, r, options, regs, mem, eval);
      forall reg: u64, cfa: u64
        ensures RegisterValue(l, reg, regs, cfa, mem, eval) == RegisterValue(r, reg, regs, cfa, mem, eval)
      {
        RegisterAgrees(l, r, reg, options, regs, cfa, mem, eval);
      }
      var cfa := ComputeCfa(l, regs, mem, eval);
      assert CallerRegisters(l, regs, cfa, mem, eval) == CallerRegisters(r, regs, cfa, mem, eval);
    }
  }
}
