/** What the lookup of src/cfi_parser.cpp answers, field by field: when it is valid, and on programs
    written by the tables of DWARF 5 which instructions its rules come from. */
module CfiAnswers {
  import opened Words
  import opened CfiModel
  import opened CfiInterpreter
  import opened UnwindTable
  import opened CfiEncoding
  import opened RowHistory

  predicate Inside(fde: Fde, pc: u64) {
    fde.initialLocation <= pc < (fde.initialLocation + fde.addressRange) % 0x1_0000_0000_0000_0000
  }

  /** The first frame description, in section order, that contains an address. */
  ghost predicate FirstInside(section: CfiSection, i: nat, pc: u64) {
    && i < |section.fdes| && Inside(section.fdes[i], pc)
    && forall k | 0 <= k < i :: !Inside(section.fdes[k], pc)
  }

  lemma {:induction false} FirstExists(section: CfiSection, pc: u64, n: nat) returns (i: nat)
    requires n < |section.fdes| && Inside(section.fdes[n], pc)
    ensures i <= n && FirstInside(section, i, pc)
  {
    i := 0;
    while !Inside(section.fdes[i], pc)
      invariant i <= n && forall k | 0 <= k < i :: !Inside(section.fdes[k], pc)
      decreases n - i
    {
      i := i + 1;
    }
  }

  lemma {:induction false} NotFound(section: CfiSection, pc: u64, i: nat)
    requires forall k | i <= k < |section.fdes| :: !Inside(section.fdes[k], pc)
    ensures FindFrom(section.fdes, pc, i) == None
    decreases |section.fdes| - i
  {
    if i < |section.fdes| {
      NotFound(section, pc, i + 1);
    }
  }

  /** The answer is valid if and only if some frame description contains the address and the first
      one that does has a CIE. */
  lemma {:induction false} ValidExactly(section: CfiSection, pc: u64)
    ensures UnwindInfoAt(section, pc).pc == pc
    ensures UnwindInfoAt(section, pc).valid <==>
              exists i: nat :: FirstInside(section, i, pc) && section.fdes[i].cie.Some?
  {
    hide RowFor;
    if n: nat :| n < |section.fdes| && Inside(section.fdes[n], pc) {
      var i := FirstExists(section, pc, n);
      FoundAt(section, i, pc, 0);
      assert forall k: nat | FirstInside(section, k, pc) :: k == i;
    } else {
      NotFound(section, pc, 0);
    }
  }

  // ------------------------------------------------------------ which program

  function EffectsOf(ops: seq<CallFrame>, cie: Cie): (instrs: seq<Instr>)
    requires AllEncodable(ops, cie)
    ensures |instrs| == |ops| && forall k | 0 <= k < |ops| :: instrs[k] == Effect(ops[k], cie)
    decreases |ops|
  {
    if ops == [] then [] else [Effect(ops[0], cie)] + EffectsOf(ops[1..], cie)
  }

  /** The first `n` instructions leave the location at or before `pc`, each of them, and the next
      one moves it past `pc`. */
  ghost predicate StopsAt(instrs: seq<Instr>, n: nat, start: u64, pc: u64) {
    && n <= |instrs|
    && (forall k | 0 <= k <= n :: LocationOf(instrs[..k], start) <= pc)
    && (n < |instrs| ==> LocationOf(instrs[..n + 1], start) > pc)
  }

  lemma {:induction false} RunLocation(instrs: seq<Instr>, cie: Cie, m: Machine)
    ensures Run(instrs, cie, m).row.location == LocationOf(instrs, m.row.location)
    decreases |instrs|
  {
    hide Apply, LocationAfter;
    if instrs == [] {
      InRange(m.row.location);
    } else {
      var rest, i := instrs[..|instrs| - 1], instrs[|instrs| - 1];
      assert instrs == rest + [i];
      RunLocation(rest, cie, m);
      RunLast(rest, i, cie, m);
      ApplyMovesLocation(i, cie, Run(rest, cie, m));
      LocationWritten(rest, i, m.row.location);
    }
  }

  /** The stop-when-past-pc procedure of section 6.4.3 is: run the instructions before the first one
      that moves past `pc`. */
  lemma {:induction false} InForceStops(ops: seq<CallFrame>, cie: Cie, m: Machine, pc: u64, k: nat) returns (n: nat)
    requires AllEncodable(ops, cie) && k <= |ops|
    requires forall j | 0 <= j <= k :: LocationOf(EffectsOf(ops, cie)[..j], m.row.location) <= pc
    ensures StopsAt(EffectsOf(ops, cie), n, m.row.location, pc)
    ensures InForce(ops[k..], cie, Run(EffectsOf(ops, cie)[..k], cie, m), pc)
         == Run(EffectsOf(ops, cie)[..n], cie, m).row
    decreases |ops| - k
  {
    hide Run, LocationOf, Effect, Encodable, Apply;
    var instrs := EffectsOf(ops, cie);
    n := k;
    if k < |ops| {
      assert instrs[..k + 1] == instrs[..k] + [instrs[k]];
      RunLast(instrs[..k], instrs[k], cie, m);
      RunLocation(instrs[..k], cie, m);
      RunLocation(instrs[..k + 1], cie, m);
      ApplyMovesLocation(instrs[k], cie, Run(instrs[..k], cie, m));
      assert ops[k..][0] == ops[k] && ops[k..][1..] == ops[k + 1..];
      if LocationOf(instrs[..k + 1], m.row.location) <= pc {
        n := InForceStops(ops, cie, m, pc, k + 1);
      }
    }
  }

  // -------------------------------------------------------------- the answer

  /** An answer is what `instrs` make of the CIE's row, with the rest taken from the CIE. */
  ghost predicate Answers(info: UnwindInfo, instrs: seq<Instr>, fde: Fde, cie: Cie, pc: u64) {
    && info.valid && info.pc == pc
    && info.addressSize == cie.addressSize && info.returnAddressRegister == cie.returnAddressRegister
    && Written(UnwindRow(LocationOf(instrs, fde.initialLocation), info.cfa, info.registers, info.raSignState),
               instrs, cie, cie.initialRow.(location := fde.initialLocation))
  }

  /** A frame description with a program written down by the standard's tables whose locations
      never go backwards, and whose end does not wrap around. */
  ghost predicate Assembled(fde: Fde, cie: Cie, ops: seq<CallFrame>, littleEndian: bool) {
    && fde.cie == Some(cie) && fde.initialLocation + fde.addressRange < TWO_64
    && AllEncodable(ops, cie) && fde.instructions == AssembleAll(ops, cie, littleEndian)
    && Forward(ops, cie, fde.initialLocation)
  }

  /** Field by field: the rules in force by section 6.4.3, and the CIE's constants. */
  lemma {:induction false} LookupIsInForce(section: CfiSection, i: nat, cie: Cie, ops: seq<CallFrame>, pc: u64)
    requires FirstInside(section, i, pc) && Assembled(section.fdes[i], cie, ops, section.littleEndian)
    ensures var info, row := UnwindInfoAt(section, pc), InForce(ops, cie, InitialMachine(section.fdes[i], cie), pc);
            && info.valid && info.pc == pc
            && info.addressSize == cie.addressSize && info.returnAddressRegister == cie.returnAddressRegister
            && info.cfa == row.cfa && info.registers == row.registers && info.raSignState == row.raSignState
  {
    hide RowFor, InForce, Forward, AssembleAll, InitialMachine;
    FoundAt(section, i, pc, 0);
    AssembledProgramUnwinds(section.fdes[i], cie, section.littleEndian, ops, pc);
  }

  lemma {:induction false} InForceWritten(fde: Fde, cie: Cie, ops: seq<CallFrame>, pc: u64) returns (n: nat)
    requires AllEncodable(ops, cie) && fde.initialLocation <= pc
    ensures StopsAt(EffectsOf(ops, cie), n, fde.initialLocation, pc)
    ensures Written(InForce(ops, cie, InitialMachine(fde, cie), pc), Counted(EffectsOf(ops, cie)[..n]), cie,
                    cie.initialRow.(location := fde.initialLocation))
  {
    hide InForce, Written, Counted;
    var m, instrs := InitialMachine(fde, cie), EffectsOf(ops, cie);
    assert LocationOf([], fde.initialLocation) == fde.initialLocation by { InRange(fde.initialLocation); }
    n := InForceStops(ops, cie, m, pc, 0);
    assert ops[0..] == ops && Run(instrs[..0], cie, m) == m;
    ProgramWritten(instrs[..n], cie, m.row);
  }

  /** From the instructions to the answer: at any address of such a frame description, if no
      earlier one has that address, the answer is made by the last writers among the instructions
      that count before the first one that moves past the address. */
  lemma {:induction false} LookupAnswers(section: CfiSection, i: nat, cie: Cie, ops: seq<CallFrame>, pc: u64)
    returns (n: nat)
    requires FirstInside(section, i, pc) && Assembled(section.fdes[i], cie, ops, section.littleEndian)
    ensures StopsAt(EffectsOf(ops, cie), n, section.fdes[i].initialLocation, pc)
    ensures Answers(UnwindInfoAt(section, pc), Counted(EffectsOf(ops, cie)[..n]), section.fdes[i], cie, pc)
  {
    hide InForce, Forward, AssembleAll, Counted, UnwindInfoAt, StopsAt;
    hide LocationOf, LastRule, CfaKindOf, CfaExpressionOf, CfaOffsetOf, CfaRegisterOf, SignStateOf;
    LookupIsInForce(section, i, cie, ops, pc);
    n := InForceWritten(section.fdes[i], cie, ops, pc);
  }
}
