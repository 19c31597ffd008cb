# Verified models of the DWARF toolkit's core algorithms

This project models the algorithms of the toolkit on which its verdicts rest, and proves what
they promise: the call frame interpreter and the interval comparison of two binaries' unwind
information, reconstruction and matching of control flow graphs, reaching definitions, the line
number state machine, the `.debug_names` lookup, composite locations, the pairing of frame
descriptions, and the traversal of macro imports. `dafny verify dfyconfig.toml` checks
everything.

## What is modelled

| Files | Source | Content |
|---|---|---|
| `Leb128`, `ByteOrder`, `Words` | src/cfi_parser.cpp, src/cfi_symbolic.cpp | the LEB128 readers, fixed-width numbers, machine words |
| `CfiModel`, `CfiInterpreter` | src/cfi_parser.cpp | instruction decoding, the row machine with its state stack, the coalesced row table, the lookup |
| `CfiEncoding`, `UnwindTable`, `RowHistory`, `CfiAnswers` | src/cfi_parser.cpp | call frame programs written by the standard's tables; the lookup against section 6.4.3 of DWARF 5; remember/restore; the row told from its last writers; the answer of the lookup field by field |
| `CutPoints`, `OffsetRuns` | src/cfi_symbolic.cpp | the second, location-only decoder, when its loop ends, and its simulation of the first |
| `Unwinding`, `UnwindCompare`, `IntervalCompare`, `IntervalLimits`, `OrderedSets` | src/cfi_parser.cpp, src/call_stack.cpp, src/cfi_symbolic.cpp | what an unwind state means, comparison of two states, comparison over a whole range |
| `BasicBlocks`, `BlockProperties`, `BranchEncoding`, `BlockStarts` | src/cfg_reconstruction.cpp | leaders, blocks, normalized hashes, successors; the pc-relative instructions written out from their fields; blocks and edges told from these instructions |
| `BlockMatcher`, `BlockContexts` | src/cfg_reconstruction.cpp | the matcher by hash and by context; contexts told from the edges |
| `ReachingDefinitions` | src/cfg_reconstruction.cpp | the round-robin fixpoint and the def-use edges |
| `LineReaders`, `LineProgram`, `LineEncoding`, `Quotients` | src/dwarf_utils.cpp, src/attribute_parser.cpp | the readers the line program uses, the opcode loop, encoding of line tables |
| `NameIndex` | src/debug_names_parser.cpp | bucket and hash tables, lookup, memo |
| `CompositeRead`, `CompositeNumber` | src/variable_location.cpp | bit-level assembly of composite locations; the number that results |
| `FdeQueues`, `KeyedPairing`, `FdePairing` | src/dwarf_compare.cpp | the four pairing modes |
| `MacroImports` | src/debug_macro_parser.cpp | following imports |

Machine arithmetic is written out: every operation that wraps or truncates goes through
`Wrap32`, `Wrap64`, `AsI64` or `WrapI64`. Loops over mutable state are methods with the source's
branches; each is proved equal to a specification function, or directly to the property, and the
lemmas are about those.

## The main results

- If the interval comparison answers EQUIVALENT, the unwind states of both frame descriptions are
  equivalent at every relative program counter below the common range, and unwinding from equal
  registers and memory gives equal registers and return address there; otherwise the reported
  relative program counter is the least one that is not equivalent
  (`IntervalCompare.IntervalVerdictCoversRange`, `IntervalCompare.EquivalentFdesUnwindAlike`).
  The proof needs the step-by-step simulation of the interpreter by the collector
  (`CutPoints.StepsAgree`, `CutPoints.RowsFollowCollector`), constancy of the lookup between cut
  points, and soundness of the state comparison. It holds for both byte orders.
- A program written by the tables of DWARF 5 is read back instruction by instruction, in both byte
  orders, and if its locations never go backwards the table lookup gives at every program counter
  the rules of section 6.4.3 (`CfiEncoding.AssembledProgramUnwinds`). For every program, with
  remember and restore nested or unmatched, each part of the row is as the last instruction that
  counts for it left it (`RowHistory.ProgramWritten`); together, every field of the answer to a
  lookup is told from the text of the program (`CfiAnswers.LookupAnswers`).
- Two states are judged EQUIVALENT, DIFFERENT or UNKNOWN exactly by their fields
  (`UnwindCompare.VerdictByFields`).
- Unwinding gives a caller if and only if this one called the frame: memory and the callee's
  registers hold its registers and its return address where section 6.4.1 says, signed or not
  (`Unwinding.UnwindRecoversCaller`).
- The def-use edges are exact: an edge is emitted if and only if some path without another
  definition leads from the definition to the use (`ReachingDefinitions.BuildRegisterDfg`).
- Blocks start at the function's start, at the targets of branches and behind the instructions that
  end one, and nowhere else; the branches are exactly the words B, B.cond, CBZ and TBZ, while CBNZ
  and TBNZ are not recognised (`BlockStarts.BlocksStartExactly`, `BlockStarts.RecognisedExactly`).
- Reconstruction commutes with moving the code, and matching a graph with its moved copy pairs
  only a block with its own copy, and exactly the blocks unique by hash or by context
  (`BlockMatcher.RelocatedFunctionMatchesItself`); contexts agree if and only if size and the numbers
  of edges from and to blocks of every hash do (`BlockContexts.EqualContexts`).
- Line tables of any number of sequences survive encoding and the opcode loop unchanged
  (`LineEncoding.LineTableRoundTrip`) as long as every row can be reached, every sequence starting
  from the registers of section 6.2.2. For one row whose operand takes at most five bytes this is
  exact: the opcodes of section 6.2.5.1 write that row if and only if a special opcode fits or the
  operand stays below 2^31 with one operation per instruction, and with more below 2^32 for a
  distance below 2^32 (`LineEncoding.EncodeRowWritesRow`). Operation advances are conserved on VLIW
  machines (`LineProgram.OperationsBalance`).
- Lookup of names is a scan of all names exactly when a stated condition on the tables holds, and
  the effect of the memo is described for every run of calls (`NameIndex.LookupIsScan`,
  `NameIndex.AnswerOverRun`). For tables laid out as DWARF 5 describes them it is stated which
  names are found (`NameIndex.StandardLookup`).
- A composite value is, as a number, the sum of its pieces shifted to their places, in both byte
  orders (`CompositeNumber.ValueIsSumOfPieces`).
- Every bit of a composite value, the pairs of every pairing mode, and the units and entries
  visited by macro imports on any graph are characterised exactly.

## Preconditions

They appear as `requires` clauses or as predicates used there.

- Interval comparison (`ComparableFde`, `Checkable`), for the two frame descriptions compared:
  decoders in step (`DecodersInStep`): every fixed-width operand moves the location alike in the
  object's byte order and read little-endian, as the collector does (src/cfi_symbolic.cpp:73-99),
  which is always so in little-endian objects and for one-byte operands
  (`CutPoints.AlikeUnlessWide`), and DWARF 2 escapes that do not end the stream have a length byte
  below 0x80; a collector that ends (`Collectable`), which is so in particular when no block end it
  meets wraps back (`CutPoints.NoWrapTerminates`); no earlier frame description contains an address
  of the compared one, because lookup takes the first hit (src/cfi_parser.cpp:597-605);
  `initial_location + address_range` below 2^64.
- Soundness of state comparison (`UnwindCompare.Sound`): the expression verifier, which is a
  parameter, accepts only expressions that evaluate alike on all registers, CFA values and
  memories, at both address sizes in play, since `compareUnwindInfo` does not compare them.
- Reconstruction: `start + size` below 2^64.
- Line programs: the divisors of every executed opcode that divides are not zero
  (`LineProgram.DefinedIn`; nonzero `line_range` and `max_operations` suffice); a loop that ends
  (`LineProgram.Terminates`), which is so in particular when no extended length it meets wraps back
  (`LineProgram.NoWrapTerminates`); opcode base at least 13 for the encoder.
- Composite reads (`SizesFit`): the sums of piece sizes and offsets that the loop forms fit 64 bits.
- Name index (`Accepted`): the tables satisfy what the parser checks.

## What the proofs found

- A block length close to 2^64 wraps around in the collector's `skipBlock`
  (src/cfi_symbolic.cpp:136-142). One round moves forward if and only if no block end wraps back to
  or before the instruction (`CutPoints.AdvancesExactly`). The loop ends if and only if it visits no
  offset twice, which shows within as many rounds as there are bytes
  (`CutPoints.TerminatesExactly`): the stream in `CutPoints.WrappingBlockLoops` makes it loop
  forever, the one in `CutPoints.SteppingBackCanEnd` sends it back and it still ends.
- The line program's loop can stand still likewise: an unknown extended opcode jumps to an end that
  is computed in 64 bits (src/attribute_parser.cpp:2358, src/attribute_parser.cpp:2395), and the
  reader of its length turns five bytes into a number close to 2^64. When exactly a round fails to
  advance is `LineProgram.AdvancesExactly`, when exactly the loop ends
  `LineProgram.TerminatesExactly`; `LineProgram.WrappingLengthLoops` is a seven-byte unit on which
  it does not.
- Where the interpreter reads the length of a DWARF 2 escape as a byte
  (src/cfi_parser.cpp:912-922) the collector reads a ULEB128 (src/cfi_symbolic.cpp:292-296). Behind
  an escape that does not end the stream they are at the same offset if and only if the byte is
  below 0x80 (`CutPoints.LongEscapeDesynchronises`).
- In big-endian objects the collector reaches the same location as the interpreter if and only if
  the operand read in the wrong byte order moves it alike (`CutPoints.StepsAgree`,
  `CutPoints.BigEndianDisagrees`). The comparison then can answer EQUIVALENT for frame descriptions
  that are not: `IntervalLimits.EquivalentButNot` is such a pair.
- `DwarfUtils::readULEB128` shifts an `int` (src/dwarf_utils.cpp:516). Numbers of up to five groups
  are read as their low 32 bits, sign-extended (`LineReaders.LineUnsignedReadBack`), which is exact
  if and only if the value is below 2^31 (`LineReaders.LineUnsignedExact`), so a larger operand of
  `DW_LNS_advance_pc` is misread (`LineEncoding.LargeAdvanceIsMisread`).
- With more than one operation per instruction `advance_pc` computes in 32 bits; it moves by its
  operand if and only if that does not overflow (`LineProgram.AdvancePcExact`).
- A `B` does not end its block. Its block ends behind it if and only if the function does or a
  leader follows; otherwise its edge is kept if and only if the last instruction of the block leads
  to the same place (`BlockProperties.BranchEdges`). `BlockProperties.UnconditionalBranchCanLoseItsEdge`
  is a function that loses one.
- The parser refuses `.debug_names` tables whose hashes decrease anywhere
  (src/debug_names_parser.cpp:311), while section 6.1.1.4.5 of DWARF 5 groups hashes by bucket and
  does not sort them, and it hashes names as they are, while section 7.33 hashes them after case
  folding. On the standard's tables a listed name is therefore found if and only if no hashes
  decrease and the name hashes like its folded form (`NameIndex.StandardLookup`);
  `NameIndex.GroupedTableIsRefused` and `NameIndex.CapitalIsMissed` are tables on which each of the
  two fails.
- `populateCache` appends to entries that earlier lookups cached
  (src/debug_names_parser.cpp:639-641), so those names answer twice afterwards; exactly when is
  stated in `NameIndex.AnswerOverRun` and `NameIndex.MemoIsTransparent`.

## Parameters of the model

The expression evaluator and the expression verifier; the byte hash (FNV-1a in the program); the
AArch64 def/use decoder; memory; the BOLT address map; the function name at an address; the
item at each offset of an entry pool of `.debug_names`; the decoded entry list of each macro unit. The
context key of a block, a string in the program, is the block size with two multisets of hashes.

## Model

| member | source | states |
|---|---|---|
| `Leb128.ReadUnsigned` | src/cfi_parser.cpp:114-130 | the unsigned reader of both decoders accepts exactly the encodings that end within ten bytes and whose value fits 64 bits, and returns that value |
| `Leb128.ReadSigned` | src/cfi_parser.cpp:132-151 | the parser's signed reader accepts exactly the encodings that end within ten bytes and whose value fits int64_t, and returns that value |
| `Leb128.ReadSignedWrapping` | src/cfi_symbolic.cpp:118-134 | the checker's signed reader returns the value modulo 2^64 of any encoding of at most ten bytes |
| `Leb128.UnsignedRoundTrip` | src/cfi_parser.cpp:114-130 | every 64-bit value's encoding, anywhere in a string, decodes to itself with exact consumption |
| `Leb128.SignedRoundTrip` | src/cfi_symbolic.cpp:118-134 | the same for signed values, for both signed readers |
| `Leb128.CheckerReadsWhatParserReads` | src/cfi_symbolic.cpp:101-134 | wherever the parser's reader accepts, the checker's agrees in value and length |
| `Leb128.ReadExtent` | src/cfi_parser.cpp:114-151 | a successful read consumes one to ten bytes inside the string |
| `CfiInterpreter.Interpreter.ReadOperandsAt` | src/cfi_parser.cpp:84-151 | operands are read by the opcode's layout, in the object's byte order, or not at all |
| `CfiInterpreter.Interpreter.ExecuteInstruction` | src/cfi_parser.cpp:680-1100 | one instruction maps row, stack and offset as the decoded instruction says; an undecodable one ends the stream and leaves the row alone |
| `CfiInterpreter.Interpreter.Perform` | src/cfi_parser.cpp:695-1090 | the effect of each decoded instruction on row and state stack |
| `CfiInterpreter.Interpreter.ExecuteInstructions` | src/cfi_parser.cpp:651-678 | the table is the trace of rows, restricted to the range, with same-location updates coalesced |
| `CfiInterpreter.FindFde` | src/cfi_parser.cpp:597-605 | the first frame description that contains the address |
| `CfiInterpreter.GetUnwindInfo` | src/cfi_parser.cpp:607-649 | the unwind state for an address: the row found in the table, or an invalid one |
| `CfiEncoding.FetchAssembled` | src/cfi_parser.cpp:680-1100 | every instruction written by table 7.29 of DWARF 5 (and the GNU, MIPS and AArch64 ones) decodes to its effect in section 6.4.2, consuming exactly its bytes, in both byte orders |
| `CfiEncoding.FetchMore` | src/cfi_parser.cpp:680-1100 | what follows an instruction has no influence on how it is decoded |
| `CfiEncoding.TruncatedEndsStream` | src/cfi_parser.cpp:651-694 | an instruction cut off anywhere behind its first byte ends the stream and leaves the row as it is |
| `CfiEncoding.UnknownEndsStream` | src/cfi_parser.cpp:1092-1100 | an opcode of no table ends the stream and leaves the row as it is |
| `CfiEncoding.ProgramRuns` | src/cfi_parser.cpp:651-678 | on an assembled program the stop-when-past-pc procedure over bytes is that over instructions |
| `CfiEncoding.AssembledProgramUnwinds` | src/cfi_parser.cpp:607-678 | for assembled programs with forward locations the lookup yields the rules in force by section 6.4.3 on the instructions |
| `UnwindTable.LookupFindsLastMaximal` | src/cfi_parser.cpp:631-639 | the lookup loop selects the last row among those of greatest location not past the address, on unsorted tables too |
| `UnwindTable.SameRowBetweenLocations` | src/cfi_parser.cpp:631-639 | two addresses with no row location between them find the same row |
| `UnwindTable.RulesInForceOnTrace` | src/cfi_parser.cpp:651-678 | the standard's procedure picks the last row of the trace before one that is past the address |
| `UnwindTable.LookupMeetsStandard` | src/cfi_parser.cpp:607-678 | for locations that never decrease the coalesced table answers every address of the range as section 6.4.3 does |
| `UnwindTable.BracketRestores` | src/cfi_parser.cpp:861-872 | remember; balanced body; restore leaves everything but the location as before, at any nesting depth |
| `UnwindTable.BracketRestoresInStream` | src/cfi_parser.cpp:861-872 | the same on the bytes of an instruction stream: behind the bracket the interpreter goes on as if only the location had moved |
| `RowHistory.LastWriters` | src/cfi_parser.cpp:695-1090 | without remember and restore, CFA register, offset, kind and expression, every register rule, sign state and location are as the last instructions that write them left them; the stack stays |
| `RowHistory.ProgramWritten` | src/cfi_parser.cpp:651-1090 | the same for every program: what a restore takes back counts for the location only, and a restore without a remember for nothing |
| `CfiAnswers.ValidExactly` | src/cfi_parser.cpp:597-616 | the answer is valid if and only if some frame description contains the address and the first that does has a CIE |
| `CfiAnswers.LookupIsInForce` | src/cfi_parser.cpp:607-649 | on assembled forward programs CFA, rules and sign state of the answer are those in force by section 6.4.3, return-address register and address size the CIE's |
| `CfiAnswers.LookupAnswers` | src/cfi_parser.cpp:607-678 | there every field of the answer is as its last writer left it among the instructions that count before the first one that moves past the address |
| `Unwinding.UnwindFrame` | src/call_stack.cpp:358-396 | the frame's return address and the register file become those of the caller the unwind state describes, or stay as they are on failure |
| `Unwinding.UnwindRecoversCaller` | src/cfi_parser.cpp:199-299 | unwinding gives a caller if and only if CFA, memory and registers hold its return address and registers as section 6.4.1 says of each rule, registers without a rule being unchanged |
| `Unwinding.StripUndoesSigning` | src/cfi_parser.cpp:220-236 | stripping gives an address back if and only if the held one is this address with bits of the mask register, or without one of the top byte, set |
| `CutPoints.SkipBlockAt` | src/cfi_symbolic.cpp:136-142 | a block is skipped with the end computed modulo 2^64 |
| `CutPoints.ReadCollectorOperands` | src/cfi_symbolic.cpp:67-142 | the collector's own operand readers |
| `CutPoints.CollectorRound` | src/cfi_symbolic.cpp:157-305 | one round of the collector's loop |
| `CutPoints.CollectRelativeCutPoints` | src/cfi_symbolic.cpp:144-312 | whenever the loop ends: the set of relative locations below the range that the collector visits, with 0 and the last one |
| `CutPoints.AdvancesExactly` | src/cfi_symbolic.cpp:136-142 | one round moves forward if and only if no block end, computed in 64 bits, wraps back to or before the instruction |
| `CutPoints.TerminatesExactly` | src/cfi_symbolic.cpp:160-306 | the loop ends if and only if it visits no offset twice, and then within as many rounds as there are bytes |
| `CutPoints.NoWrapTerminates` | src/cfi_symbolic.cpp:160-306 | a collector that meets no block end that wraps back ends |
| `CutPoints.AlikeUnlessWide` | src/cfi_symbolic.cpp:73-99 | operands move the location alike in little-endian objects, and in big-endian ones unless they have several bytes |
| `CutPoints.StepsAgree` | src/cfi_symbolic.cpp:160-306 | where the interpreter decodes an instruction that is no long escape, in either byte order, the collector reaches the same offset, and the same location if and only if the operand moves it alike in both readings |
| `CutPoints.CollectorSimulatesInterpreter` | src/cfi_symbolic.cpp:144-312 | with decoders in step both are at the same offset and location after any number of decoded instructions, but for a long escape that ends the stream |
| `CutPoints.RowsFollowCollector` | src/cfi_symbolic.cpp:144-312 | every row the interpreter records has the start or a location the collector visits |
| `CutPoints.TableRowsAreCutPoints` | src/cfi_symbolic.cpp:144-312 | every row location of the unwind table is a cut point, backward set_loc included |
| `CutPoints.LongEscapeDesynchronises` | src/cfi_symbolic.cpp:292-296 | behind a DWARF 2 escape that does not end the stream the two decoders are at the same offset if and only if its length byte is below 0x80 |
| `CutPoints.WrappingBlockLoops` | src/cfi_symbolic.cpp:136-142 | a concrete block length with which the collector never ends |
| `CutPoints.SteppingBackCanEnd` | src/cfi_symbolic.cpp:136-142 | a concrete block length that takes the collector back, after which it ends |
| `CutPoints.BigEndianDisagrees` | src/cfi_symbolic.cpp:73-79 | a concrete two-byte advance that fails the condition of `CutPoints.StepsAgree` |
| `UnwindCompare.CompareUnwindInfo` | src/cfi_symbolic.cpp:316-471 | the verdict of the comparison of two states, with the first difference in register order deciding |
| `UnwindCompare.EquivalentMeans` | src/cfi_symbolic.cpp:316-471 | EQUIVALENT if and only if CFA, return-address register, sign state and every rule correspond, by the missing-rule option |
| `UnwindCompare.VerdictByFields` | src/cfi_symbolic.cpp:316-471 | EQUIVALENT if and only if the fields of CFA, return-address register, sign state and all rules agree, by the missing-rule option and the expression verifier; UNKNOWN if and only if the first thing that does not agree is a pair of expressions the verifier does not decide |
| `UnwindCompare.SelfEquivalent` | src/cfi_symbolic.cpp:316-471 | a state is EQUIVALENT to itself at any address if the verifier accepts equal expressions |
| `UnwindCompare.EquivalentStatesUnwindAlike` | src/cfi_symbolic.cpp:316-471 | EQUIVALENT states have the same CFA, recover the same value for every register, and unwind to the same registers and return address, for every register file and memory |
| `IntervalCompare.ScanPoints` | src/cfi_symbolic.cpp:529-546 | the loop over the cut points in ascending order, with the count of points and the first mismatch |
| `IntervalCompare.CompareFdeByIndex` | src/cfi_symbolic.cpp:482-557 | the whole comparison with its prechecks, whenever the two collectors end |
| `IntervalCompare.EarlyExits` | src/cfi_symbolic.cpp:492-525 | the verdict of every exit that compares no point, and that all other cases compare some |
| `IntervalCompare.RowConstantBetweenCutPoints` | src/cfi_symbolic.cpp:518-527 | the looked-up row does not change between neighbouring cut points |
| `IntervalCompare.IntervalVerdictCoversRange` | src/cfi_symbolic.cpp:518-557 | EQUIVALENT if and only if the states are equivalent at every relative address inside both ranges; otherwise the least one where they are not is reported with its verdict |
| `IntervalCompare.EquivalentFdesUnwindAlike` | src/cfi_symbolic.cpp:518-557 | after an EQUIVALENT verdict unwinding from any registers and memory agrees at every relative address inside both ranges |
| `IntervalLimits.EquivalentButNot` | src/cfi_symbolic.cpp:518-553 | a big-endian pair of frame descriptions that the comparison calls equivalent and whose states differ one byte behind the start |
| `BasicBlocks.MaskInstructions` | src/cfg_reconstruction.cpp:88-114 | every whole instruction of the copy is masked in place, the tail and the rest stay |
| `BasicBlocks.NormalizedBlockHash` | src/cfg_reconstruction.cpp:117-151 | the hash of exactly the masked bytes with relocated ones cleared |
| `BranchEncoding.DisplacementRoundTrip` | src/cfg_reconstruction.cpp:60-86 | every recognised branch, written with any displacement, is decoded to that displacement; BL, ADR, ADRP and literal loads have none |
| `BranchEncoding.MaskForgetsImmediate` | src/cfg_reconstruction.cpp:88-114 | two pc-relative instructions are normalized alike if and only if they differ at most in their immediates |
| `BlockStarts.RecognisedExactly` | src/cfg_reconstruction.cpp:36-115 | a word is recognised as a branch if and only if it is a B, B.cond, CBZ or TBZ, with the distance written in it; what is not pc-relative is not masked |
| `BlockStarts.ReturnsExactly` | src/cfg_reconstruction.cpp:56-58 | a word is recognised as RET if and only if it is one through some register |
| `BlockStarts.HashedBytes` | src/cfg_reconstruction.cpp:117-151 | the hash sees zeros where a relocation lies, a short tail as it is and whole instructions as masked |
| `BasicBlocks.FindLeaders` | src/cfg_reconstruction.cpp:163-181 | the start, in-function targets of recognised branches, and addresses behind conditional branches and RET |
| `BasicBlocks.CutBlocks` | src/cfg_reconstruction.cpp:183-205 | one block from each leader to the next, in address order |
| `BasicBlocks.FindSuccessors` | src/cfg_reconstruction.cpp:207-228 | target and fall-through of the last instruction, as far as they start blocks |
| `BasicBlocks.LinkBlocks` | src/cfg_reconstruction.cpp:207-228 | only the successor lists change |
| `BasicBlocks.Reconstruct` | src/cfg_reconstruction.cpp:153-231 | fails when bytes are missing, otherwise yields the blocks described |
| `BasicBlocks.BoundsCover` | src/cfg_reconstruction.cpp:183-205 | offset ranges between neighbouring leaders |
| `BlockProperties.BlocksPartitionFunction` | src/cfg_reconstruction.cpp:183-205 | blocks are sorted, non-empty, adjacent and cover the function exactly |
| `BlockProperties.BlocksStartAtLeaders` | src/cfg_reconstruction.cpp:166-191 | an offset starts a block if and only if it is a leader |
| `BlockStarts.BlocksStartExactly` | src/cfg_reconstruction.cpp:166-191 | blocks start at 0, at targets of the branches written in the function and behind RET and, with fall-through edges, conditional branches; nowhere else |
| `BlockProperties.TargetsStartBlocks` | src/cfg_reconstruction.cpp:166-181 | every recognised in-function target starts a block |
| `BlockProperties.SuccessorsStartBlocks` | src/cfg_reconstruction.cpp:207-228 | every successor is the start of a block |
| `BlockProperties.EndingInstructionsEndBlocks` | src/cfg_reconstruction.cpp:166-181 | every RET, and with fall-through edges every recognised conditional branch, is the last instruction of its block, for every function size |
| `BlockProperties.EndsBlockExactly` | src/cfg_reconstruction.cpp:183-205 | a block ends behind an instruction if and only if the function does or a leader follows |
| `BlockProperties.SuccessorsExactly` | src/cfg_reconstruction.cpp:207-228 | the successors of a block are exactly where its last instruction leads |
| `BlockStarts.SuccessorsAreEdges` | src/cfg_reconstruction.cpp:207-228 | a successor stands in the list once for each edge: the target of the branch in the last four bytes, first, and the next block if control passes to it |
| `BlockStarts.ReconstructedBlock` | src/cfg_reconstruction.cpp:153-231 | every block has the addresses of its offsets, the hash of its normalized bytes and the addresses of its successors in order |
| `BlockProperties.BranchEdges` | src/cfg_reconstruction.cpp:163-228 | for every recognised branch: where its block ends, what the successors of that block are, and that its in-function target is among them if and only if the branch ends the block or the last instruction leads there too; conditional branches keep both edges |
| `BlockProperties.UnconditionalBranchCanLoseItsEdge` | src/cfg_reconstruction.cpp:174-179 | a function whose B fails that condition and leaves no edge although its target is a block |
| `BlockProperties.ReconstructionIsTranslationInvariant` | src/cfg_reconstruction.cpp:60-231 | the same bytes elsewhere, with relocation ranges moved, give the same blocks, hashes and successors moved |
| `BlockMatcher.BuildHashByStart` | src/cfg_reconstruction.cpp:290-294 | start to hash, the last block of a start counting |
| `BlockMatcher.BuildPredecessorHashes` | src/cfg_reconstruction.cpp:296-307 | the hashes of all predecessors, once per edge |
| `BlockMatcher.ContextKeys` | src/cfg_reconstruction.cpp:309-324 | the context of every block |
| `BlockContexts.EqualContexts` | src/cfg_reconstruction.cpp:290-324 | contexts are equal if and only if sizes are and, for every hash, the numbers of edges from and of edges to blocks with it |
| `BlockMatcher.MatchByContext` | src/cfg_reconstruction.cpp:566-588 | pairs exactly the blocks that are alone with their context on both sides |
| `BlockMatcher.MatchIndices` | src/cfg_reconstruction.cpp:536-589 | pairs exactly the blocks unique by hash, or unique by hash and context with equal contexts |
| `BlockContexts.MatchedByEdges` | src/cfg_reconstruction.cpp:536-589 | two blocks are matched if and only if their hashes agree and both are alone with theirs, or sizes and edges agree too and both are alone with these |
| `BlockMatcher.MatchBlocks` | src/cfg_reconstruction.cpp:536-596 | the result is sorted and holds each matched pair once |
| `BlockMatcher.ResultMeans` | src/cfg_reconstruction.cpp:536-596 | a mapping is in the result if and only if it carries starts, sizes and hash of a matched pair; they are sorted by old and then new start |
| `BlockMatcher.MatchingIsBijection` | src/cfg_reconstruction.cpp:536-596 | no old and no new block is matched twice |
| `BlockMatcher.MatchingIsSymmetric` | src/cfg_reconstruction.cpp:536-596 | an index pair is matched if and only if its swap is when the graphs are swapped |
| `BlockMatcher.SwappedResults` | src/cfg_reconstruction.cpp:536-596 | the output for the swapped graphs is, with multiplicities, the output with old and new exchanged |
| `BlockMatcher.EachBlockOnce` | src/cfg_reconstruction.cpp:591-596 | with distinct starts no block address occurs twice in the sorted result |
| `BlockMatcher.MovedGraphMatchesItself` | src/cfg_reconstruction.cpp:536-596 | a moved copy is matched block by block, covering exactly the blocks unique by hash or context |
| `BlockMatcher.RelocatedFunctionMatchesItself` | src/cfg_reconstruction.cpp:153-231 | reconstruction at two addresses followed by matching pairs only blocks that are the distance apart |
| `BlockMatcher.RelocatedResult` | src/cfg_reconstruction.cpp:536-596 | all mappings of the output lead the distance further on to blocks of the same size, and the blocks mapped are exactly those unique by hash or context |
| `ReachingDefinitions.CollectNodes` | src/cfg_reconstruction.cpp:607-627 | one node for each instruction inside a block that defines or uses a register, sorted by block |
| `ReachingDefinitions.NodesExactly` | src/cfg_reconstruction.cpp:607-627 | the nodes are exactly the aligned whole instructions inside some block that define or use a register, in address order |
| `ReachingDefinitions.BuildPredecessors` | src/cfg_reconstruction.cpp:629-635 | the inverse of the successor relation |
| `ReachingDefinitions.SuccessorBlocksMean` | src/cfg_reconstruction.cpp:604-605 | a successor address leads to the last block that starts there |
| `ReachingDefinitions.BuildGen` | src/cfg_reconstruction.cpp:637-642 | the last definition of each register in a block |
| `ReachingDefinitions.Iterate` | src/cfg_reconstruction.cpp:644-671 | the round-robin loop terminates with a solution of the dataflow equations in which every fact has a path |
| `ReachingDefinitions.SolutionCoversPaths` | src/cfg_reconstruction.cpp:644-671 | no path is ahead of a solution |
| `ReachingDefinitions.SolutionIsExact` | src/cfg_reconstruction.cpp:644-671 | a definition is in force at a point if and only if a path without another definition leads there |
| `ReachingDefinitions.EmitBlock` | src/cfg_reconstruction.cpp:674-696 | the uses of a block, each linked once to the definitions in force |
| `ReachingDefinitions.SortEdges` | src/cfg_reconstruction.cpp:698-702 | the same edges in strict order |
| `ReachingDefinitions.FindEdges` | src/cfg_reconstruction.cpp:637-702 | the edges are exactly the def-use pairs |
| `ReachingDefinitions.BuildRegisterDfg` | src/cfg_reconstruction.cpp:598-704 | nodes and exact def-use edges of a function, each edge once with its cross-block flag, sorted by source, use and register |
| `ReachingDefinitions.FoundBlock` | src/cfg_reconstruction.cpp:611-615 | the first block that contains an address |
| `LineReaders.ReadLineUnsigned` | src/dwarf_utils.cpp:510-526 | the reader's value with the int shift, and the bytes it consumes |
| `LineReaders.ReadLineSigned` | src/dwarf_utils.cpp:528-549 | the signed value, and the bytes consumed |
| `LineReaders.LineUnsignedExact` | src/dwarf_utils.cpp:510-526 | for encodings of up to five bytes: exact if and only if the value is below 2^31 |
| `LineReaders.LineUnsignedRoundTrip` | src/dwarf_utils.cpp:510-526 | encoded values below 2^31 read back; below 2^32 their low 32 bits do |
| `LineReaders.LineSignedRoundTrip` | src/dwarf_utils.cpp:528-549 | encoded line deltas read back |
| `LineProgram.LineMachine.AppendRow` | src/attribute_parser.cpp:2330-2349 | the current registers become a row and the per-row flags are cleared |
| `LineProgram.LineMachine.AdvanceOperations` | src/attribute_parser.cpp:2410-2420 | address and op_index after an operation advance, with the source's word sizes |
| `LineProgram.LineMachine.Execute` | src/attribute_parser.cpp:2352-2501 | the state and rows after one opcode, unless it divides by zero |
| `LineProgram.LineMachine.FetchAt` | src/attribute_parser.cpp:2352-2402 | opcode, operands and length as read from the unit |
| `LineProgram.LineMachine.Process` | src/attribute_parser.cpp:2325-2502 | the table after the whole unit, whenever the loop ends and divides by no zero |
| `LineProgram.ReadLineTable` | src/attribute_parser.cpp:2325-2504 | the line table of a unit is what the loop makes of it from the initial registers |
| `LineProgram.DivisorsSuffice` | src/attribute_parser.cpp:2410-2494 | with nonzero `line_range` and `max_operations` no opcode of any program divides by zero |
| `LineProgram.AdvancesExactly` | src/attribute_parser.cpp:2352-2402 | one round moves forward if and only if it is not an unknown extended opcode whose end wraps back to or before it |
| `LineProgram.TerminatesExactly` | src/attribute_parser.cpp:2352-2502 | the loop ends if and only if it reads no offset twice, and then within as many rounds as there are bytes |
| `LineProgram.NoWrapTerminates` | src/attribute_parser.cpp:2352-2502 | a loop that meets no such opcode ends |
| `LineProgram.WrappingLengthLoops` | src/attribute_parser.cpp:2357-2397 | a unit on which the loop never ends |
| `LineProgram.OpIndexBounded` | src/attribute_parser.cpp:2410-2501 | op_index stays below max_operations on every reachable state |
| `LineProgram.OperationsConserved` | src/attribute_parser.cpp:2410-2501 | over any run between resets the position is that of one advance by the sum of operation advances |
| `LineProgram.OperationsBalance` | src/attribute_parser.cpp:2410-2501 | instructions advanced times max_operations plus the change of op_index is the sum of operation advances |
| `LineProgram.AdvancePcExact` | src/attribute_parser.cpp:2410-2420 | advance_pc moves by its operand if and only if its 32-bit arithmetic does not overflow |
| `LineReaders.LineUnsignedReadBack` | src/dwarf_utils.cpp:510-526 | an encoded number of up to 35 bits is read as its low 32 bits, sign-extended |
| `LineEncoding.ReadExactly` | src/dwarf_utils.cpp:510-526 | an opcode is read as it was written if and only if it is no `advance_pc` of 2^31 or more |
| `LineEncoding.FetchAssembled` | src/attribute_parser.cpp:2352-2501 | every encodable opcode is read back with exact consumption, up to what the reader makes of large operands |
| `LineEncoding.LoopRunsOpcodes` | src/attribute_parser.cpp:2352-2502 | the loop over assembled opcodes ends and emits their rows |
| `LineEncoding.StandardWritesExactly` | src/attribute_parser.cpp:2410-2420 | a row that no special opcode fits is written if and only if `advance_pc` reaches it |
| `LineEncoding.EncodeRowWritesRow` | src/attribute_parser.cpp:2352-2502 | the opcodes for a row, by section 6.2.5.1 of DWARF 5, append that row only, if and only if a special opcode fits or `advance_pc` reaches it |
| `LineEncoding.FixedAdvanceWritesRow` | src/attribute_parser.cpp:2456-2459 | `fixed_advance_pc` adds its operand unscaled: with it a row less than 2^16 bytes ahead is written for every header |
| `LineEncoding.SequenceWritesRows` | src/attribute_parser.cpp:2352-2502 | the opcodes of a sequence append its rows and the end-of-sequence row |
| `LineEncoding.TableWritesRows` | src/attribute_parser.cpp:2325-2502 | the opcodes of all sequences append the rows of all, each sequence starting over |
| `LineEncoding.UnknownStandardSkipped` | src/attribute_parser.cpp:2473-2480 | an unknown standard opcode is passed over with as many operands as the header says |
| `LineEncoding.UnknownExtendedSkipped` | src/attribute_parser.cpp:2376-2402 | an extended opcode that sets no register is passed over with its length |
| `LineEncoding.OverlongEndsLoop` | src/attribute_parser.cpp:2357-2362 | an extended opcode whose length leads out of the unit, or that has no byte behind its length, ends the loop |
| `LineEncoding.LineTableRoundTrip` | src/attribute_parser.cpp:2325-2502 | encoding any list of sequences, each from the registers of section 6.2.2, and running the opcode loop, which ends, gives the rows of every sequence, each with its end-of-sequence row |
| `LineEncoding.LargeAdvanceIsMisread` | src/attribute_parser.cpp:2410-2411 | a correctly encoded advance of 2^31 is read as another number |
| `NameIndex.ParseBuckets` | src/debug_names_parser.cpp:290-302 | accepted if and only if the table fits and every bucket is at most the number of names |
| `NameIndex.ParseHashes` | src/debug_names_parser.cpp:304-316 | accepted if and only if the table fits and never decreases |
| `NameIndex.HashName` | src/debug_names_parser.cpp:984-991 | truncated to 32 bits, the 64-bit computation is the 32-bit hash of DWARF 5 |
| `NameIndex.ReadHits` | src/debug_names_parser.cpp:859-921 | the entry loop, shared by lookup and population, collects the list of a name up to its end or the first unusable entry |
| `NameIndex.HitsCorrespond` | src/debug_names_parser.cpp:863-921 | DIE offsets, unit indices and tags are those of the entries of the list in their order, each DIE lying in the type unit or compile unit its entry names; an unusable last entry adds one tag more |
| `NameIndex.EntriesOfName` | src/debug_names_parser.cpp:849-921 | the list of a name starts at its offset in the pool of the unit, and is empty if that is outside |
| `NameIndex.LookupInUnit` | src/debug_names_parser.cpp:830-924 | the loop from the bucket start finds exactly the listed entries of the name that its bucket and hash lead to |
| `NameIndex.LookupFinds` | src/debug_names_parser.cpp:827-931 | the lookup returns one entry for every row it reaches and no other, with the hash and the list of that row, in the order of units and rows |
| `NameIndex.LookupIsScan` | src/debug_names_parser.cpp:827-931 | the lookup equals a scan of all names if and only if every listed entry of the name carries its hash and stands at or behind the start of a nonempty bucket |
| `NameIndex.IndexedTablesLoseNothing` | src/debug_names_parser.cpp:827-931 | on tables the parser keeps, with the hashes of their names and buckets that start no later than these, the lookup is a scan, for every name |
| `NameIndex.StandardLookup` | src/debug_names_parser.cpp:304-316 | a section with tables grouped by bucket and hashed after case folding is answered like a scan for a listed name if and only if no hashes decrease and the name hashes like its folded form |
| `NameIndex.GroupedTableIsRefused` | src/debug_names_parser.cpp:311 | a table with two buckets, grouped as the standard wants it, that the parser refuses, so that nothing is found |
| `NameIndex.CapitalIsMissed` | src/debug_names_parser.cpp:984-991 | a kept table with a capital name hashed in its folded form, which is not found |
| `NameIndex.Index.LookupName` | src/debug_names_parser.cpp:648-932 | the memoized answer, and the memo afterwards |
| `NameIndex.Index.PopulateCache` | src/debug_names_parser.cpp:384-646 | the listing of every nonempty name is appended to what the memo holds for it; once only |
| `NameIndex.AnswerOverRun` | src/debug_names_parser.cpp:384-932 | the answer to any name after any run of lookups and populations |
| `NameIndex.MemoIsTransparent` | src/debug_names_parser.cpp:639-641 | when exactly the memo changes no answer, for every name and every run |
| `CompositeRead.SetBit` | src/variable_location.cpp:205-217 | one bit changes, in either bit order, and bits outside the buffer are ignored |
| `CompositeRead.CopyBits` | src/variable_location.cpp:253-256 | a run of bits is copied to the cursor and no other bit changes |
| `CompositeRead.CoveredOnce` | src/variable_location.cpp:219-259 | a bit of the value belongs to at most one piece |
| `CompositeRead.ReadComposite` | src/variable_location.cpp:190-260 | bit j of the value is the source bit of the piece that covers j, and zero where there is none, in both bit orders |
| `CompositeRead.PieceDelivers` | src/variable_location.cpp:228-250 | the bits of a piece are those of the memory at its location, or of its value, from its bit offset on |
| `CompositeNumber.ValueIsSumOfPieces` | src/variable_location.cpp:190-260 | the value is, as a number in the object's byte order, the sum of the pieces as numbers, the first piece lowest or highest |
| `FdeQueues.BuildQueues` | src/dwarf_compare.cpp:646-649 | the indices of every key in ascending order |
| `FdeQueues.TakeFirstUnused` | src/dwarf_compare.cpp:681-688 | the first unused index of the whole list, leaving a queue from which only used ones are gone |
| `FdeQueues.PairByIndex` | src/dwarf_compare.cpp:640-644 | equal positions, nothing lost |
| `KeyedPairing.PairByKey` | src/dwarf_compare.cpp:645-664 | pairs and missing counters of the keyed modes; pairs and missing add up to both sides |
| `KeyedPairing.PairsAreTurns` | src/dwarf_compare.cpp:650-664 | two descriptions are paired if and only if they have the same key and equally many earlier ones with it |
| `KeyedPairing.PairsOrdered` | src/dwarf_compare.cpp:653-664 | pairs stand in ascending order of keys, then of indices |
| `KeyedPairing.PairsUsedOnce` | src/dwarf_compare.cpp:653-664 | no description is used twice |
| `KeyedPairing.PairsAreMost` | src/dwarf_compare.cpp:653-664 | no pairing of equal keys has more pairs |
| `FdePairing.PairRemapped` | src/dwarf_compare.cpp:665-710 | the queue implementation computes the greedy choice, and the counters add up |
| `FdePairing.PartnerMeans` | src/dwarf_compare.cpp:690-700 | the least unused description at the remapped start, else the least unused one of that name, else none |
| `FdePairing.RemappedPairsExactly` | src/dwarf_compare.cpp:665-710 | two descriptions are paired if and only if the right one is the first free one at the mapped start, or where none is free there the first free one of that name |
| `FdePairing.RemappedUsedOnce` | src/dwarf_compare.cpp:680-706 | no description is used twice |
| `FdePairing.RemappedIsMaximal` | src/dwarf_compare.cpp:665-710 | pairs correspond by remapped start or name, and no two corresponding descriptions are both left over |
| `FdePairing.PairFdes` | src/dwarf_compare.cpp:635-732 | in all four modes: used once, conserved, corresponding |
| `FdePairing.KeyedModesAreMost` | src/dwarf_compare.cpp:645-732 | the start-pc and range modes have as many pairs as any admissible choice |
| `MacroImports.MacroGatherer.GatherUnit` | src/debug_macro_parser.cpp:199-222 | the recursion ends on every import graph; it marks the offsets of the walk and appends the walk's entries |
| `MacroImports.WalkSeesReachable` | src/debug_macro_parser.cpp:199-222 | the walk marks exactly the in-section offsets reachable by imports without passing through offsets marked before |
| `MacroImports.EntriesOnce` | src/debug_macro_parser.cpp:199-222 | each entry of each newly marked unit is put out exactly once, those of a unit in their order |
| `MacroImports.UnitsInPlace` | src/debug_macro_parser.cpp:199-222 | every imported unit begins right behind the import that brings it in |

## Left out

- ELF loading, section discovery, split DWARF, report rendering, gate expressions and demangling: input/output and string plumbing.
- Byte-level parsing of CIEs and FDEs and pointer encodings: the model starts from parsed values.
- The expression evaluator and the solver-backed expression verifier: abstract parameters; only the verifier's soundness is assumed, as a precondition.
- Verdict texts and solver metadata of the comparisons: strings without influence on verdicts.
- Attribute forms, DIE trees, the database and the extractor; range and location lists; aranges and pubnames; the source location resolver; BOLT map files.
- AArch64 semantics beyond the masks: the def/use decoder is a parameter, and nothing is claimed about collisions of the hash.
- Entry pools of `.debug_names`: the loop over a name's entries is modelled, the forms inside an entry are given.
- Name offsets, abbreviation tables and augmentation recovery of `.debug_names`: the tables start from the decoded unit.
- Macro unit headers and entry decoding: each unit's entry list is given as a function of its offset.
- LineReaders.ReadLineUnsigned: C++ defines no result for int shifts of 31 bits or more; the model takes such digits as nothing, and no lemma relies on it.
- LineReaders.ReadLineSigned: digits behind the tenth byte, for which C++ defines no shift, count as nothing.
- UnwindCompare.EquivalentStatesUnwindAlike: one direction only; states judged DIFFERENT may unwind alike, since rules are compared by form.
- CompositeRead.ReadComposite: piece lists whose size or offset sums reach 2^64, for which the bit loop would have to go round that often; the other location kinds of `readValue` are copies of whole values and are not modelled.
- BasicBlocks.Reconstruct: functions whose end reaches 2^64, where the program's end address and block sizes wrap around.
- NameIndex.ReadHits: pools with decode errors, whose error flag outlives a name, are not modelled; the items of a pool are given and each can be read or is marked as not readable.
- FdePairing.PairFdes: rows of the comparison report are not modelled, only the pairs and counters.
- NameIndex.Index.PopulateCache: `getAllNames` returns the keys of the populated memo in no particular order and is not modelled.
