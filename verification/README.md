# Linear genetic programming on x87 machine code: a verified model

The program evolves functions that are stored as raw x87 machine code.  An individual is a byte
buffer (header, 2 and 6 byte instructions, footer) beside a signed table of instruction boundaries.
Tournament, crossover, mutation and migration rewrite these arrays in place; a decompiler turns the
bytes of the best individual back into C; a disassembler library stands between the two; the best
individuals of several trials vote in an ensemble.

The model keeps this shape.  What the program updates in place is a class or an array here, and each
method is proved against a function or predicate on plain values; the theorems are about those.

| file | what it models |
|---|---|
| FastRand.dfy | the four-word xorshift generator on 32-bit words (`Words`, `FastRand`) |
| Opcodes.dfy | the instruction tables, and byte layouts of programs (`Opcodes`, `Layouts`) |
| Genome.dfy | one individual: random programs, crossover, mutation, copying |
| Migration.dfy | the index arithmetic of ring migration, on sequences of any kind |
| Trials.dfy | trials as values: what the generator's state makes of a tournament, a crossover and a mutation; the best so far, sorting and migration, whole runs |
| Evolution.dfy | the population, on which all this is done in place |
| OpcodeTables.dfy | the recursive opcode lookup of libdisasm, and the FPU rows of its tables |
| Disassembler.dfy | ModR/M and SIB decoding, immediates and the other operands, one whole instruction |
| X87.dfy | the rotating register stack with tags; header, footer and instructions as it runs them |
| Decompiler.dfy | the sweep over the bytes, the statements emitted, and what they compute |
| Parsing.dfy | parsing undoes layout |
| Simulation.dfy | decompilation preserves meaning |
| StackDiscipline.dfy | top of stack, registers written, empty registers read |
| Drivers.dfy | range and flow-following disassembly, the list of addresses already seen |
| OperandList.dfy | the linked operand list of an instruction and its two counters |
| Ensemble.dfy | fitness, and the keep-or-reject step of the voting ensemble |
| Agreement.dfy | machine code and decompiled C have the same fitness |
| LinkedLists.dfy, Wrappers.dfy, Arithmetic.dfy | linked lists, optional and erroneous results, and remainders, as the other modules use them |

`dafny verify dfyconfig.toml` checks everything.

Every random decision modelled is a function of the generator's state: the contracts say which draw
decides what and where the generator is left, so a trial is determined by its seeds (`Reproducible`), and
lemmas say that every outcome the program means to allow is that of some draws in [0,1)
(`EveryInstructionIsDrawn`, `EveryPairIsDrawn`, `EveryMutantIsDrawn`).  The quotient that makes a seed a
number is exact.  Floating-point operations are uninterpreted functions over an abstract value type, so
the results hold for any rounding; an unmasked exception ends a run.  The limits on program length, the
number of registers and the sizes of the population are parameters, and so are the constants and the
resampled inputs, which the original draws at the start of a trial.

## What the code does differently from what it says

Where comments, documentation or expectations disagree with the code, the model follows the code.

* `0xd8,0xe1` is commented as FABS in opcodes.h; the bytes are `fsub st(0),st(1)` to the processor
  and to the decoder (ia32_opcode_tables.c:2017).  The same bytes are also a register form, so bytes
  alone do not determine a program (`AmbiguousBytes`).  They do exactly when the program has no such
  pair, or only one register is in use (`BytesDetermine`); programs with the same bytes differ at
  most in how these pairs are read (`SameBytes`), and the boundary signs tell (`OneProgram`).
* Crossover points found on the very last permitted draw are discarded: the counter, not the sizes, is
  looked at after the loop (lgp.c:703-713).  `EleventhDrawDiscarded` gives such draws; a crossover fails
  exactly when it is a 2 point one and none of its first ten draws is admissible (`CrossoverFails`,
  `AcceptedExactly`).
* The tie-break of the tournament compares a code length with an error (lgp.c:1207), so on a tie either
  may win.  `ShorterWinsTie` says when it is the shorter one.
* Individuals of the initial population are never considered for `best`; only bred children are.  So the
  best so far is as good as everybody exactly when it is as good as those who have been there from the
  beginning (`BestOfAll`).
* The header zeroes ST(0) to ST(6) and leaves ST(7) empty, because each FSTP pops the slot it used
  (lgp.c:56-74).  With eight registers in use a program can therefore read an empty register.
  `StackSafety` gives the condition, told from the instructions: a program that fills ST(7) before naming
  it never faults on the stack, and one that does not never returns, whatever the arithmetic.
  `SevenRegistersAreSafe` says that at most seven are enough, and `EighthRegisterUnsafe` gives an
  individual of admissible size whose run is a stack fault.
* Ring migration copies in place.  It equals simultaneous migration exactly when two lots of migrants fit
  in a deme (`RingIsSimultaneous`); otherwise some deme passes on individuals it was just given.  Elitism
  needs less: the migrants must not fill a whole deme (`MigrationElitism`); if they do it fails for some
  population of any two individuals of different errors (`FullExchangeFails`).
* After a trap `compute_error` leaves the rest of the recorded outputs unset, and they still enter the
  ensemble (compute_error.c:71-76, lgp.c:967).
* A zero displacement is not printed, so an instruction on an element at address 0 does not decompile;
  all others do (`AddressSurvives`).  Only the theorems about whole decompiled programs ask that neither
  array is placed there.
* A lone ModR/M byte that asks for a SIB byte is accepted at the end of a buffer (ia32_modrm.c:255-261);
  `ModRMLength` shows that this is the only operand accepted although it does not fit.
* The list of seen addresses starts with address 0, so a branch at address 0 is never followed
  (x86dis.c:116-140, `BranchAtZeroIsLost`, `JumpAtZeroIsLost`).  What is reported is exactly what control
  reaches without following branches at addresses seen beforehand (`ReportedIffReached`), and everything
  control reaches if there is no such branch (`NothingIsMissed`).
* The selector of a far pointer is read from where its offset stands (ia32_operand.c:111-128), so it is
  the low half of the offset (`FarMisread`); the resolvers take it for the destination (x86dis.c:156-157).
* With 16-bit addressing, a bare displacement (mod 00, rm 110) is taken to be no displacement
  (ia32_modrm.c:185-201); every other 16-bit operand has the length the manual gives
  (`BareDisplacementIsLost`).
* An explicit operand that is also implicit (EAX) is flagged as implied: a loop over the explicit operands
  then visits fewer than `explicit_count` of them.  `ExplicitLoopCount` says for which operands and
  implicit rows.

## Model

| member | source | states |
|---|---|---|
| Words.ScrambleInjective | util.c:71-75 | on words with a clear sign bit, xor-ing in the two shifts loses no information: equal images come from equal seeds |
| Words.ShlMeans | util.c:71-72 | shifting left by k multiplies what stays in the word by 2^k |
| Words.SarMeans | util.c:71-75 | shifting a word that is not negative right by k divides it by 2^k, the bits shifted out being the remainder |
| Words.XorMeans | util.c:71-75 | exclusive-or works bit by bit and undoes itself |
| FastRand.StepValid | util.c:66-83 | a call keeps all four seeds in [0, 2^31) |
| FastRand.StepInjective | util.c:66-83 | two in-range states with the same successor are the same state |
| FastRand.RunInjective | util.c:66-83 | the same after any number of calls |
| FastRand.NeverDegenerates | util.c:66-83 | over any number of calls the seeds stay in range, and all-zero is reached from all-zero only |
| FastRand.ScaledDraw | util.c:77-82 | truncating n times a number in [0,1) gives an index below n, and 0 when n is 0 |
| FastRand.Generator.Fastrand | util.c:66-83 | a call moves the four globals by one step and returns the number that the new state stands for, in [0,1) |
| FastRand.Generator.Below | lgp.c:535-535 | the way every caller draws an index: n times the next number, truncated, which stays in its range |
| FastRand.EveryIndexIsDrawn | lgp.c:535-535 | every index of the range is what some number in [0,1) gives |
| FastRand.DrawBound | util.c:66-83 | the next number lies in [0,1) and the state after it is in range |
| FastRand.DrawsAt | util.c:66-83 | the k-th of the next numbers is the next number of the state k calls later |
| Opcodes.CountOpcodes | lgp.c:1102-1111 | the counting loop finds the number of two-byte opcodes in front of the closing zero |
| Opcodes.RegOpcodeNibble | lgp.c:884-893 | every register opcode leaves its low three bits free, so a register number can be added or or-ed in |
| Opcodes.LittleEndianRoundTrip | lgp.c:570-575 | the four operand bytes give back the address |
| Layouts.OffsetMonotone | lgp.c:636-639 | boundaries grow by 2 to 6 bytes per instruction |
| Layouts.LayoutSlice | lgp.c:633-647 | the bytes between two neighbouring boundaries are exactly the instruction between them |
| Layouts.LayoutLength | lgp.h:93-101 | a program's length is its last boundary plus the footer, within header + 6 bytes per instruction + footer |
| Genome.RandomInstruction | lgp.c:523-578 | what is generated is an enabled opcode with a register of the trial or the address of a real constant or input; the next draws of the generator decide which, and the generator is left behind just the draws taken; the sign of the length marks register forms |
| Genome.EveryInstructionIsDrawn | lgp.c:523-578 | every opcode with every register of the trial or every element of the arrays is what some draws give |
| Genome.GeneratedIsGenerated | lgp.c:523-578 | and whatever the draws, what they give is one of these |
| Genome.RandomAddress | lgp.c:562-569 | the operand is the address of an element of one of the two arrays: one draw decides which array, the next which element |
| Genome.EveryAddressIsDrawn | lgp.c:562-569 | every element of either array is what some draws give |
| Genome.AppendInstruction | lgp.c:629-647 | appends one generated instruction: bytes, boundary and sign grow by just that instruction |
| Genome.InitialSize | lgp.c:624-627 | the initial size lies between MININSTRS and a tenth of MAXINSTRS, and is that of the next draw |
| Genome.EverySizeIsDrawn | lgp.c:624-627 | every size from MININSTRS to below a tenth of MAXINSTRS is what some draw gives |
| Genome.InitProgram | lgp.c:611-652 | the slot then holds a well-formed program: header, footer, matching boundaries and lengths, and in between as many instructions as the first draw says, each generated from where the one before left the generator |
| Genome.ChoosePoints | lgp.c:692-725 | points lie inside the parents and make both children admissible; the first draw decides between a homogeneous crossover, which always succeeds, and a 2 point one, which takes pairs of draws up to its first admissible pair, eleven at most, and fails exactly if it takes the eleventh |
| Genome.DrawUntilAdmissible | lgp.c:694-713 | the loop draws again exactly while a child would be too short or too long, up to eleven times, each pair of points from the next two draws, and its counter tells whether more than ten were made |
| Genome.AcceptedExactly | lgp.c:703-713 | so a 2 point crossover succeeds exactly when one of its first ten draws is admissible |
| Genome.CrossoverFails | lgp.c:692-713 | told from the generator: a crossover fails exactly when its first draw makes it a 2 point one and none of the next ten pairs of draws gives admissible points |
| Genome.PairsAt | lgp.c:694-705 | the pairs of points are those of consecutive calls, and only the last one may be admissible |
| Genome.CrossedSizes | lgp.c:697-713 | a crossover of parents of admissible sizes that succeeds has children of admissible sizes, homogeneous or not |
| Genome.EveryPairIsDrawn | lgp.c:696-697 | every pair of points in front of instructions, the last of a parent excepted, is what some draws give |
| Genome.EleventhDrawDiscarded | lgp.c:703-713 | parents and draws for which the eleventh draw is admissible and the crossover fails |
| Genome.CopyHeadBytes | lgp.c:734-738 | the child then holds the header and the parent's instructions before the point |
| Genome.CopyHead | lgp.c:730-739 | and has their boundaries |
| Genome.Rebase | lgp.c:755-758 | re-basing a boundary by a difference of magnitudes and its sign gives the boundary of the same instruction at its new place |
| Genome.CopyTailIndices | lgp.c:752-761 | the child's table becomes that of its head followed by the other parent's tail |
| Genome.CopyTailBytes | lgp.c:762-765 | and so do its bytes, closed by the footer, without leaving the static array |
| Genome.BuildChild | lgp.c:730-784 | a child holds exactly the splice of its parents, and its computed length is the number of bytes written |
| Genome.Crossover | lgp.c:683-808 | both children hold the two splices at the same points, or nothing at all has been written; the latter exactly for a 2 point crossover with no admissible draw among its first ten |
| Genome.SpliceConserves | lgp.c:800-805 | children and parents together have the same instructions (as a multiset), instruction count and code length |
| Genome.SpliceInvolution | lgp.c:683-808 | crossing the children again at the same points gives both parents back |
| Genome.MutateMemory | lgp.c:830-863 | a 6 byte instruction gets another opcode on the same address, or another real address under the same opcode, as the next draws decide |
| Genome.MemReplacement | lgp.c:830-863 | one draw decides between opcode and address, the next ones which |
| Genome.NewRegister | lgp.c:884-893 | masking the nibbles and or-ing the new number in replaces the register and nothing else |
| Genome.MutateRegister | lgp.c:873-895 | a register form gets another opcode with register 0, or another register of the trial under the same opcode, as the next two draws decide |
| Genome.RegReplacement | lgp.c:873-895 | one draw decides between opcode and register, the next which |
| Genome.MutateInstruction | lgp.c:827-899 | the bytes to write turn the instruction into the replacement the draws give; the error exit is unreachable |
| Genome.NoArgReplacement | lgp.c:865-871 | an operand-less instruction is replaced by the operand-less one the next draw gives |
| Genome.ReplacementVaries | lgp.c:827-899 | whatever the draws, a generated instruction is replaced by a generated one of its kind and length, with its opcode or its operand kept |
| Genome.EveryVariantIsDrawn | lgp.c:827-899 | and every such instruction is the replacement some draws give |
| Genome.ReplaceInstruction | lgp.c:843-871 | overwriting an instruction by one of its kind and length changes the program at that one place and no boundary |
| Genome.Mutate | lgp.c:812-900 | the individual then holds exactly what the next draws make of its program: itself if the first draw is above the probability, and else the program with the replacement the later draws give at the place the second gives |
| Genome.MutatedIsMutant | lgp.c:812-900 | whatever the draws, that is a well-formed program with at most one instruction varied, and none if the first draw is above the probability |
| Genome.EveryMutantIsDrawn | lgp.c:812-900 | for every place in a program and every variant of the instruction there, some draws lead to exactly that change, unless the probability is negative |
| Genome.Copy | lgp.c:478-491 | the copy holds the same program with the same error |
| Genome.OneProgram | lgp.h:93-101 | bytes and boundary signs determine the program |
| Genome.Boundaries | lgp.c:654-656 | in every individual held, boundaries start at headerlen and step by 2 or 6, a negative one marks a 2 byte register form, every slice is a generated instruction, and codelen is the last magnitude plus footerlen, inside the static array |
| Migration.AtInjective | lgp.c:940-943 | deme and rank determine a position uniquely |
| Migration.CopyPlaces | lgp.c:940-947 | the two running indices are the source and target ranks, and never the same position |
| Migration.SourceIsHandedOn | lgp.c:935-949 | the individual copied is what its deme is to hand on at that moment, whether overwritten already or not |
| Migration.CopyAdvances | lgp.c:945-948 | one copy brings the population one step closer to the result of the whole ring |
| Migration.RingIsSimultaneous | lgp.c:935-949 | the in-place copies are the simultaneous ones when two lots of migrants fit in a deme; with distinct individuals they differ whenever they do not |
| Migration.OneOutcome | lgp.c:935-949 | the copies leave no slot of the population open |
| Trials.MigrationElitism | lgp.c:917-950 | after sorting and migration no deme's best is worse than its own, or (with any migrants) than the previous deme's, was; provided migrants do not fill a deme |
| Trials.FullMigrationForgets | lgp.c:945-948 | if they do, deme 1 ends up holding exactly the individuals of deme 0, and gets worse whenever its best was better than theirs |
| Trials.FullExchangeFails | lgp.c:945-948 | and for any two individuals of different errors some population of them shows it |
| Trials.MembersOrigin | lgp.c:1190-1421 | at any moment of a run everybody is from the initial population or has the error of a child bred since |
| Trials.BestOfAll | lgp.c:1317-1355 | at any moment of a run the best so far is as good as everybody exactly when it is as good as those left from the beginning |
| Trials.StandingIsBest | lgp.c:1317-1355 | the lowest error is that of the start or of the first child below it and below every child before; the best, its validation error and the generation of the last improvement are that child's; no child has been better |
| Trials.ShorterWinsTie | lgp.c:1205-1215 | of two equally fit individuals the shorter wins exactly when its being first agrees with the first one's length lying below the error |
| Trials.BreedingElitism | lgp.c:1197-1296 | a breeding makes the best of no deme worse |
| Trials.GenerationElitism | lgp.c:1190-1421 | the same for a whole pass of the loop, migration included |
| Trials.RunElitism | lgp.c:1190-1421 | over any run, between any two moments of it, no deme's best gets worse |
| Trials.Lengthen | lgp.c:1190-1421 | a run extended by one pass is a run |
| Trials.PickIsFirst | lgp.c:1201-1204 | a place in the deme is that of the first draw whose place is not taken yet, and there is none exactly if all draws one has the patience for give taken ones |
| Trials.EveryPlaceIsDrawn | lgp.c:1201-1204 | every place of the deme is that of some draw |
| Trials.TournamentIsFair | lgp.c:1197-1250 | the first of four places meets the second, the third the fourth, and no loser is strictly better than its winner |
| Trials.BroodIsLitter | lgp.c:1259-1296 | parents the system may hold bring forth well-formed, rated mutants of their two splices |
| Trials.EachDemeOnce | lgp.c:1190-1193 | in any Ndemes consecutive passes each deme has exactly one turn |
| Trials.MigrationsFall | lgp.c:1414-1421 | if there are demes to exchange between, migrations fall on the multiples of Popsize other than 0 and nowhere else |
| Trials.Reproducible | lgp.c:1190-1421 | a trial is determined by its initial population, the seeds and the way equal individuals are sorted: after as many attempts two trials are in the same generation and state and have bred the same |
| Trials.OneBreeding | lgp.c:1195-1296 | population and generator determine who breeds, with what children, and that the crossover succeeds |
| Evolution.Population.constructor | lgp.c:1176-1187 | every individual of the new population is the rated program that the generator gives after those before it, nothing is shared, and nothing has been bred |
| Evolution.Population.Compare | lgp.c:1206-1223 | the individual of lower error wins, and on a tie the first exactly when its length is below the error |
| Evolution.Population.DrawOther | lgp.c:1201-1204 | the loop draws again exactly while the place is taken |
| Evolution.Population.Select | lgp.c:1197-1250 | the next draws decide on four distinct members of the deme, paired into winners and losers |
| Evolution.Population.Reproduce | lgp.c:1259-1296 | the losers become exactly the two children that the winners and the generator's state determine, and nobody else changes; a failed crossover changes nobody |
| Evolution.Population.UpdateBest | lgp.c:1318-1355 | the better child becomes the best so far, with its error, validation error and generation, exactly when it is better than all before; the trial ends with everything as it was exactly when such a child has a larger validation error than the last, which was small enough to stop at |
| Evolution.Population.Consider | lgp.c:1298-1355 | a perfect first child, and only the first, ends the program before the children are looked at; otherwise the above |
| Evolution.Population.Breed | lgp.c:1195-1355 | one round of all this in the deme whose turn it is: who meets, what they bring forth and what becomes best follow from population and generator |
| Evolution.Population.SortDemes | lgp.c:927-933 | each deme is sorted by error and keeps its members |
| Evolution.Population.CopySlot | lgp.c:947-947 | one individual becomes equal to another, nobody else changes |
| Evolution.Population.Migrate | lgp.c:917-950 | sorting, then the ring: each slot holds what the ring of copies leaves there |
| Evolution.Population.OneGeneration | lgp.c:1190-1421 | one pass of the loop is one step of a run, or a failed attempt that changes nothing but the generator; it ends the trial exactly on a perfect first child, overfitting or stagnation |
| Evolution.Population.RunTrial | lgp.c:1187-1421 | a trial is a run, demes taking turns, each attempt going on from where the one before left the generator; it goes on until it has all its generations or attempts or is cut, and it is cut exactly with the first generation whose children stop it or that comes too long after the last improvement; the standing it ends with is that of the children bred |
| OpcodeTables.LookupSize | libdisasm-0.23/libdisasm/ia32_insn.c:373-537 | the lookup ends on every buffer and consumes at most one byte more than there are, in the main table at least one |
| OpcodeTables.TableLookup | libdisasm-0.23/libdisasm/ia32_insn.c:373-537 | the lookup with its failure marker reports what the lookup on values finds, and the marker never enters a sum |
| OpcodeTables.FinishLookup | libdisasm-0.23/libdisasm/ia32_insn.c:426-536 | the same from the selected row on: subtable, prefix, and the byte left to ModR/M |
| OpcodeTables.PrefixLookup | libdisasm-0.23/libdisasm/ia32_insn.c:490-514 | the same for a prefix byte |
| OpcodeTables.HintFields | libdisasm-0.23/libdisasm/ia32_insn.c:498-507 | a prefix with branch hints loses its segment override in front of a branch and its hints in front of anything else; all other bits stay |
| OpcodeTables.PrefixCounts | libdisasm-0.23/libdisasm/ia32_insn.c:439-441 | an escape behind a prefix is taken only if none of the prefixes before had any bits |
| OpcodeTables.FpuLookup | libdisasm-0.23/libdisasm/ia32_insn.c:385-401 | two bytes settle an FPU instruction: from C0 on a register row including its second byte, below that a memory row that leaves the byte to ModR/M |
| OpcodeTables.FpuLeaves | libdisasm-0.23/libdisasm/ia32_opcode_tables.c:1971-2128 | every FPU row ends the lookup |
| OpcodeTables.TablesExist | libdisasm-0.23/libdisasm/ia32_opcode_tables.c:2809-2879 | the conditions on tables can be met together |
| Disassembler.ModRMDecode | libdisasm-0.23/libdisasm/ia32_modrm.c:208-299 | the bytes taken for an operand that fits are exactly the encoding of the base, index, scale and displacement filled in, under the byte's own mod and reg fields |
| Disassembler.SibDecode | libdisasm-0.23/libdisasm/ia32_modrm.c:102-141 | the SIB byte is the encoding of scale, index and base found, ESP meaning no index; base EBP without displacement means no base and the 32-bit displacement that follows, and only then more than the byte is taken |
| Disassembler.EncodeDecode | libdisasm-0.23/libdisasm/ia32_modrm.c:208-299 | decoding the encoding of any effective address, whatever follows it, gives back that address and the length of the encoding |
| Disassembler.DecodeEncode | libdisasm-0.23/libdisasm/ia32_modrm.c:208-299 | and encoding what was decoded gives back the bytes |
| Disassembler.ModRMLength | libdisasm-0.23/libdisasm/ia32_modrm.c:208-299 | sizes agree with the manual for every operand that fits; an operand that does not fit is accepted exactly when it is a lone ModR/M byte asking for a SIB byte |
| Disassembler.DisasmAddr | libdisasm-0.23/libdisasm/ia32_insn.c:575-625 | an instruction is accepted only if its opcode is valid and fits the buffer; without a suffix its mnemonic is the row's |
| Disassembler.Tiling | libdisasm-0.23/libdisasm/ia32_insn.c:297-321 | an accepted instruction is its opcode, the bytes of its three operands one behind the other, each of the length of its kind, and one more byte if there is a suffix |
| Disassembler.InstructionRoundTrip | libdisasm-0.23/libdisasm/ia32_insn.c:297-321 | an opcode the tables find whole, followed by the bytes of its operands, is disassembled to just these operands and ends with them, whatever stands before and after |
| Disassembler.OpcodeAndImmediate | libdisasm-0.23/libdisasm/ia32_operand.c:129-142 | so an opcode with an immediate of k bytes is k bytes longer than the opcode, and the value is the one encoded |
| Disassembler.ModRMAndImmediate | libdisasm-0.23/libdisasm/ia32_insn.c:306-318 | and an immediate behind a ModR/M operand starts where the address ends |
| Disassembler.OperandRoundTrip | libdisasm-0.23/libdisasm/ia32_operand.c:38-243 | an operand is read back from its bytes, whatever follows |
| Disassembler.OperandSpells | libdisasm-0.23/libdisasm/ia32_operand.c:38-243 | and the bytes taken for an operand of a known kind spell the value found |
| Disassembler.OperandTakes | libdisasm-0.23/libdisasm/ia32_operand.c:38-380 | an operand that fits the buffer takes exactly the bytes of one operand of its kind off its front |
| Disassembler.PrefixAdds | libdisasm-0.23/libdisasm/ia32_insn.c:510-513 | a prefix adds its own bits to those seen, so the size attributes are those of all prefixes together |
| Disassembler.NumberRoundTrip | libdisasm-0.23/libdisasm/x86_imm.c:6-68 | a signed or unsigned number of any size is read back from its little-endian bytes |
| Disassembler.FarMisread | libdisasm-0.23/libdisasm/ia32_operand.c:111-128 | the selector read for a far pointer is the low half of its offset |
| Disassembler.BareDisplacementIsLost | libdisasm-0.23/libdisasm/ia32_modrm.c:143-201 | with 16-bit addressing the length agrees with the manual exactly unless the operand is a bare displacement |
| Disassembler.SuffixNames | libdisasm-0.23/libdisasm/ia32_insn.c:539-557 | with a suffix, the last byte selects a valid row of the suffix table and the mnemonic is that row's |
| Disassembler.Disasm | libdisasm-0.23/libdisasm/x86_disasm.c:16-71 | an accepted instruction lies inside the buffer |
| X87.HeaderPair | lgp.c:57-70 | one FLDZ and one FSTP put a zero into the next register and leave the top where it was |
| X87.HeaderRun | lgp.c:56-74 | from FINIT the header never faults, keeps the top, zeroes ST(0) to ST(6) and leaves ST(7) empty |
| Decompiler.Decompile | decompile.c:452-486 | the loop emits exactly the statements of the sweep, or stops with its first error |
| Parsing.NoArgParses | libdisasm-0.23/libdisasm/ia32_opcode_tables.c:1983-2128 | an operand-less instruction is found whole at its place, with its own mnemonic |
| Parsing.RegArgParses | libdisasm-0.23/libdisasm/ia32_opcode_tables.c:1983-2450 | a register form is found with its operation and both registers in order |
| Parsing.MemArgParses | libdisasm-0.23/libdisasm/ia32_opcode_tables.c:2291-2301 | a memory form is found with its operation and the very address that was encoded |
| Parsing.InstructionParses | decompile.c:453-463 | wherever its bytes stand, a generated instruction is found whole |
| Parsing.SweepVisitsBoundaries | decompile.c:452-486 | a sweep over a laid-out program visits its boundaries, all of them and nothing else, and stops at the footer |
| Parsing.SweepVisitsTable | decompile.c:452-486 | for an individual these are the magnitudes of its boundary table |
| Parsing.AmbiguousBytes | opcodes.h:15-53 | D8 E1 is both the first operand-less instruction and the register form FSUB ST(0),ST(1) |
| Parsing.SameBytes | lgp.h:93-101 | two generated programs have the same bytes exactly when they have the same instructions up to the kind of each D8 E1 |
| Parsing.BytesDetermine | lgp.h:93-101 | the bytes of an individual determine its program exactly when it has no D8 E1 or only one register is in use |
| Simulation.MemoryExists | compute_error.c:83-85 | every vector of constants and of inputs can be the one in memory, so the theorems speak of all of them |
| Simulation.ConstantResolves | decompile.c:200-216 | the nearest-base rule turns the address of constant k back into constant k, for every placement of two disjoint arrays at non-negative addresses |
| Simulation.InputResolves | decompile.c:200-216 | and the address of input k into input k |
| Simulation.AddressSurvives | decompile.c:200-216 | an instruction on an element of either array decompiles exactly when the element is not at address 0 |
| Simulation.GeneratedInStep | decompile.c:99-418 | processor and decompiler agree on every generated instruction: size, operation, operands |
| Simulation.StepSimulates | decompile.c:110-418 | one statement does to the array what one instruction does to the stack |
| Simulation.BodySimulates | decompile.c:452-490 | the rest of a program and the rest of its statements stay in step |
| Simulation.DecompilationPreservesMeaning | decompile.c:421-493 | every generated program decompiles, and if its machine code returns, it returns what the emitted function returns |
| Simulation.IndividualDecompiles | decompile.c:421-493 | the same read off the buffers of an individual |
| StackDiscipline.InstructionFetches | opcodes.h:14-69 | the processor fetches a generated instruction whole |
| StackDiscipline.GeneratedRegisters | lgp.c:549-550 | no generated instruction writes a register of number nregisters1 or above; reading goes up to the same bound or ST(1); only a register form naming 7 reads ST(7), except the store that fills it |
| StackDiscipline.StepDiscipline | opcodes.h:14-69 | an enabled opcode keeps the top, changes only the register it writes, empties none, and faults on the stack exactly when it reads an empty register |
| StackDiscipline.AfterIsExecute | compute_error.c:98-99 | running a program is running its first k instructions and going on |
| StackDiscipline.BodyDiscipline | opcodes.h:14-69 | however far a program gets, the top is where the header left it and the registers from nregisters1 on are as the header left them |
| StackDiscipline.BodyStackSafety | opcodes.h:38-57 | with only ST(7) empty, a program that fills ST(7) before naming it never faults on the stack; any other ends in a fault, on the stack unless arithmetic faulted first |
| StackDiscipline.StackSafety | compute_error.c:93-99 | the same for the whole run from FINIT, so an unsafe program never returns a value, whatever the arithmetic |
| StackDiscipline.SevenRegistersAreSafe | lgp.c:543-554 | with at most seven registers every generated program is safe |
| StackDiscipline.EighthRegisterUnsafe | lgp.c:543-554 | with eight registers there is a well-formed individual whose run is a stack fault in every world |
| Drivers.LibdisasmIsSound | libdisasm-0.23/libdisasm/x86_disasm.c:16-71 | the disassembler above reports sizes that fit the buffer, which is all the drivers need |
| Drivers.DisasmRange | libdisasm-0.23/libdisasm/x86_disasm.c:73-101 | the callbacks tile the range exactly to its end, and the count is their number |
| Drivers.TilesInside | libdisasm-0.23/libdisasm/x86_disasm.c:82-98 | tiles are ascending, disjoint and inside the range |
| Drivers.SkippedSingly | libdisasm-0.23/libdisasm/x86_disasm.c:92-95 | a byte in no tile was tried on its own and did not decode |
| Drivers.RvaList.Add | libdisasm-0.23/x86dis/x86dis.c:121-140 | the sorted list gains just the address, and reports truthfully whether it was new |
| Drivers.RvaList.Link | libdisasm-0.23/x86dis/x86dis.c:127-133 | splicing a node in keeps the list linked and ascending |
| Drivers.Resolve | libdisasm-0.23/x86dis/x86dis.c:145-168 | a branch is resolved the first time only, to its destination |
| Drivers.StepCases | libdisasm-0.23/libdisasm/x86_disasm.c:105-183 | a step of control told from the instruction: behind everything but a jump or a return to the next byte not consumed, and from a jump or call to the one offset of the buffer whose address is its operand, or lies the operand's distance behind the instruction's end, modulo 2^32 |
| Drivers.RelativeBranch | libdisasm-0.23/x86dis/x86dis.c:157-165 | a relative branch of distance d leads d bytes beyond where control falls through to |
| Drivers.AbsoluteBranch | libdisasm-0.23/x86dis/x86dis.c:155-156 | a branch to the address of byte k of the buffer leads to offset k |
| Drivers.BranchLands | libdisasm-0.23/x86dis/x86dis.c:157-165 | a branch assembled with distance d is decoded and followed d bytes beyond its end, wherever it stands |
| Drivers.DisasmForward | libdisasm-0.23/libdisasm/x86_disasm.c:127-193 | the walk ends on every buffer, jump cycles included; it makes exactly the callbacks of the walk on values, counts them, and their number is bounded |
| Drivers.Branch | libdisasm-0.23/libdisasm/x86_disasm.c:153-183 | following a branch strictly reduces the unseen addresses of the buffer before any recursion |
| Drivers.UnseenShrinks | libdisasm-0.23/x86dis/x86dis.c:148-151 | seeing more addresses never enlarges, and a new one of the buffer strictly shrinks, what is unseen |
| Drivers.ForwardCovers | libdisasm-0.23/libdisasm/x86_disasm.c:127-193 | the reports are instructions of the buffer; every reported branch was seen; the first instruction from the target on of every branch seen for the first time is reported; and (offsets not wrapping) so is the first one from where control falls through to from a report |
| Drivers.ReachableIsReported | libdisasm-0.23/libdisasm/x86_disasm.c:127-193 | every decodable offset is reported to which a trail of fall-throughs, skipped bytes and branches inside the buffer leads, if none of the branches is at an address seen before the walk |
| Drivers.ReportedIsReached | libdisasm-0.23/libdisasm/x86_disasm.c:127-193 | and to every report such a trail leads |
| Drivers.ReportedIffReached | libdisasm-0.23/libdisasm/x86_disasm.c:127-193 | so an offset is reported if and only if it decodes and such a trail leads to it |
| Drivers.NothingIsMissed | libdisasm-0.23/x86dis/x86dis.c:145-151 | if no branch of the buffer is at an address seen before, what is reported is all that control can reach |
| Drivers.BranchAtZeroIsLost | libdisasm-0.23/x86dis/x86dis.c:116-140 | with only address 0 seen, the one step of control not followed is a branch at address 0 |
| Drivers.JumpAtZeroIsLost | libdisasm-0.23/x86dis/x86dis.c:116-140 | a jump at address 0, which the list holds from the start, is never followed |
| OperandList.Insn.Append | libdisasm-0.23/libdisasm/x86_operand_list.c:5-46 | a new operand goes to the end, both counters grow by one |
| OperandList.Insn.DecodeExplicit | libdisasm-0.23/libdisasm/ia32_insn.c:306-321 | the list is the used ones of dest, src and aux, in this order, all counted |
| OperandList.Insn.AddImplicit | libdisasm-0.23/libdisasm/ia32_implicit.c:386-419 | an alias of EAX already there is flagged, anything else is appended uncounted |
| OperandList.Insn.DecodeOperands | libdisasm-0.23/libdisasm/ia32_insn.c:297-326 | after decoding, the list length is operand_count and explicit_count is the number of explicit operands |
| OperandList.ExplicitFirst | libdisasm-0.23/libdisasm/ia32_implicit.c:386-419 | the explicit operands keep the front of the list in order, everything behind them is implied |
| OperandList.Insn.Operand1st | libdisasm-0.23/libdisasm/x86_operand_list.c:169-175 | the first node if there is an explicit operand, else null |
| OperandList.Insn.Operand2nd | libdisasm-0.23/libdisasm/x86_operand_list.c:177-183 | the second node if there are two |
| OperandList.Insn.Operand3rd | libdisasm-0.23/libdisasm/x86_operand_list.c:185-191 | the third node if there are three |
| OperandList.Insn.Foreach | libdisasm-0.23/libdisasm/x86_operand_list.c:71-147 | the callback gets exactly the operands of the wanted kind and access, in order |
| OperandList.VisitsExactly | libdisasm-0.23/libdisasm/x86_operand_list.c:92-144 | an operand is visited exactly when it is in the list, of the wanted kind, and read, written or executed as wanted |
| OperandList.AccessSplits | libdisasm-0.23/libdisasm/x86_operand_list.c:103-138 | what is read is either only read or also written, what is written only written or also read, each operand as often as it occurs |
| OperandList.KindsSplit | libdisasm-0.23/libdisasm/x86_operand_list.c:83-101 | the explicit and the implicit operands are together all there are |
| OperandList.ExplicitFlags | libdisasm-0.23/libdisasm/ia32_implicit.c:390-418 | an explicit operand ends up flagged, read or written exactly when it was, or is the first to name an implicit alias of EAX, or one that is read or written |
| OperandList.ImplicitsBehind | libdisasm-0.23/libdisasm/ia32_implicit.c:386-419 | implicit operands that are not aliases of EAX go behind the others, in order, with their own access |
| OperandList.ImplicitsRepresented | libdisasm-0.23/libdisasm/ia32_implicit.c:386-419 | every implicit operand, alias or not, has a flagged operand in the list with its register and at least its access |
| OperandList.ExplicitLoopCount | libdisasm-0.23/libdisasm/x86_operand_list.c:154-166 | a loop over the explicit operands visits explicit_count of them exactly when none was flagged beforehand and none names a register that an implicit row lists as an alias of EAX; otherwise fewer |
| OperandList.EaxIsSkipped | libdisasm-0.23/libdisasm/ia32_implicit.c:391-404 | for any instruction whose one explicit operand is such a register the loop visits none |
| Ensemble.ComputeError | compute_error.c:48-138 | the error is the sum of the losses, or the largest value if a run traps; recorded outputs stop at the trap |
| Ensemble.ErrorCountsMisses | compute_error.c:105-117 | for classification the error is the number of recorded votes that miss, and the ensemble error of a vote vector |
| Ensemble.RegressionError | compute_error.c:118-133 | for a regression the error of a program that does not trap is not negative, not below any one loss, and 0 exactly if every output is the desired one |
| Ensemble.CloserIsFitter | compute_error.c:118-133 | and a program nowhere further from the desired outputs has no larger error |
| Ensemble.RegressionLoss | compute_error.c:122-132 | each loss is the distance from the desired output, and is what is recorded |
| Ensemble.EnsembleIsMean | lgp.c:993-1043 | the ensemble error of a regression is the mean of its members' own errors |
| Ensemble.OneMemberAgrees | lgp.c:1025-1043 | an ensemble of one has its member's error on every subrange |
| Ensemble.SumOfVotes | lgp.c:998-1003 | the sum over members is twice the ayes minus the members |
| Ensemble.MajorityVote | lgp.c:993-1020 | the indicator is 1 exactly when strictly more than half vote 1, and otherwise -1 |
| Ensemble.Voters.Add | lgp.c:956-989 | the output vector is recorded exactly when no member has the same one, so members stay pairwise distinct |
| Ensemble.Voters.Update | lgp.c:993-1020 | the indicator then shows what the present members combine to |
| Ensemble.Voters.Error | lgp.c:1025-1043 | the loop computes the ensemble error of the indicator |
| Ensemble.Voters.KeepOrReject | lgp.c:1469-1490 | a newcomer stays exactly when it is new and makes neither training nor validation error larger (or is the first); otherwise members and indicator are restored |
| Ensemble.Voters.Trial | lgp.c:1456-1491 | only a candidate that beats coin flipping on validation, or a regression, is tried at all |
| Ensemble.Voters.Trials | lgp.c:1152-1491 | over any sequence of trials of a nonempty ensemble neither error ever grows |
| Agreement.PatternInMemory | compute_error.c:83-85 | the address of input variable j holds the pattern's value of it |
| Agreement.PatternAgrees | lgp.c:1371-1400 | on every input pattern on which an individual's bytes do not trap, its emitted function returns the same value |
| Agreement.ErrorAgrees | lgp.c:1371-1400 | over any range of timesteps the error of the machine code is the error of the emitted function, or the largest value if the machine code traps |
| Agreement.BestDecompiles | lgp.c:1371-1400 | the emitted function of the best so far has exactly the best error, without proviso, since what traps never becomes best |

## Left out

- Ensemble.Voters.Add: for a program that traps, the outputs from the trap on are arbitrary, as the buffer of the original is uninitialised there.
- FastRand.Generator.Below: the product is formed in exact arithmetic, not in single precision.
- FastRand.Generator.Fastrand: does not model rounding of the quotient to single precision, where a seed near 2^31 could round up to 1.
- Ensemble.ComputeError: the absolute-error build; the squared-error norm and NaN outputs are not modelled.
- OpcodeTables.TablesExist: exhibits tables with the FPU rows and fillers elsewhere; that the other tables of the original have the shape `WellFormed` asks for is not shown.
- Agreement.PatternAgrees: the emitted C is taken not to trap where the machine code does not; what it does where the machine code traps is not compared.
- Genome.BuildChild: writes one child after the other, where the original interleaves the loops for the two children; they share no storage.
- Evolution.Population.Breed: redrawing until distinct depends on luck, so the loops are given up after an arbitrary number of draws (`patience`) and the trial is abandoned; for the same reason a deme has at least four members.
- Evolution.Population.RunTrial: retries after failed crossovers are cut off after an arbitrary number of attempts, since nothing bounds them.
- Evolution.Population.OneGeneration: the statistics of a pass are not modelled, nor the decompilation that precedes the exit on a perfect child.
- Evolution.Population.SortDemes: the C library's sort is any sort, written as a selection sort; the order of equal individuals is not determined by the original either. Demes have equal sizes; a population not divisible by the number of demes only draws a warning in the original.
- Drivers.DisasmForward: the buffer has fewer than 2^32 bytes; what it reaches is stated for at most 2^31, beyond which offset plus byte count can wrap.
- Simulation.DecompilationPreservesMeaning: a printed constant is its exact value; the original prints 12 decimals.
- Disassembler.DecodeOperand: the values of addresses in 16-bit ModR/M operands, and the operands of rows whose addressing method the decoder does not know, are not modelled; nor are operand flags and data types.
- Disassembler.Disasm: the zero-padded 20 byte copy the original decodes from is modelled as zeros past the end of the buffer; runs of more than 20 prefix bytes are therefore not cut, and the option to stop at four zero bytes is not modelled.
- Arrays of constants or inputs from address 2^31 on (negative as a 32-bit long).
- Floating-point rounding, NaN results and NaN errors, and 32-bit overflow of counters.
- Signals, FXSAVE and FXRSTOR, the control word, and the actual execution of bytes: a trap is one outcome.
- Operand text: formatting by the disassembler and its parsing by the decompiler are replaced by passing the decoded operand; malformed operands that make the original print a register number of -1 are an error here.
- Decompiler cases for opcodes that opcodes.h has commented out, whose stack pops the source itself marks as doubtful.
- Statistics, bagging, regenerating unfit initial programs, reinitialising constants and the random number of registers between trials.
- The opcode tables other than the FPU rows of D8, D9, DC and DD (their shape is a parameter), register names, invariant instructions, and the request list of x86dis.
- Command line, file loading, plotting and output text.
