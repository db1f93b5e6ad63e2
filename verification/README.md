# Proofs about a compiler back end, its helper tools and a small libc

This Dafny project models the parts of the repository that do the most with
the fewest words, and proves what they are for.

* **The A64 back end** (`externals/tcc/arm64-gen.c`). Emitted words get a
  meaning in `A64` (decoding and execution of the instructions the generator
  uses); then the generator's methods, which write words into a `Section`, are
  proved to emit code that does what was asked: any 64-bit constant
  (`BitmaskImm`, `MoveImm`), the stack set-up patched into six reserved slots
  (`StackSetup`), operations with a constant operand against the same operation
  on registers (`ConstOperand`), and access to a symbol plus any offset
  (`SymbolAccess`, `LoadStore`, with loads and stores decoded and executed in
  `A64Access`). `Jumps64` threads pending jumps through the
  code and resolves them; `Aapcs64` and `Prologue64` place and save parameters.
* **The 32-bit Arm back end** (`externals/tcc/arm-gen.c`, `arm-asm.c`).
  `Arm32`, `ArmConst` and `ArmAddress` do the same for rotated immediates and
  addressing modes, `ArmWindows` says which constants take how many
  instructions, `Jumps32` for branches that carry a condition, `VfpArgs`
  for floating-point argument registers, and `AsmOperands` for the register
  allocation of inline assembly.
* **The wasm symbol renamer** (`tools/wasm_prefix_syms.py`): `Leb128`,
  `WasmSymbols` and `WasmRename` say what a linking section is, what renaming
  means, and that the result reads back; `WasmFormat` gives symbols and renaming
  in the numbers of the tool conventions and one object file byte by byte;
  `WasmTool` proves the tool's methods against that.
* **The TCP relay** (`tools/tcp_relay.py`): `Relay` is an event-driven state
  machine with a ghost log of everything read, sent, shut down and failed.
  What each socket call answers is a parameter, so every proof holds for every
  order of events and every answer.
* **The compiler fuzzer** (`tools/rsx_fuzz.py`): `Fuzz` generates and evaluates
  programs; `FuzzRust` prints them, parses the text with Rust's precedences and
  runs it on wrapping 32-bit words; the two meanings agree.
* **Formatting and parsing of numbers** (`port/lib.c`): `FwFormat`, `Strtol`.
* **Generator slots** (`modmetal.c`): `UpySlots`.

A method that changes state is specified by what it makes of the old state;
the lemmas beside it say what that means. A word that results from a function
is often passed on under a name of its own, and definitions are hidden where
only their stated properties matter: both keep the bit-vector proofs small.

Where a method and its contract go through the same function, a lemma beside
them says in plain numbers what that function is: the words taken by an
argument, the flag bits of a symbol, the text of a conversion. The decoders have
words as they are known from the manuals (`A64.KnownSums` and the lemmas around
it, `LoadStore.KnownWords`, `Arm32.KnownSums`, `Jumps32.KnownBranches`).

`dafny verify dfyconfig.toml` checks the whole project; the options given there
keep the bit-vector proofs quick.

## Where the code does less than it seems to

These are properties one would expect, with the exact condition under which
the code has them.

* A shift by a constant that is 0 modulo the width moves the operand into
  register 0, whatever register was asked for: `ConstOperand.Opic` is right
  then if and only if register 0 was asked for.
* `encbranch` accepts twice the range that its 24-bit field holds:
  `Jumps32.DecodesExactly` gives the exact range in which `decbranch` undoes
  it, `Jumps32.RangesExactly` both ranges in bytes, `Jumps32.ArriveExactly` which branches of a resolved list arrive.
* `avail[3]` is declared for three skipped registers. It suffices exactly as
  long as no double-aligned argument finds three registers skipped and an odd
  one next (`VfpArgs.ThreeSuffice`); eleven arguments that mix floats and
  doubles do (`VfpArgs.FourHoles`), and more than four registers are never
  skipped (`VfpArgs.AtMostFour`).
* A tied operand may itself be the target of another tie
  (`AsmOperands.ChainOfReferences`). Allocation then succeeds and the second
  tied operand gets no register (`AsmOperands.ChainAllocated`); all other tied
  operands have their target's (`AsmOperands.ComputeConstraints`).
* `calcaddr` compares a signed offset with its limit, so an aligned negative
  one is left as it is; exactly then the new offset does not fit
  (`ArmAddress.CalcAddr`).
* A task that cannot park, because there is no memory for its timer, dies
  without giving back its slot; a slot without a live task is exactly such a
  slot (`UpySlots.OccupiedIsLive`), and eight of them stop all registration
  (`UpySlots.AllLost`).
* Zero padding goes before the sign, so a zero-padded signed number is not
  read back: `Strtol.ReadsBack` holds if and only if no zeros precede a sign.
* With no digits to read, `strtol` reports the end behind white space, sign and
  prefix where C (section 7.22.1.4 of C11) asks for the start of the string;
  `Strtol.ReadExactly` gives value and end for every string and base.
* `%s` and `%c` fill their field, as C asks and as numbers do, if and only if
  the `-` flag is absent or the text is wide enough
  (`FwFormat.FieldFilled`, an input in `FwFormat.UnfilledField`).
* An unsigned number gets a sign if and only if the `+` or the space flag is
  given, although a comment beside the formatter says that they have no effect
  on it; when the text shows it, exactly, is `FwFormat.UnsignedSign`, with
  inputs in `FwFormat.SignedUnsigned`.
* An empty struct that finds no integer register left passes the test
  `size <= (8 - nx) * 8` and gets the code of the first vector register. For
  all other types and cursors the code reads back as the place that was given
  (`Aapcs64.ReadsAsGiven`); `Aapcs64.EmptyStructMisread` is a list in which
  the struct and a double have the same code.
* `close_pair` looks the partner up under a `Peer` object where the keys are
  sockets, so only the given socket is closed; a partner that is open stays
  open until its next read event (`Relay.Relay.ClosePair`).
* An EOF drops the write interest of the socket it was read from. That stalls
  the socket if and only if bytes still wait on it (`Relay.Relay.RelayRead`),
  and as long as it stays open only a read on the other side, of bytes or of
  EOF, tries them again (`Relay.Relay.Ready`).

## Model

| member | source | states |
|---|---|---|
| BitmaskImm.EncodeSound | externals/tcc/arm64-gen.c:130-177 | whatever encoding is returned, the architecture's DecodeBitMasks gives back the input |
| BitmaskImm.EncodeNarrow | externals/tcc/arm64-gen.c:148-151 | a pattern of period at most 32 gets N = 0 |
| BitmaskImm.EncodeComplete | externals/tcc/arm64-gen.c:130-177 | a constant that some encoding decodes to is never refused |
| BitmaskImm.EncodeExact | externals/tcc/arm64-asm.c:624-683 | an encoding is returned if and only if one exists |
| BitmaskImm.CascadesFindRun | externals/tcc/arm64-gen.c:153-170 | when the two cascades leave nothing, the element was a run of ones at the position and of the length found |
| BitmaskImm.PeriodRepeats | externals/tcc/arm64-gen.c:140-151 | the period found by the tests really repeats the whole word |
| MoveImm.MoviLoads | externals/tcc/arm64-gen.c:179-214 | a nonzero word loads exactly the constant into the register |
| MoveImm.MoviExactly | externals/tcc/arm64-gen.c:179-214 | an instruction is found if and only if some MOVZ, MOVN or ORR with an immediate loads the constant |
| MoveImm.CountHalves | externals/tcc/arm64-gen.c:226-229 | counts the halfwords that are zero and those that are all ones |
| MoveImm.FirstMove | externals/tcc/arm64-gen.c:230-239 | the first word sets the first halfword that differs from the fill, and the fill everywhere else |
| MoveImm.MoveSequence | externals/tcc/arm64-gen.c:230-243 | after the words the register holds the constant; one word per halfword that differs from the fill |
| MoveImm.Movimm | externals/tcc/arm64-gen.c:216-245 | after the words the register holds exactly x and no other register has changed; one word if some instruction loads x, otherwise one for each halfword that is not 0, or that is not all ones if that is fewer |
| MoveImm.GenMovImm | externals/tcc/arm64-asm.c:1205-1224 | the assembler's sequence loads the same constant, in one word per halfword |
| StackSetup.SubSp | externals/tcc/arm64-gen.c:1001-1025 | the words lower sp by exactly diff and change at most x16 besides; one for each nonzero twelve-bit piece below 2^24, otherwise those that load x16 and one more; fewer than six |
| StackSetup.PatchPrologue | externals/tcc/arm64-gen.c:1600-1611 | exactly the six reserved slots change, and executing them lowers sp by the rounded frame size |
| StackSetup.FrameSizeFits | externals/tcc/arm64-gen.c:1605 | the rounded size is the next multiple of 16 |
| ConstOperand.Opic | externals/tcc/arm64-gen.c:1734-1811 | refused exactly when no constant form exists, and then nothing is emitted; otherwise the result is right if and only if it is not a shift by 0 modulo the width into a register other than 0; one word exactly if x30 need not hold the constant |
| ConstOperand.FormExactly | externals/tcc/arm64-gen.c:1734-1811 | the constant forms: sums and differences always, shifts unless reversed, logical operations with a bitmask immediate (at 32 bits, of the low word repeated), and the inversion |
| ConstOperand.MagnitudeShort | externals/tcc/arm64-gen.c:1746-1753 | what is added or subtracted has an immediate form if and only if the constant or its negation at the width has one |
| ConstOperand.Reversed | externals/tcc/arm64-gen.c:1813-1943 | a reversed operation is the same one with its operands exchanged |
| ConstOperand.NarrowDifference | externals/tcc/arm64-gen.c:1813-1943 | the difference at 32 bits; `WideSum`, `WideShifts` and their neighbours say the same of the other operations |
| ConstOperand.RefinesRegisters | externals/tcc/arm64-gen.c:1813-1943 | the constant form and the register form, with the constant in any register, leave the same values in every register but x30 |
| ConstOperand.RegisterWordDecodes | externals/tcc/arm64-gen.c:1860-1912 | the word emitted for two registers is the operation it should be |
| ConstOperand.AddConstant | externals/tcc/arm64-gen.c:1745-1758 | any constant is added; in one word exactly if it or its negation at the width has twelve bits, or twelve shifted by twelve, otherwise through x30 |
| ConstOperand.SubtractFrom | externals/tcc/arm64-gen.c:1760-1769 | the register is subtracted from any constant; in one word exactly if the constant is 0 or all ones, otherwise through x30 |
| ConstOperand.LogicalConstant | externals/tcc/arm64-gen.c:1771-1786 | refused exactly when no bitmask immediate exists and it is not an inversion; otherwise the logical operation with the constant |
| ConstOperand.ShiftConstant | externals/tcc/arm64-gen.c:1788-1807 | shifts by the constant, exactly if the distance is not 0 modulo the width or the result belongs in register 0 |
| ConstOperand.MoveComputes | externals/tcc/arm64-gen.c:1795-1799 | the word emitted for distance 0 is the shift if and only if the target is register 0 |
| ConstOperand.MagnitudeAdds | externals/tcc/arm64-gen.c:1746-1748 | adding or subtracting the magnitude is adding the constant, at either width |
| SymbolAccess.LowIsImmediate | externals/tcc/arm64-gen.c:299-310 | the part of the offset that goes into the access always has an immediate form |
| SymbolAccess.SplitExactly | externals/tcc/arm64-gen.c:299-310 | an offset with an immediate form is not split; otherwise the bits of the scaled field are split off if there are any, else the lowest nine |
| SymbolAccess.PartsRejoin | externals/tcc/arm64-gen.c:560-568 | the two parts add up to the offset |
| SymbolAccess.AddAddend | externals/tcc/arm64-gen.c:500-520 | every emitted word is defined; together they add exactly the addend to the register and keep every other register, including the one borrowed through the stack; one word for each nonzero twelve-bit piece of an addend below 2^24 |
| SymbolAccess.DetourAdds | externals/tcc/arm64-gen.c:511-518 | saving a register, loading it, adding it and restoring it adds the constant and restores the register and sp |
| LoadStore.EmitAccess | externals/tcc/arm64-gen.c:311-347 | the loads load and the stores store, a general or a vector register, 2^sz bytes, the sign extended (to 32 bits) exactly for signed loads of one or two bytes; the access reaches base plus offset for every offset; x30 is overwritten exactly when there is no immediate form |
| LoadStore.AccessSymbol | externals/tcc/arm64-gen.c:560-568 | from the symbol's address in x30 the emitted words, all defined, load or store what they should at the symbol plus any offset, by an immediate form; nothing is added when the offset has one |
| LoadStore.SymbolReached | externals/tcc/arm64-gen.c:665-673 | adding the high part and accessing at the low part reaches the symbol plus the offset, for all four kinds of access |
| LoadStore.ScaledReads | externals/tcc/arm64-gen.c:430-437 | the scaled offset field reads back as the offset, for every access size |
| LoadStore.OperationMoves | externals/tcc/arm64-gen.c:311-347 | the size, vector and operation bits decode to a load or store of the kind and size asked for |
| LoadStore.ImmediateExactly | externals/tcc/arm64-gen.c:311-324 | the immediate forms: a multiple of the access size with a quotient below 4096, or a signed number of nine bits |
| LoadStore.StoredLoaded | externals/tcc/arm64-gen.c:430-446 | a general register stored and loaded again with the same size at the same address gives its lowest bytes, extended as the load says; no other register changes |
| LoadStore.VectorStoredLoaded | externals/tcc/arm64-gen.c:448-466 | so does a vector register, the other bytes being zero |
| LoadStore.StoreSpares | externals/tcc/arm64-gen.c:430-466 | a store changes only the 2^sz bytes from its address on |
| A64Access.FetchStored | externals/tcc/arm64-gen.c:430-446 | up to sixteen bytes that are stored are fetched again, around the end of the address space too |
| A64Access.NumberOfLow | externals/tcc/arm64-gen.c:430-446 | the lowest n bytes of a register have the value of its lowest 8n bits |
| Jumps64.BranchReaches | externals/tcc/arm64-gen.c:248-261 | the range test admits exactly the labels that the stored word transfers control to |
| Jumps64.InRangeExactly | externals/tcc/arm64-gen.c:253-255 | the unsigned range test is the signed 28-bit range |
| Jumps64.Code.constructor | externals/tcc/arm64-gen.c:1633-1661 | code without pending jumps is consistent |
| Jumps64.Code.O | externals/tcc/arm64-gen.c:119-128 | a word at the cursor disturbs no pending list |
| Jumps64.Code.Jump | externals/tcc/arm64-gen.c:1633-1640 | the new jump heads the longer list; all lists stay duplicate-free, finite and disjoint |
| Jumps64.Code.Append | externals/tcc/arm64-gen.c:1649-1661 | the two lists are concatenated; words outside the first list are unchanged |
| Jumps64.Code.Resolve | externals/tcc/arm64-gen.c:248-261 | exactly the words of the list change and go to the label (a NOP when it is the next word); an unreachable label is found after a prefix |
| Jumps64.JumpConsistent | externals/tcc/arm64-gen.c:1633-1640 | emitting a jump keeps every jump of the run either pending in one list or arriving at its label |
| Jumps64.JoinConsistent | externals/tcc/arm64-gen.c:1649-1661 | so does joining two lists |
| Jumps64.ResolveConsistent | externals/tcc/arm64-gen.c:248-261 | so does resolving a list, whose jumps then arrive |
| PendingLists.PushTidy | externals/tcc/arm64-gen.c:1633-1640 | a word that links to a list heads a longer list, apart from the others |
| PendingLists.PushedIs | externals/tcc/arm64-gen.c:1633-1640 | the new word heads the list, and the other lists stay |
| PendingLists.JoinTidy | externals/tcc/arm64-gen.c:1649-1661 | linking the last word of one list to another concatenates them |
| PendingLists.JoinedIs | externals/tcc/arm64-gen.c:1649-1661 | the second list stands behind the first under the first one's name, and the other lists stay |
| PendingLists.Dropped | externals/tcc/arm64-gen.c:250-260 | rewriting the words of one list leaves the other lists as they were |
| Jumps32.DecodesExactly | externals/tcc/arm-gen.c:378-398 | decbranch undoes encbranch if and only if the word offset fits 24 signed bits |
| Jumps32.RangesExactly | externals/tcc/arm-gen.c:378-388 | for aligned offsets, distances of up to 64 MB from the word after next are accepted, of up to 32 MB are in the field |
| Jumps32.RetargetIs | externals/tcc/arm-gen.c:411-413 | retargeting keeps the condition and the branch, and reaches the address if and only if it is in the field |
| Jumps32.PatchArrives | externals/tcc/arm-gen.c:405-414 | a patched branch arrives under its own condition, or is a NOP before the next word |
| Jumps32.NewBranchPoints | externals/tcc/arm-gen.c:1566-1592 | a new branch points where it should if and only if the offset fits the field |
| Jumps32.ArriveExactly | externals/tcc/arm-gen.c:401-415 | of a resolved list exactly the branches in the field, and those before the label, arrive |
| Jumps32.Code.constructor | externals/tcc/arm-gen.c:1566-1609 | code without pending jumps is consistent |
| Jumps32.Code.O | externals/tcc/arm-gen.c:1588-1590 | a word at the cursor disturbs no pending branch |
| Jumps32.Code.Jump | externals/tcc/arm-gen.c:1566-1592 | the conditional branch heads the longer list and keeps its condition; it points to the list if and only if the offset fits the field |
| Jumps32.Code.Append | externals/tcc/arm-gen.c:1594-1609 | the two lists are concatenated, conditions unchanged; the last branch points to the second if and only if the offset fits the field |
| Jumps32.Code.Resolve | externals/tcc/arm-gen.c:401-415 | exactly the branches of the list change, each under its condition; which of them go to the label, exactly |
| Jumps32.JumpConsistent | externals/tcc/arm-gen.c:1582-1592 | emitting a branch keeps every branch of the run pending or arriving |
| Jumps32.JoinConsistent | externals/tcc/arm-gen.c:1594-1609 | so does joining two lists |
| Jumps32.ResolveConsistent | externals/tcc/arm-gen.c:401-415 | so does resolving a list |
| Jumps32.AllArrive | externals/tcc/arm-gen.c:401-415 | every branch of a resolved list transfers control to the label under the condition it was emitted with |
| Aapcs64.PassOne | externals/tcc/arm64-gen.c:866-946 | the loop body gives each argument the code and the cursors of section 6.8.2 of AAPCS64, which `ArgumentTakes` states by type and size |
| Aapcs64.OddCode | externals/tcc/arm64-gen.c:851-861 | for every list and index the code is odd, a pointer to the argument, if and only if it is a struct of more than 16 bytes that is no homogeneous aggregate |
| Aapcs64.WordsTaken | externals/tcc/arm64-gen.c:851-946 | one word for a pointer, otherwise as many as the size fills; a vector for each member of a homogeneous aggregate |
| Aapcs64.ArgumentTakes | externals/tcc/arm64-gen.c:866-946 | for every list and index, from basic type, size and alignment alone: how far each cursor moves, and the code |
| Aapcs64.PlaceTaken | externals/tcc/arm64-gen.c:866-946 | the registers or stack bytes that a code stands for lie before the cursors behind the argument |
| Aapcs64.BigStructByPointer | externals/tcc/arm64-gen.c:851-861 | before an integer a struct of 24 bytes has code 1 and the integer 2; a struct of 16 bytes has code 0 and the integer 4 |
| Aapcs64.Placed | externals/tcc/arm64-gen.c:866-946 | an argument takes what lies between the cursors; registers stay below 8, 16-byte alignment is kept, stack slots are 8-aligned; an empty struct takes nothing |
| Aapcs64.ReadsAsGiven | externals/tcc/arm64-gen.c:866-946 | a location code reads back as the place the argument was given, if and only if it is not an empty struct with no integer register left |
| Aapcs64.NoOverlap | externals/tcc/arm64-gen.c:818-950 | no two arguments share an integer register, a vector register or a stack byte, misread empty structs apart |
| Aapcs64.InsideStack | externals/tcc/arm64-gen.c:949 | every stack argument lies inside the returned size |
| Aapcs64.NoBackfill | externals/tcc/arm64-gen.c:866-946 | once an argument has gone to the stack, a later one of its class goes there if and only if it is not empty |
| Aapcs64.ReturnClass | externals/tcc/arm64-gen.c:957-962 | a returned value has class 0, 1 or 16, by kind and size |
| Aapcs64.EmptyStructMisread | externals/tcc/arm64-gen.c:919-924 | eight integers, an empty struct and a double: the struct and the double have the same code |
| Aapcs64.PcsAux | externals/tcc/arm64-gen.c:818-950 | fills in the codes of all arguments and returns the size of the stack area |
| Aapcs64.Pcs | externals/tcc/arm64-gen.c:952-965 | codes of result and arguments; the assertion on the result's class cannot fail |
| Prologue64.SaveRegisters | externals/tcc/arm64-gen.c:1310-1323 | the emitted pairs leave every argument register, and x8, in its save slot |
| Prologue64.CountSaves | externals/tcc/arm64-gen.c:1276-1308 | enough pairs are saved for every parameter, and all of them for a variadic function |
| Prologue64.FrameBounds | externals/tcc/arm64-gen.c:1328-1333 | a parameter is recorded at 160 plus 8 for each integer register before its own, at 16 plus 16 for each vector register, or in the caller's area 224 above sp |
| Prologue64.FramesApart | externals/tcc/arm64-gen.c:1328-1333 | no two parameters share a byte of the frame |
| Prologue64.PackMembers | externals/tcc/arm64-gen.c:1346-1355 | members of a float or double aggregate end up side by side, other bytes untouched |
| Prologue64.Prolog | externals/tcc/arm64-gen.c:1244-1356 | after the prologue every register that carries a parameter is at the offset recorded for it, the pointer to an indirect result is saved, and in a variadic function so are the registers that no parameter takes |
| Prologue64.KeepsUnnamed | externals/tcc/arm64-gen.c:1346-1355 | repacking an aggregate leaves the registers behind all parameters in their save slots |
| VfpArgs.NextSound | externals/tcc/arm-gen.c:960-984 | registers are given once, inside s0-s15, doubles at even ones, and only single floats go back to skipped registers |
| VfpArgs.PlaceLowest | externals/tcc/arm-gen.c:960-984 | an argument gets the lowest registers that are free, adjacent and aligned, and none if and only if there are none |
| VfpArgs.LowestFree | externals/tcc/arm-gen.c:944-984 | so does every argument of a list as long as all before it have fitted |
| VfpArgs.NeverTwice | externals/tcc/arm-gen.c:944-984 | no two arguments of any list share a register |
| VfpArgs.StaysOut | externals/tcc/arm-gen.c:964-983 | after the first argument that does not fit, none gets a register |
| VfpArgs.AtMostFour | externals/tcc/arm-gen.c:944-949 | at most four registers are ever skipped |
| VfpArgs.ThreeSuffice | externals/tcc/arm-gen.c:966-971 | the declared array suffices if and only if no argument reaches the store with three registers skipped |
| VfpArgs.FourHoles | externals/tcc/arm-gen.c:944-949 | a list of eleven arguments that skips four registers, one more than declared |
| VfpArgs.AvailRegs.Assign | externals/tcc/arm-gen.c:960-984 | the register is the lowest that fits, unless an earlier argument did not fit; afterwards exactly its registers are used in addition |
| ArmConst.EncodedReads | externals/tcc/arm-gen.c:307-312 | the rotated immediate reads back as the constant and no other field changes |
| ArmConst.FindWindow | externals/tcc/arm-gen.c:304-313 | an instruction is found if and only if some even rotation of a byte is the constant |
| ArmConst.TurnedDoes | externals/tcc/arm-gen.c:273-298 | the opposite operation on the negated or inverted constant does the same |
| ArmConst.StuffConst | externals/tcc/arm-gen.c:268-318 | the instruction does what op with the constant would do; 0 is returned exactly when no form exists, which `ArmWindows.PossibleExactly` states by class and constant |
| ArmConst.FindPair | externals/tcc/arm-gen.c:334-336 | two windows are found if and only if two non-overlapping windows cover the constant |
| ArmConst.FindTriple | externals/tcc/arm-gen.c:351-354 | the same for three |
| ArmConst.SlotsRotate | externals/tcc/arm-gen.c:330-333 | the table of windows is the first one rotated step by step |
| ArmConst.EmitPair | externals/tcc/arm-gen.c:337-339 | two instructions add or subtract the constant |
| ArmConst.EmitTriple | externals/tcc/arm-gen.c:355-358 | three instructions add or subtract the constant |
| ArmConst.EmitQuad | externals/tcc/arm-gen.c:371-374 | four instructions on the four quarters add or subtract any constant |
| ArmConst.StuffConstHarder | externals/tcc/arm-gen.c:322-376 | any constant is added or subtracted in at most four instructions; how many, exactly, by `ArmWindows.NeededExactly` |
| ArmWindows.EncodableExactly | externals/tcc/arm-gen.c:304-313 | a window takes the constant if and only if it is a byte rotated by an even distance |
| ArmWindows.PossibleExactly | externals/tcc/arm-gen.c:268-318 | a single instruction exists if and only if the constant is a rotated byte, or its negation (ADD, SUB) or inversion (MOV, MVN, AND, BIC) is, or it is all ones (EOR, AND, ORR) |
| ArmWindows.PairExactly | externals/tcc/arm-gen.c:334-340 | the search for two windows succeeds if and only if the constant is the bits of any two rotated bytes |
| ArmWindows.TripleExactly | externals/tcc/arm-gen.c:351-359 | the search for three windows succeeds if and only if it is the bits of any three |
| ArmWindows.NeededExactly | externals/tcc/arm-gen.c:322-376 | as many instructions as rotated bytes make up the constant or its negation, four if three do not |
| ArmAddress.SplitAddress | externals/tcc/arm-gen.c:453-457 | base moved by the high part, then the low part, is base and offset |
| ArmAddress.RoundedAddress | externals/tcc/arm-gen.c:459-464 | base moved by the rounded-up part, then the excess with the opposite sign, is base and offset |
| ArmAddress.CalcAddr | externals/tcc/arm-gen.c:444-469 | the effective address is preserved on all paths and for every offset, the new offset fits the addressing mode exactly unless the old one is negative and aligned, only lr changes; when nothing is emitted, one instruction, or more, and when the sign turns, exactly |
| ArmAddress.RangeIs | externals/tcc/arm-gen.c:444-450 | which offsets fit the mode and which are left as they are, the comparison being signed |
| ArmAddress.AddressesAre | externals/tcc/arm-gen.c:444-469 | an address is the base plus or minus the offset |
| AsmOperands.ConstraintPriority | externals/tcc/arm-asm.c:2763-2796 | the greatest priority of the letters; refused exactly for an unknown letter |
| AsmOperands.FirstNamed | externals/tcc/tccasm.c:1189-1203 | the first operand with the name, or none |
| AsmOperands.Prepare | externals/tcc/arm-asm.c:2855-2888 | accepted exactly when every reference is to an earlier operand that nobody else refers to and every letter is known; references and their targets point at each other |
| AsmOperands.SortOperands | externals/tcc/arm-asm.c:2890-2903 | a permutation in ascending priority |
| AsmOperands.FindFree | externals/tcc/arm-asm.c:2958-2961 | the lowest register free in the given roles, if there is one |
| AsmOperands.TryLetter | externals/tcc/arm-asm.c:2952-3008 | a letter takes the operand exactly when it admits it, with the lowest free register |
| AsmOperands.Choose | externals/tcc/arm-asm.c:2938-3013 | reading the constraint character by character gives the choice by its first letter that takes the operand; an output with & or + takes its register for both roles |
| AsmOperands.ChosenUnlessRefused | externals/tcc/arm-asm.c:2938-3013 | there is no choice exactly when a modifier forbids the operand or no letter takes it |
| AsmOperands.Place | externals/tcc/arm-asm.c:2919-3018 | the outcome is the choice by the first letter that takes the operand, or failure if none does; the tied input gets its register |
| AsmOperands.Allocate | externals/tcc/arm-asm.c:2904-3019 | the outcome is that of allocating the operands one after the other; registers in use are exactly those reserved or claimed, and claims never overlap |
| AsmOperands.ComputeConstraints | externals/tcc/arm-asm.c:2838-3037 | succeeds exactly when every constraint is acceptable and the allocation in the order found has room; two operands share a register only if one is just read and the other just written, or by a tie; none has a clobbered register, sp or fp; a tied input has its operand's register unless that is tied itself |
| AsmOperands.Clobbered | externals/tcc/arm-asm.c:2943-2951 | after success an output in a register whose constraint leads with & or + shares it with no operand but its own tied input |
| AsmOperands.Different | externals/tcc/arm-asm.c:2904-3019 | two outputs in registers have different ones, and so have two inputs |
| AsmOperands.TiedAlone | externals/tcc/arm-asm.c:2919-2935 | an operand in a register with a tied input shares it with that input only |
| AsmOperands.AssignedSeparate | externals/tcc/arm-asm.c:2904-3019 | operands whose roles are disjoint are the ones that are just read and just written, by their constraints and places alone |
| AsmOperands.AfterModifiers | externals/tcc/arm-asm.c:2798-2811 | exactly the leading characters =, &, + and % are skipped; a digit or bracket behind them is a reference, and the letters allowed are those listed |
| AsmOperands.NumberReads | externals/tcc/tccasm.c:1171-1186 | a reference by number is read in base 10 |
| AsmOperands.BracketReads | externals/tcc/tccasm.c:1187-1203 | a reference by name ends at the first closing bracket |
| AsmOperands.PriorityReads | externals/tcc/arm-asm.c:2763-2796 | the priority of a string of letters is the greatest of theirs, each by its number |
| AsmOperands.FirstRegister | externals/tcc/arm-asm.c:2958-2961 | the first operand gets the lowest of r0 to r8 that is not clobbered |
| AsmOperands.ModifiersBefore | externals/tcc/arm-asm.c:2798-2811 | where the letters start every modifier has been seen |
| AsmOperands.AllocatedAssigned | externals/tcc/arm-asm.c:2904-3019 | the allocation invariant gives what a caller can rely on |
| AsmOperands.ChainOfReferences | externals/tcc/arm-asm.c:2869-2880 | a tie to a tied operand is accepted |
| AsmOperands.ChainAllocated | externals/tcc/arm-asm.c:2921-2923 | with any register free, a chain of two ties is allocated: the first two operands share a register and the third has none |
| Leb128.EncodeDecodes | tools/wasm_prefix_syms.py:61-82 | a written number is read back, whatever follows it |
| Leb128.ReadUleb | tools/wasm_prefix_syms.py:61-70 | value and next offset, or an index error exactly when the bytes end inside the number |
| Leb128.WriteUleb | tools/wasm_prefix_syms.py:73-82 | the shortest encoding |
| WasmFormat.UlebDigits | tools/wasm_prefix_syms.py:61-70 | a number ends with its first byte below 128, and its bytes are its digits to the base 128, the lowest first |
| WasmFormat.EncodeShortest | tools/wasm_prefix_syms.py:73-82 | no number is written with a leading zero group |
| WasmSymbols.ReadBack | tools/wasm_prefix_syms.py:122-175 | a well-formed symbol is read back from its bytes |
| WasmSymbols.ReadWell | tools/wasm_prefix_syms.py:122-175 | what is read is well formed and is exactly the bytes at the front |
| WasmSymbols.ReadTableBack | tools/wasm_prefix_syms.py:112-177 | a written table is read back |
| WasmFormat.WellIsShape | tools/wasm_prefix_syms.py:122-175 | for every kind and flags value, which symbols have an index, a name and which tail: 0x10 undefined, 0x40 an explicit name, 3 in the two lowest bits common |
| WasmRename.ReadLinkingBack | tools/wasm_prefix_syms.py:180-215 | a written linking payload is read back |
| WasmRename.LocateReplaced | tools/wasm_prefix_syms.py:85-109 | after the payload has been replaced the section is found in the same place with the new payload |
| WasmRename.RenameReadsBack | tools/wasm_prefix_syms.py:230-252 | the new file is well formed, its linking section is the renamed one and all bytes outside it are unchanged |
| WasmFormat.RenamedSymbols | tools/wasm_prefix_syms.py:195-209 | as many symbols in the same order, the same but for the names; a name has the prefix before it if and only if it exists and the flags are below 0x10 modulo 0x20; other subsections unchanged |
| WasmFormat.RenamedExactly | tools/wasm_prefix_syms.py:188-218 | a file is renamed if and only if it has such a symbol |
| WasmFormat.ExampleRenamed | tools/wasm_prefix_syms.py:14-30 | one object file with symbols of every shape, byte by byte: its symbols, and the renamed file |
| WasmRename.RenameComposes | tools/wasm_prefix_syms.py:180-252 | renaming with p and then q is renaming once with q followed by p, byte for byte |
| WasmTool.FindLinking | tools/wasm_prefix_syms.py:85-109 | finds the linking section of a well-formed file, and nothing without the magic |
| WasmTool.SkipTail | tools/wasm_prefix_syms.py:148-155 | the length of what follows a data symbol's name |
| WasmTool.ParseOne | tools/wasm_prefix_syms.py:122-173 | succeeds exactly when there is a symbol that ends inside the table, and records its bytes and where its name is |
| WasmTool.ParseSymbols | tools/wasm_prefix_syms.py:112-177 | succeeds exactly when the bytes are one symbol table, and records its symbols |
| WasmTool.RebuildTable | tools/wasm_prefix_syms.py:192-204 | the new table is the renamed table |
| WasmTool.RebuildLinking | tools/wasm_prefix_syms.py:180-215 | fails exactly when nothing is renamed; otherwise the bytes of the renamed payload |
| WasmTool.RenameObject | tools/wasm_prefix_syms.py:228-256 | for every well-formed file the result is the renamed file |
| Relay.CleanCloseDelivered | tools/tcp_relay.py:64-100 | a socket closed without an error on its pair has seen both directions, and both EOFs, delivered |
| Relay.InOrder | tools/tcp_relay.py:81-100 | the bytes sent are a prefix of the bytes read across, and a FIN comes after all of them |
| Relay.NothingAfterFin | tools/tcp_relay.py:64-78 | no byte is ever sent after the FIN |
| Relay.PairChange | tools/tcp_relay.py:25-38 | what happens on one pair keeps the invariant of all pairs |
| Relay.SendStep | tools/tcp_relay.py:86-98 | sending any part of a buffer keeps the bytes in order |
| Relay.ReceiveStep | tools/tcp_relay.py:139-163 | what is read goes behind what waits on the partner |
| Relay.LostStep | tools/tcp_relay.py:150-153 | bytes read for a partner that is gone belong to a failed pair |
| Relay.FinStep | tools/tcp_relay.py:64-78 | forwarding the EOF behind a drained buffer keeps the invariant |
| Relay.StalledAfterEof | tools/tcp_relay.py:154-161 | only a socket that has itself read EOF is stalled |
| Relay.Relay.ClosePair | tools/tcp_relay.py:41-53 | the lookup under the `Peer` object misses, so only the given socket goes and the partner stays |
| Relay.Relay.ForwardEof | tools/tcp_relay.py:64-78 | shuts down exactly a drained socket whose partner read EOF, once; closes it if the partner has had its FIN too |
| Relay.Relay.SendAll | tools/tcp_relay.py:86-98 | sends exactly what the answers take and stops as they say |
| Relay.Relay.Flush | tools/tcp_relay.py:81-100 | what is left waits for writability, a failed send closes, a drained buffer lets the EOF through; nothing else changes |
| Relay.Relay.Accept | tools/tcp_relay.py:103-124 | a new pair with the upstream connecting, or a failed one |
| Relay.Relay.Connected | tools/tcp_relay.py:127-136 | a refused connect closes; otherwise what was buffered before is sent now |
| Relay.Relay.RelayRead | tools/tcp_relay.py:139-163 | every answer of recv: nothing, failure, bytes or EOF for the partner, or for a partner that is gone; after an EOF the socket is stalled if and only if bytes wait on it; all other sockets are spared |
| Relay.Relay.Ready | tools/tcp_relay.py:174-190 | for every event: a writable socket is flushed as far as the answers take its buffer, with what becomes of the buffer, the write interest and a due EOF; what is read reaches the partner's buffer or the network; the buffer gets shorter if the first answer takes anything; a connect verdict opens or closes; every other socket is spared, every invariant kept, and the history only grows |
| Relay.Relay.ReadyOpen | tools/tcp_relay.py:187-190 | the same for a connected socket: first the flush, then the read if the socket is still there |
| Relay.TakenIs | tools/tcp_relay.py:86-98 | of a buffer as much is sent as the answers up to the first that takes nothing add up to; it is lost if and only if that answer is a failure or zero and bytes are left |
| Relay.SomethingTaken | tools/tcp_relay.py:86-98 | something is sent of a nonempty buffer if and only if the first answer takes something |
| Relay.FlushedIs | tools/tcp_relay.py:81-100 | what the state after a flush means for the socket: the bytes sent, what is left, the write interest, and the EOF behind a drained buffer |
| Fuzz.GenExpr | tools/rsx_fuzz.py:77-101 | for any random choices the expression has byte literals, existing parameters and calls to earlier functions only |
| Fuzz.GenCond | tools/rsx_fuzz.py:104-107 | so has the condition |
| Fuzz.Predict | tools/rsx_fuzz.py:169-197 | evaluation ends and every value is below 256 |
| Fuzz.PredictCall | tools/rsx_fuzz.py:160-166 | so is the value of every function |
| Fuzz.PredictedAtoms | tools/rsx_fuzz.py:169-174 | literals and parameters |
| Fuzz.PredictedArithmetic | tools/rsx_fuzz.py:169-182 | sums and products modulo 256; a difference below zero gains 256 |
| Fuzz.PredictedBranch | tools/rsx_fuzz.py:186-197 | the branch taken, for each of the six comparisons |
| FuzzRust.ReadBack | tools/rsx_fuzz.py:110-127 | the printed text of every body, read with Rust's precedences, is the expression it was printed from |
| FuzzRust.MaskedArithmetic | tools/rsx_fuzz.py:175-182 | arithmetic modulo 2^32 masked with 255 is arithmetic modulo 256 |
| FuzzRust.WordArithmetic | tools/rsx_fuzz.py:110-127 | the wrapping arithmetic of the printed text on words below 2^32 |
| FuzzRust.WordComparison | tools/rsx_fuzz.py:110-127 | its six comparisons |
| FuzzRust.CallAgrees | tools/rsx_fuzz.py:160-197 | for byte arguments the program and the evaluator agree on every function |
| FuzzRust.TextMeansPrediction | tools/rsx_fuzz.py:130-157 | so does the text of every valid program |
| FuzzRust.GenProgram | tools/rsx_fuzz.py:130-157 | for any random choices, the text is readable and running it gives the expected table |
| FwFormat.PutDigits | port/lib.c:724-730 | the digits of the value, backwards, in at most 22 characters |
| FwFormat.Backwards | port/lib.c:724-740 | with the sign last; the buffer of 68 characters suffices |
| FwFormat.FmtU64 | port/lib.c:716-764 | the padded number goes to the buffer as far as it fits; its full length is returned |
| FwFormat.ScanSpec | port/lib.c:789-823 | flags, width and length modifier of a conversion |
| FwFormat.PutString | port/lib.c:873-896 | a string in its field |
| FwFormat.PutArg | port/lib.c:824-910 | the text of one conversion |
| FwFormat.FwVsnprintf | port/lib.c:767-941 | the first size-1 characters of one text that does not depend on size, and a NUL; returns the length of that text and writes nothing at or beyond size |
| FwFormat.NumberText | port/lib.c:824-862 | base and letters by conversion, sign by value and flags, and the field: the text at its place, the padding around it |
| FwFormat.StringText | port/lib.c:863-896 | the text of %c and %s in its field, (null) for a null pointer |
| FwFormat.NoLeadingZero | port/lib.c:724-730 | no number but zero starts with the digit zero |
| FwFormat.DigitChars | port/lib.c:724-730 | letters are of the case asked for |
| FwFormat.RenderedNumbers | port/lib.c:847-907 | the texts of %x, %X, %o and %p |
| FwFormat.RenderedFields | port/lib.c:789-845 | the texts of %d, %04d, %-4d and %4lld of -7 |
| FwFormat.RenderedLiterals | port/lib.c:911-930 | the texts of %%, of an unknown conversion and of a percent sign at the end |
| FwFormat.FieldFilled | port/lib.c:873-896 | a character or string is padded to its field if and only if `-` is absent or there is nothing to pad |
| FwFormat.UnfilledField | port/lib.c:878-886 | `%-5s` of two characters gives two, `%5s` five |
| FwFormat.UnsignedSign | port/lib.c:846-862 | an unsigned number is printed with a sign if and only if a sign flag is given, and differs from the plain text unless the space falls on padding |
| FwFormat.SignedUnsigned | port/lib.c:858-859 | `%+u` and `% u` of 7 print a sign |
| Strtol.Strtol | port/lib.c:249-302 | value and end as defined by Read, which `ReadExactly` states for every string and base |
| Strtol.ReadExactly | port/lib.c:249-302 | for every split of a string into white space, sign, prefix, digits and rest, and every base: the value of the digits in the base found, reduced to 64 bits, and the end behind the digits |
| Strtol.EverySplits | port/lib.c:249-302 | every string has such a split for every base |
| Strtol.ReadRefused | port/lib.c:253-258 | a base other than 0 and 2 to 36 reads nothing |
| Strtol.DigitPlaces | port/lib.c:280-292 | which characters are digits, and their values |
| Strtol.PointerReadsBack | port/lib.c:262-277 | what %p prints is read back with base 0 and with base 16 |
| Strtol.DecimalReadsBack | port/lib.c:266-274 | a plain decimal number is read back with base 0, as in src/pymergetic/metal/inspect/__impl__.c |
| Strtol.ZerosAreOctal | port/lib.c:270-271 | digits behind zeros are octal for base 0 |
| Strtol.PositiveValue | port/lib.c:727-730 | printed digits have the value they were printed from |
| Strtol.ScanDigits | port/lib.c:280-297 | scanning takes exactly the digits as long as the value fits a long |
| Strtol.ReadsBack | port/lib.c:716-764 | reading the printed number gives back its value and stops behind its last digit, if and only if no zeros were put before a sign |
| UpySlots.NapsDouble | modmetal.c:199-202 | the back-off is always 1000 times a power of two up to 64 |
| UpySlots.NapSequence | modmetal.c:199-202 | the back-offs are 1, 2, 4, 8, 16, 32 and 64 ms, and 64 ms from then on |
| UpySlots.OccupiedIsLive | modmetal.c:213-262 | every occupied slot has exactly one live task, unless it was lost by a task that could not park |
| UpySlots.RegisterOwned | modmetal.c:250-257 | a task registered in a free slot owns it alone |
| UpySlots.FinishOwned | modmetal.c:184-208 | a task that ends gives its slot back |
| UpySlots.LoseOwned | src/pymergetic/metal/coop/__impl__.c:1262-1270 | a task that cannot park leaves its slot occupied |
| UpySlots.AllLost | modmetal.c:228-238 | after eight failed parks no generator can be registered |
| UpySlots.Runtime.Register | modmetal.c:213-262 | takes the first free slot below the limit; each failure, exactly when, and with nothing changed |
| UpySlots.Runtime.Park | src/pymergetic/metal/coop/__impl__.c:1262-1284 | the task waits, or dies with its slot occupied |
| UpySlots.Runtime.StepBegin | modmetal.c:158-181 | the generator entered is the one registered; the branches for a bad or empty slot cannot be reached |
| UpySlots.Runtime.StepEnd | modmetal.c:182-211 | what a yield, an end and an exception make of task, slot and back-off |

## Left out

- Parsing of assembler text, the value stack, symbols, relocation records and growth of sections: code is a sequence of words with a cursor, registers and offsets are inputs, and the address of a symbol is in its register when `AddAddend` starts.
- `nocode_wanted`: emission is never suppressed.
- The PE and Mach-O variants, TLS, bounds checking, variable-length arrays, floating-point code, division and comparisons.
- `arm64_spoff`, the 32-bit ASR immediate and MUL of `arm64-asm.c`, and the BLX and Thumb relocations.
- The hard-float branch of `assign_regs` in `arm-gen.c`.
- LoadStore.EmitAccess: a caller that has no immediate form must not use x30 as its base, as the callers in the source do not; alignment checks and faults are not modelled.
- SymbolAccess.AddAddend: the doubleword below the stack pointer may be overwritten.
- ConstOperand.Opic: target and operand are registers below 30, as the register allocator returns them.
- A64 and Arm32 decode only the instruction forms that the modelled code emits; in Arm32 flags, carry and the program counter as an operand are not modelled.
- Aapcs64.PcsAux: which struct is a homogeneous aggregate is an input; types have the sizes and alignments that the front end produces.
- Prologue64.Prolog: the register offsets kept for `va_list` are not modelled.
- Jumps64.Code.Append: a list is not appended to itself; that would make it a cycle.
- Jumps32.Code.Jump: outside the 24-bit field but inside the accepted range the branch does not point to the list, and nothing is promised about the lists from then on.
- Jumps32.Code.Append: the same outside the field.
- Jumps32.Code.Resolve: the same for a list with a branch that does not arrive.
- ArmAddress.CalcAddr: the offset and alignment pairs are those of the callers.
- AsmOperands.Prepare: operands that are register variables are not modelled.
- AsmOperands.TryLetter: neither is an operand that has a register before its constraint is read.
- AsmOperands.Place: the same.
- AsmOperands.Allocate: the same.
- AsmOperands.ComputeConstraints: the same; a memory operand's address register counts as read only, as the source treats it.
- The operand allocation of `arm64-asm.c`: the same loops, sort and tie rules as in `arm-asm.c`, with other letters, a second register class and other memory operands.
- WasmTool.FindLinking: for a file whose sections overrun it, only that nothing is found without the magic is stated; reading and writing files is left out.
- Relay.Relay.Ready: timing, the listening socket and the clean-up when the process ends are left out; a socket that has read EOF is assumed never to yield data again.
- FuzzRust.ReadBack: the text is a sequence of tokens, so lexing and white space are left out, as are the attribute and signature lines of each function; the random source is an arbitrary choice at each call.
- The harness of the fuzzer that runs compilers and compares outputs.
- FwFormat.FwVsnprintf: width and total length do not overflow an int, and the arguments are those the format asks for.
- Strtol.Strtol: a string that ends in a NUL and has none inside; the end pointer is always asked for.
- The rest of `port/lib.c` (console, files, floating point, sorting, memory) and of `modmetal.c` (prompt, fetching, drivers, start-up).
- UpySlots.Runtime.StepBegin: the generator is an oracle that yields, ends or raises, and each task is stepped by one thread at a time.
