# ByteShatter: a verified model of its translator, cache and loader

ByteShatter runs x86-64 programs on AArch64 by recompiling them as they are reached. This project models
its core in Dafny and proves what the recompiled code, the translation cache and the start-up code do.

- **Translator.** The emitted 32-bit words are built field by field as the encoder builds them, decoded again
  (Arm Architecture Reference Manual, section C6.2) and executed on a small AArch64 state. `Bits`, `Memory`,
  `Arm64`, `Emitter`, `Words` and `Steps` are the machine; `X86` and `StatusFlags` are the guest's view of it,
  everything but the scratch registers X12 and X13. `Immediates`, `PushPop`, `Leftovers`, `Operands`, `Addressing`,
  `Displacements`, `Arithmetic`, `Moves`, `LoadAddress`, `Conditions` and `CallTree` say what the words mean;
  `CompileContext` (in `Context.dfy`), `Decoder` and `Encoder` are the routines that fetch and emit, proved to append
  exactly those words.
  `Semantics` holds them against the Intel manual instruction by instruction, and `PlainWords` keeps them apart from
  unresolved jumps.
- **Cache and lazy linking.** `CacheIndex` is the sorted block array with its shared offset table, `Points` what later
  searches find in it, `PatchSlots` the slots of unresolved jumps, `Linker` the host code with its BRK words,
  `Compilation` the compile loop over all of them, and `Runs` what whole compilations achieve.
  `TranslationCache` (in `Anchor.dfy`), `Recompiler` and `Patcher` are the same on arrays and counters, as the code
  has them.
- **Start-up.** `Relr` relocates, `GuestStack` lays out the first stack, `ContextPool` shares compiling contexts
  between threads, with every compare-exchange a step of its own.

Registers, addresses and words are integers with their wrap-around written out; `|` is bitwise OR on naturals.
A ghost log of (guest address, host index) pairs is what the packed tables are held against, and a ghost
record of resolved sites says what each patched branch was meant for.

## What the proofs found

The code does not meet its purpose on all inputs. Each case is proved, mostly as an exact condition.

- Fused PUSH and POP pairs are right exactly when they are *admissible* (`PushPop.FusionExact`): POP r; POP r gives
  an LDP that is not defined, PUSH RSP second pushes the wrong value, and two scratch operands share one register.
- The encoder's memory of the last PUSH or POP outlives its three words. PUSH RBP erases an open push before it
  (`Leftovers.PushFrameExact`), and a further PUSH then takes back the frame word and two words of whatever stood
  before (`Leftovers.PushFrameThenPush`). POP RBP between two pops, as in a common epilogue, is lost, and so is any
  instruction of one or two words that does not clear the memory (`Leftovers.FrameWordIsLost`,
  `Leftovers.WordsAreLost`); a SETcc there is lost harmlessly only in the cases of `Leftovers.SetBetweenExact`. After
  three words, as an 8-bit comparison may have, the pair comes out as three operations (`Leftovers.ThreeForTwo`).
- POP RSP leaves RSP eight above the popped word, which is right only if that is the word
  (`Leftovers.PopRspExact`).
- `emit_add_signed` and `emit_sub_signed` are right exactly for |imm| < 4096, so an operand [r + d] is formed right
  exactly for |d| < 4096 (`Displacements.DisplacementExact`); from 64 to 128 KiB the word is a call
  (`Displacements.FarIsCall`). The RIP-relative panic test allows page deltas up to 2^32, but ADRP reaches only
  [-2^20, 2^20) (`Addressing.RipRelativeExact`).
- R12 as an index is dropped, RSP as the base of an index reads as zero, and the absolute SIB form is taken as
  RIP-relative (`Addressing.RightFormExact`).
- RSP is host register 31, which is no data register. As a source of ADD, SUB or CMOVcc, in CMP and in MOV [m], RSP it
  reads as zero; as the target of ADD or SUB with a register or memory source, of a load, a constant, CMOVcc or SETcc it
  keeps what it has (`Arithmetic.RegisterArithExact`, `Arithmetic.UpdateMeans`, `Arithmetic.LoadArithMeans`,
  `Moves.MovStores`, `Moves.MovLoads`, `Moves.MovConstantExact`, `Conditions.CmovMeans`,
  `Conditions.CmpMeans`). 64-bit ADD and SUB of a constant to RSP are right.
- LEA into RSP with an index or off the instruction pointer, and LEA with an index into its own base, go wrong unless
  the registers happen to fit (`LoadAddress.LeaRightExact`). LEA r32 is formed in 64 bits: where LEA r64 is right it is
  right exactly for addresses below 2^32 (`LoadAddress.NarrowExact`, `LoadAddress.LeaBelowZero`).
- ADD/SUB r32, constant is carried out in 64 bits (`Arithmetic.RegisterArithExact`); MOV r32, negative constant
  sign-extends to 64 bits (`Moves.MovConstantExact`).
- ADD and SUB of a constant leave the flags as they were, and after ADD the carry is not inverted as it is after SUB and
  CMP, so JAE is taken exactly when it should not be (`Arithmetic.RegisterArithExact`, `Conditions.JumpAfterAdd`).
- SETcc writes a whole register. Without REX, numbers 4 to 7 mean AH, CH, DH and BH, but the code writes RSI, RDI
  or RBP, or nothing for AH. REX.B only counts if the buffer's field `reverse` happens to be set, because `decode_0F`
  does not initialise it for SETcc (`Conditions.SetccExact`).
- A function that makes a call without saving X30 does not return: its RET goes to the word after its last BL, again and
  again (`CallTree.FramelessCallerSpins`). A call tree returns exactly when no function in it does that, or X30 was at
  that word already (`CallTree.ReturnExact`), as in the inner turns of a recursion through one call site
  (`CallTree.OneCallExact`).
- The peephole rewinds across block splits and direct branches. Code and index stay right exactly as long as the words
  taken back are plain and the block does not end before its start (`Linker.UnemitExact`, `Compilation.MoveExact`);
  PUSH RBP just after a split (`Compilation.FrameAfterSplit`) and a pair around the end of a block
  (`Linker.DirectIsLost`) break them.
- The first offset table starts at index 0, which the search takes for "no table": the points of that one block are
  never found, nor is a point at host index 0 (`CacheIndex.FirstPointsAreLost`, `CacheIndex.PointFoundExact`); of the
  points whose own block a search ends in no other is missed (`Compilation.LostInOneBlock`).
- Where instruction streams overlap, a block that starts inside another one's guest range hides the points behind its
  start (`Points.RecordedFound`, `Points.OverlapHides`).
- A block of 256 words or more is found by its host address only in its first (length modulo 256) words
  (`CacheIndex.SearchBlockExact`).
- Slot ids must stay below 65536: the handler reads them modulo 2^16 (`Linker.HandlerReads`). The offset and
  block tables keep them far below (`Compilation.Building`).
- The auxiliary vector is pushed before the arguments, so it follows the argument pointers where the System V ABI
  (section 3.4.1) puts the environment, and the environment is in reverse order. The two layouts coincide only in the
  degenerate cases of `GuestStack.BuildAbiExact`.
- Although a context can be freed and taken while a scan passes it, a scan cannot fail as long as there are no more
  threads than contexts, and can otherwise (`ContextPool.FailureExact`).

## Model

| member | source | states |
|---|---|---|
| Emitter.GuestRegistersApart | src/arm64emitter.h:6-13 | the sixteen guest registers sit in sixteen different host registers, none of them the scratch registers X12, X13 or the link register X30, and only RSP is number 31 |
| Emitter.RdRnImmSum | src/arm64emitter.h:92-93 | OR-ing the fields of an immediate form into an opcode gives the word with exactly those fields, for every immediate of 12 bits |
| Emitter.RdRnRmSum | src/arm64emitter.h:94-95 | the same for the three-register form |
| Words.AddSubImmDecodes | src/encoder.c:17-26 | the packed ADD/SUB immediate word decodes to that instruction on those registers |
| Words.AddSubRegDecodes | src/encoder.c:237-256 | the packed register ADD/SUB word decodes to that instruction, in both widths, with or without flags |
| Words.AdrpDecodes | src/encoder.c:40 | the immlo/immhi split of a page delta, negative ones included, decodes to the low 21 bits of the delta, sign-extended |
| Words.ShiftLeftDecodes | src/encoder.c:44-45 | the UBFM word for an index scale decodes to a left shift by exactly that scale |
| Words.MovKDecodes | src/encoder.c:84-87 | the MOVK words decode to the insertion of that halfword at that position |
| Words.UnscaledDecodes | src/encoder.c:109-113 | LDUR/STUR words carry every displacement in [-256, 256) with its sign |
| Words.PairDecodes | src/encoder.c:424-455 | STP/LDP words name the two data registers and the base |
| Words.FrameDecodes | src/encoder.c:414-446 | the fixed PUSH RBP / POP RBP words are STP/LDP of X30 and X29 with write-back by 16 |
| Words.CselDecodes | src/encoder.c:522-531 | the CMOV words decode to CSEL with the conditions HI and MI |
| Words.CsetDecodes | src/arm64emitter.h:58-61 | the four SETcc words decode to CSINC of the zero register under the inverse condition |
| Words.JumpDecodes | src/patcher.c:132-139 | B and BL words decode to the sign-extended low 26 bits of the offset, times four |
| Words.BCondDecodes | src/patcher.c:100-131 | B.cond words decode to their condition and the sign-extended low 19 bits of the offset, times four |
| Memory.LoadStored | src/encoder.c:107-138 | a 64-bit word stored little-endian is loaded back |
| Memory.LoadElsewhere | src/encoder.c:107-138 | a store leaves every word that it does not overlap |
| Arm64.AddSubResult | src/encoder.c:17-26 | the add-with-carry of the architecture computes the sum or difference modulo the width |
| Immediates.ImmWordsLoad | src/encoder.c:72-89 | for every 64-bit constant and every register below 31, the words of all four branches, run in order, leave exactly that constant in the register and change nothing else |
| Immediates.AddSignedExact | src/encoder.c:17-21 | the one emitted word adds the immediate to the register exactly when it lies within 4095 of zero; otherwise it is some other instruction |
| Immediates.SubSignedExact | src/encoder.c:22-26 | the same for subtraction, in both directions |
| Displacements.AddSignedStepExact | src/encoder.c:17-21 | for every 64-bit constant the word, executed, adds it to a register, X30 apart, from every state exactly when it lies within 4095 of zero |
| Displacements.FarIsCall | src/encoder.c:17-21 | for a constant from 2^16 up to 2^17 the word is a branch with link |
| PushPop.TranslationTracks | src/encoder.c:411-464 | after every admissible run of PUSH and POP the emitted words agree with the instructions, and while an operation is open to fusion the last three words are exactly that operation alone |
| PushPop.FusionExact | src/encoder.c:411-464 | for every sequence of PUSH and POP in the domain, the words emitted up to every point of the sequence, after all rewinds and STP/LDP fusions, agree with the instructions up to there from every state, registers, memory and RSP, if and only if no fused pair pops one register twice, pushes RSP second, or needs two different values in the one scratch register |
| PushPop.TwinPopsFail | src/encoder.c:420-425 | a fused POP r; POP r never runs: its LDP names one register twice |
| PushPop.PushRspSecondFails | src/encoder.c:448-456 | a fused pair with PUSH RSP second pushes the wrong value from every state |
| PushPop.ScratchClashFails | src/encoder.c:439-456 | a constant pushed second overwrites a different first operand waiting in the scratch register |
| PushPop.PushPairAgrees | src/encoder.c:452-456 | STP of the two operands, then SP, does to the guest what the two pushes do one after the other |
| PushPop.PopPairAgrees | src/encoder.c:420-425 | LDP and the SP update do what two pops of different registers do one after the other |
| PushPop.TranslateKeepsPrefix | src/encoder.c:421-437 | the rewinds stay inside the window: whatever stood in the buffer before it stays in front of the same translation |
| PushPop.StackPointerAfter | src/encoder.c:411-464 | after any run of stack operations RSP has moved by 8 times the net number of pushes, modulo 2^64 |
| Leftovers.PushFrameExact | src/encoder.c:436-447 | after every admissible sequence, the code in front of the frame word of PUSH RBP agrees with the sequence exactly when its last operation is not an unfused push; if it is, the code agrees with the sequence without that push, from every state |
| Leftovers.PushFrameThenPush | src/encoder.c:436-457 | a PUSH after that takes back the frame word and two words from in front of the erased push, whatever they are, and completes a pair with the erased push's register |
| Leftovers.OnlyFrameShrinks | src/encoder.c:411-464 | PUSH RBP behind an open push is the one stack operation that leaves less code than there was, by two words |
| Leftovers.WordsAreTakenBack | src/encoder.c:421-456 | when words stand between the halves of a pair, the second half takes back the last three words: up to three of those in between, and as many words of the first half as are missing to three |
| Leftovers.WordsAreLost | src/encoder.c:411-464 | one or two words in between are lost: the code agrees, from every state, with the two halves alone |
| Leftovers.FirstHalfTwice | src/encoder.c:421-456 | of three or more words the last three are lost and the first half, already done, is done once more before the second |
| Leftovers.ThreeForTwo | src/encoder.c:421-456 | with exactly three words a pair comes out as three operations, from every state, unless the first is PUSH RSP |
| Leftovers.FrameWordIsLost | src/encoder.c:413-447 | a POP RBP between two pushes or two pops, or a PUSH RBP between two pops, is lost in this way |
| Leftovers.SetBetweenExact | src/encoder.c:214-217 | a SETcc between the halves, of one or two words and into any register number, is lost in this way: the result is right exactly when its register held the value already or the second half pops it |
| Leftovers.PopRspExact | src/encoder.c:416-432 | after every admissible sequence, POP RSP, alone or as second of a pair, leaves RSP eight above the popped word: right exactly when that address is the popped word |
| Operands.DecodeRmMeans | src/decoder.c:10-72 | for every ModR/M, SIB and displacement, the decoded operand with its REX extension is the encoded one, except that an index of 100b is dropped even under REX.X, and the position advances by exactly the encoded length |
| Operands.DisplacementBytes | src/decoder.c:16-41 | the displacement is the signed number of its last byte, or of its last four bytes in little-endian order |
| Addressing.RipRelativeExact | src/encoder.c:32-41 | ADRP and ADD reach guest + gp + imm exactly when the page delta lies in [-2^20, 2^20) |
| Addressing.AddressMeans | src/encoder.c:27-60 | for every encoding whose displacement fits (Displacements.DisplacementExact, Addressing.RipRelativeExact), decoding it and emitting its address computes the effective address of the architecture plus a stated error, modulo 2^64 |
| Displacements.DisplacementExact | src/encoder.c:27-60 | with a base or index, into any target but X30, the words form the operand's address from every state exactly when the displacement fits twelve bits and sign |
| Addressing.RightFormExact | src/encoder.c:27-60 | the error vanishes for all register values exactly for the encodings without an index dropped under REX.X, without the absolute SIB form, and without RSP as base of an index |
| Addressing.AddressOfOperand | src/encoder.c:27-60 | the emitted words leave the operand's address in the target register and change no other guest register, memory or flag |
| Arithmetic.LoadMeans | src/encoder.c:107-122 | emit_load puts the word at the operand's address into the register, in both widths and for all shapes, and says what is left in the scratch register |
| Arithmetic.StoreMeans | src/encoder.c:123-138 | emit_store writes the register's word at the operand's address, whether it forms the address again or relies on the scratch register |
| Arithmetic.UpdateStores | src/encoder.c:227-263 | ADD/SUB with a memory destination stores the 32- or 64-bit sum or difference at the address the load read, which is the operand's address, and changes nothing else the guest can see; a source of RSP counts as zero; the flags are those of the register form, or unchanged for a constant |
| Arithmetic.UpdateMeans | src/encoder.c:227-263 | that is the right memory exactly when the source is not RSP, or RSP is zero in the operand's width; with a register source the flags stand for the x86 ones exactly when reading RSP as zero makes no difference (all but the carry after ADD), with a constant they stay |
| Arithmetic.LoadArithMeans | src/encoder.c:228-256 | ADD/SUB with a memory source combines the register with the loaded word in the operand's width; this is right exactly for every register but RSP, and for RSP when nothing was to change; the flags stand for the x86 ones exactly in the stated cases |
| Arithmetic.RegisterArithExact | src/encoder.c:236-258 | ADD/SUB into a register, RSP included: a constant is right always in 64 bits and in 32 bits exactly when the 64-bit result fits; a register source is right exactly when it is not RSP or RSP is zero in the width; a register form into RSP is right exactly when nothing was to change; the register form sets the flags, right exactly in the stated cases, and the constant form keeps them |
| Moves.MovRegisters | src/encoder.c:329-330 | MOV between registers, with the zero-extension of 32 bits, keeps the flags |
| Moves.MovConstantExact | src/encoder.c:331-336 | MOV r, constant is right exactly in 64 bits or for a constant that is not negative; into RSP nothing is written; the flags stay |
| Moves.MovLoads | src/encoder.c:337-338 | MOV r, [m] loads the word at the operand's address: right exactly for every register but RSP, or when RSP holds that word; the flags stay |
| Moves.MovStores | src/encoder.c:339-348 | MOV [m], register or constant changes only the word at the operand's address, even when the constant's words move the host position before a RIP-relative address is formed; what it stores is right exactly when the source is not RSP, or RSP is zero in the operand's width; the flags stay |
| LoadAddress.LeaMeans | src/encoder.c:351-355 | what LEA leaves in every target, RSP and the operand's own base included, and exactly when that is the effective address in the operand's width, 32 or 64 bits; the flags stay |
| LoadAddress.LeaRightExact | src/encoder.c:32-59 | the result equals the address in the operand's width exactly when it is congruent to it, that is when the target is neither RSP nor the base of an index and the base is not RSP, or the registers make up for it modulo the width in the way stated for each case, and for 32 bits when the 64-bit result also lies below 2^32 |
| LoadAddress.NarrowExact | src/encoder.c:351-355 | where LEA r64 is right, LEA r32 is right exactly for addresses below 2^32 |
| LoadAddress.LeaBelowZero | src/decoder.c:204-207 | LEA EAX, [RAX - 1] with RAX = 0 is right in 64 bits and wrong in 32 |
| Moves.RunFalls | src/memory.h:27-29 | words that do not branch advance the host PC by four bytes each |
| StatusFlags.SubtractionFlags | src/encoder.c:361-376 | SUBS, by adding the complement, sets N, Z, V as CMP sets SF, ZF, OF, and C to the inverse of CF |
| StatusFlags.AdditionFlags | src/encoder.c:256 | ADDS sets N, Z, V as ADD sets SF, ZF, OF, and C to CF itself |
| StatusFlags.SubReadsExact | src/encoder.c:237 | subtracting with an operand read as zero sets the same flags exactly when that operand is zero, or the values lie on the stated sides of half the width, or both operands are the one register |
| StatusFlags.AddReadsExact | src/encoder.c:256 | adding with an operand read as zero sets the same SF, ZF and OF exactly when it is zero, or the sum is not zero, does not overflow and keeps the sign |
| StatusFlags.ConditionMeaning | src/encoder.c:494-503 | the x86 conditions after CMP are the signed and unsigned comparisons of the compared numbers |
| Conditions.CmpMeans | src/encoder.c:361-376 | CMP of registers, constants and memory operands leaves the guest unchanged and sets flags standing for the x86 ones of the compared values; with RSP as an operand exactly when reading it as zero sets the same flags |
| Conditions.CmpRightExact | src/encoder.c:361-376 | comparing with RSP read as zero sets the same flags exactly when RSP is zero in the width, or the values lie on the stated sides of half the width, or both operands are RSP |
| Conditions.ConditionCarries | src/patcher.c:99-131 | the Arm condition patched in for each jump type holds exactly when the x86 condition does |
| Conditions.PatchedJumpDecodes | src/patcher.c:99-131 | the word patched in for each conditional type decodes to B.cond with that condition and offset |
| Conditions.BranchReach | src/patcher.c:100-131 | a 19-bit field reaches its target exactly when the offset lies in [-2^18, 2^18) |
| Conditions.CompareAndJump | src/encoder.c:361-503 | CMP then a conditional jump, from opcode through type, BRK and patch, branches exactly when the x86 condition holds of the compared values, wherever CMP reads its operands right |
| Conditions.JumpTaken | src/patcher.c:99-131 | on flags that stand for the x86 ones every patched conditional jump, of either encoding, is taken exactly when its condition holds |
| Conditions.JumpAfterAdd | src/patcher.c:99-131 | after ADD the jumps that do not look at the carry are right; AE is taken exactly when it should not be, and BE exactly when the sum is zero or there was no carry |
| Conditions.CmovMeans | src/decoder_0F.c:54-57 | CMOVA and CMOVS after CMP move, or keep, the operand's width and zero-extend it; right exactly unless a moved RSP is not zero in the width, or RSP is the target and was to change |
| Conditions.SetccExact | src/encoder.c:182-201 | what SETcc leaves for every register number, with or without REX, and exactly when that is the architecture's write of one byte, AH to BH included: the register is the byte's own and the rest of it is zero, or nothing was to change |
| CallTree.ReturnExact | src/encoder.c:445-510 | over all call trees of functions that open with PUSH RBP; MOV RBP, RSP and close with LEAVE; RET, that open with PUSH RBP and close with POP RBP; RET, or that have no frame: a function's RET comes back to the word after its BL exactly when every function below that makes a call saves X30, or was entered with X30 already at the word after its last BL; then SP, X29, X30 and the stack above are restored |
| CallTree.OneCallExact | src/encoder.c:504-510 | a function without a frame that makes one call and returns comes back exactly when it was itself called from that very site |
| CallTree.BodyExact | src/encoder.c:465-510 | the same from any point inside a function that saves X30 |
| CallTree.BareExact | src/encoder.c:504-510 | without a frame control ends up at the word after the last BL, or astray when a callee does not come back |
| CallTree.FunctionReturns | src/encoder.c:445-510 | when every caller saves X30 by one of the two prologues, each RET goes to the word after its BL, with SP, X29 and the caller's stack restored, in step with the x86 machine: after every prologue SP is RSP |
| CallTree.BodyReturns | src/encoder.c:445-510 | the same from any point inside such a function, by induction over the tree |
| CallTree.PrologueEnters | src/encoder.c:445-447 | after either prologue the translated SP equals RSP although CALL pushed nothing |
| CallTree.EpilogueLeaves | src/encoder.c:465-468 | LEAVE; RET and POP RBP; RET restore the saved X29 and X30, SP and the x86 frame |
| CallTree.FramelessCallerSpins | src/encoder.c:507-510 | a caller without a frame, whatever balanced tree it calls and whatever straight-line code follows, comes back to the word after its last BL at every RET, any number of times |
| CompileContext.Context.Emit32 | src/memory.h:27-29 | appends one word |
| CompileContext.Context.Patch | src/memory.h:31-33 | forgets the last n words and nothing else |
| CompileContext.Context.FetchInt32 | src/memory.h:48-52 | reads four little-endian bytes, signed, and advances by four |
| CompileContext.Context.FetchInt8 | src/memory.h:36-40 | reads one byte as a signed number |
| Decoder.DecodeRmOperand | src/decoder.c:10-46 | fills the operand as the specification decodes it and advances by the same length |
| Decoder.DecodeRRm | src/decoder.c:47-53 | the register operand comes first and the r/m operand second, read from the byte after the opcode |
| Decoder.DecodeRmR | src/decoder.c:54-60 | the r/m operand comes first and the register operand second |
| Decoder.DecodeRex | src/decoder.c:61-72 | extends the register, index and base numbers of the right operands |
| Decoder.RegisterNumber | src/decoder.c:47-72 | the register operand is the reg field of the ModR/M byte, and eight more with REX.R |
| Decoder.DecodeSet | src/decoder_0F.c:101-106 | the register number that SETcc ends up with, REX.B or REX.R applied depending on a stale reverse |
| Encoder.EmitImm | src/encoder.c:72-89 | appends the constant's words |
| Encoder.EmitAddressDecode | src/encoder.c:27-60 | appends the address words for the position it starts from, or reports the panic |
| Encoder.EmitLoad | src/encoder.c:107-122 | appends the load's words |
| Encoder.EmitStore | src/encoder.c:123-138 | appends the store's words |
| Encoder.EncodeArith | src/encoder.c:227-263 | appends the words that UpdateMeans, LoadArithMeans and RegisterArithExact speak of |
| Encoder.EncodeCmp | src/encoder.c:361-376 | appends the words that CmpMeans speaks of |
| Encoder.EncodeMov | src/encoder.c:328-350 | appends the words that the MOV lemmas speak of, with the address formed after the constant's words |
| Encoder.Encoder.EncodePop | src/encoder.c:411-434 | does one POP step of the peephole translation |
| Encoder.Encoder.EncodePush | src/encoder.c:435-464 | does one PUSH step of the peephole translation |
| Encoder.Encoder.Encode | src/encoder.c:213-226 | appends the words of the case, whose effect Semantics states on the instruction; an 8-bit instruction leaves the peephole memory as it was, any other clears it |
| Semantics.EncodedExact | src/encoder.c:227-531 | ADD, SUB, CMP, MOV, LEA and CMOVcc in 32 and 64 bits with every operand shape: the words that Encode appends do to registers and memory what the Intel manual says of the instruction named by type, size and operands, exactly in the cases stated on the instruction, and set or keep the flags as stated |
| Semantics.SetEncoded | src/encoder.c:182-201 | SETcc: the words write the byte that the architecture names exactly in the stated cases, and keep the flags |
| Semantics.LeaveEncoded | src/encoder.c:465-468 | LEAVE takes X30 and X29 off the host frame and leaves RSP above the pair |
| Semantics.ReturnEncoded | src/encoder.c:509-510 | RET changes nothing but the PC, which becomes X30 |
| Semantics.PanicsExactly | src/encoder.c:182-201 | encode panics on SETcc exactly for conditions other than NE, AE, E and B, and on CMOVcc exactly for those other than A and S |
| Semantics.SubtractAndJump | src/encoder.c:227-503 | SUB with a register or memory operand, or CMP, then a patched conditional jump: taken exactly when the x86 condition holds of the flags of the instruction, wherever RSP is read right |
| Encoder.FrameCodeEmitted | src/encoder.c:445-510 | the frame and call words that call trees are made of are what PUSH RBP; MOV RBP, RSP, LEAVE; RET and a patched CALL emit |
| Linker.RunningWordsArePlain | src/encoder.c:411-464 | words that execute are no BRK, so the translator's code never looks like an unresolved jump |
| PlainWords.EncodeWordsArePlain | src/encoder.c:213-531 | the words of every modelled instruction, with any operands, displacements and constants, are at most nine and none is a BRK, as the compile loop assumes |
| PlainWords.EncodedIsSane | src/decoder.c:343-346 | every guest program of modelled instructions, compiled wherever it may be, meets what the compile loop asks of a guest |
| Compilation.StackCodeIsPlain | src/encoder.c:411-464 | the PUSH/POP code holds no BRK and never rewinds past its own three words, as the compile loop assumes |
| CacheIndex.InsertKeepsSorted | src/cache.c:59-67 | the insertion shift keeps the blocks sorted by guest address |
| CacheIndex.StartKeeps | src/cache.c:55-78 | starting a block keeps the invariant of the cache: sorted blocks, increasing slices, logged points, tiled extents |
| CacheIndex.CloseKeeps | src/cache.c:101-116 | closing a block keeps it |
| CacheIndex.PointFoundExact | src/cache.c:134-174 | a recorded point of the last block below an address is found, at its host index, exactly when the block's table is not at index 0 and that host index is not 0; otherwise the search finds nothing |
| CacheIndex.FirstTableExact | src/cache.c:101-105 | as soon as any closed block has points, exactly one has them in the table at index 0 |
| CacheIndex.PointTablesApart | src/cache.c:79-116 | tables with points lie apart, one of them at index 0, through points and both kinds of split; every settled cache has this |
| CacheIndex.FirstPointsAreLost | src/cache.c:101-174 | after a close, a search for one of the block's points comes back empty exactly when the table is at index 0 or the point at host index 0 |
| CacheIndex.PointCases | src/cache.c:79-87 | while the offsets fit 16 bits the truncations lose nothing: which of the three ways a point goes |
| CacheIndex.RecordNotes | src/cache.c:88-99 | the 8-bit offsets recorded are the true distances |
| CacheIndex.PointKeeps | src/cache.c:79-100 | recording a point, across both kinds of split, keeps the invariant and leaves both offsets within a byte |
| CacheIndex.FindPointAt | src/cache.c:134-152 | with increasing offsets a recorded point is found wherever it stands in its slice |
| CacheIndex.HitsAreLogged | src/cache.c:153-174 | every hit of a search, during a compilation as well as between two, is a logged pair of guest address and host index |
| CacheIndex.StartFound | src/cache.c:163-164 | the search for a block's own start returns that block's host index |
| CacheIndex.StartedOnMiss | src/cache.c:55-78 | after a miss, the block started for the address is the only one starting there |
| CacheIndex.PointStarts | src/cache.c:79-100 | recording later points, with whatever splits, keeps the block found for the first address |
| Points.PointIsRecorded | src/cache.c:79-100 | after a point, guest address and host index of the moment belong together in the tables: a block starts there, or the entry's two distances give exactly that pair |
| Points.PointIsMarked | src/cache.c:79-100 | and the pair is in the log |
| Points.PointKeepsRecorded | src/cache.c:79-100 | later points, with both kinds of split, keep every pair recorded for lower addresses |
| Points.RecordedFound | src/cache.c:134-174 | a search for a recorded address returns its host index, unless its table is the one at index 0, or the host index is 0, or another block starts between its block and the address; then nothing |
| Points.OverlapHides | src/cache.c:153-174 | the last case happens: a block from 0x1001 hides the point 0x1003 of a block compiled from 0x1000 after it |
| CacheIndex.CloseStarts | src/cache.c:101-116 | so does closing a block |
| CacheIndex.SearchBlockExact | src/cache.c:175-184 | each host word has one owner, in whatever guest order blocks were made; the scan finds it exactly when the word lies within the block's length modulo 256, so always for blocks below 256 words |
| TranslationCache.Anchor.Clear | src/cache.c:48-54 | empties every table, which leaves the cache linked up |
| TranslationCache.Anchor.StartBlock | src/cache.c:55-78 | the arrays after the shift are the specification's block start; it panics only when full |
| TranslationCache.Anchor.PointBlock | src/cache.c:79-100 | the arrays after a point are the specification's, with all writes in bounds |
| TranslationCache.Anchor.EndBlock | src/cache.c:101-116 | the arrays after closing are the specification's |
| TranslationCache.Anchor.Search | src/cache.c:153-174 | the two binary searches return what the linear reference allows: a block starting there, else the point in the last block below with a table, else nothing |
| TranslationCache.Anchor.SearchPoints | src/cache.c:134-152 | the binary search over a slice equals the linear one, with 0 for absent |
| TranslationCache.Anchor.SearchBlock | src/cache.c:175-184 | the first block whose stored extent holds the word |
| TranslationCache.Anchor.PatchPoint | src/cache.c:117-133 | issues a slot as the specification does, across a doubling of the array |
| TranslationCache.Anchor.GrowJumps | src/cache.c:43-46 | doubles the array and keeps the old records in front |
| TranslationCache.Anchor.GetPatch | src/cache.c:185-191 | returns the record and pushes its slot on the free stack; it panics only when the stack is full |
| PatchSlots.IssueKeeps | src/cache.c:117-133 | an issued id is not 0, was not live, and is the only change to the live records |
| PatchSlots.ReleaseKeeps | src/cache.c:185-191 | releasing a live id removes exactly that record, and slots in use and free slots stay a partition without duplicates |
| PatchSlots.RunsImplement | src/cache.c:117-191 | over any interleaving of issues and releases the slots behave as a dictionary that hands out unused keys |
| Linker.BrkWordMeans | src/encoder.c:65 | BRK #id is a BRK that carries its id exactly when the id fits 16 bits |
| Linker.HandlerReads | src/patcher.c:79-84 | whatever the id, the handler's shift and mask read it modulo 2^16 |
| Linker.BrkWordOverflow | src/encoder.c:65 | id 65536 gives the very word of the debugger's BRK #0 |
| Linker.PatchedWordsAreNotBrk | src/patcher.c:99-139 | no patched word is a BRK |
| Linker.EmitJumpKeeps | src/encoder.c:61-71 | a new unresolved jump keeps unresolved sites and live slots in one-to-one correspondence |
| Linker.UnemitKeeps | src/memory.h:31-33 | taking back plain words keeps it |
| Linker.UnemitExact | src/memory.h:31-33 | a rewind keeps the correspondence exactly when it drops no BRK, no resolved site and not the trapping word |
| Linker.DirectIsLost | src/decoder.c:351-357 | so a rewind right behind the direct branch that ends a block breaks it: the branch is overwritten while recorded as resolved |
| Linker.EmitDirectKeeps | src/decoder.c:351-357 | so does the direct branch into compiled code, which goes to a logged index |
| Linker.BeginTrapKeeps | src/patcher.c:88 | releasing the trapping slot keeps the correspondence for every other site, so that the id may be issued again while the old BRK still stands |
| Linker.FinishTrapKeeps | src/patcher.c:91-139 | overwriting the BRK restores the correspondence for all sites, wherever the freed id went meanwhile |
| Compilation.PointConsumes | src/decoder.c:341-342 | every instruction after a block's first takes exactly one free offset slot |
| Compilation.PointBuilds | src/decoder.c:342 | a point keeps the loop invariant: index, linked code, the entry found for the first address, and one slot and 64 words paid for per point or block |
| Compilation.InstrBuilds | src/decoder.c:343-346 | an instruction with its rewind, words and at most one jump keeps it; the rewind may reach across a split into earlier blocks of the same compilation as long as it drops plain words and the open block does not end before its start |
| Compilation.MoveExact | src/cache.c:79-87 | moving on keeps the cache exactly when the host position has not fallen in front of the open block; if it has, it lies inside a closed block, and the next point takes the distance modulo 2^16 for too long |
| Compilation.FrameAfterSplit | src/encoder.c:436-447 | PUSH RBP in a block just started by a split, behind a push left open in the block before, is such a case: the distance becomes 65534 |
| Compilation.JoinBuilds | src/decoder.c:352-357 | so does joining compiled code |
| Compilation.CloseLinks | src/decoder.c:360-361 | closing the block ends in a linked cache where the first address is found at the index where compilation began |
| Compilation.LostInOneBlock | src/cache.c:101-174 | in every cache between compilations the recorded points that a search misses lie in that one block, except one at host index 0 |
| Runs.TurnKeeps | src/decoder.c:341-359 | one turn for any guest: behind what the rewind leaves stand the instruction's words, and for each jump the BRK of a slot in use that records its type and its target counted from the end of the instruction; the turn's address is recorded; and the turn ends the block by an instruction that does so, or by a branch to code known before for the next address, or goes on at an address that is not known |
| Runs.RunMeans | src/decoder.c:341-359 | over any number of turns all of that stays: every address recorded, every jump standing |
| Runs.RunAchieves | src/decoder.c:337-363 | in the closed cache every turn's address is recorded at the host index where the turn began, and every jump's slot still names its target |
| Recompiler.Decode | src/decoder.c:337-363 | compilation ends for every guest program whose rewinds stay within this compilation, drop plain words and do not leave a block shorter than empty, by a run of loop turns from the block start to the block end; every turn did what the guest says and is still found as Points.RecordedFound states, every jump's slot records its target; slots and sites correspond, earlier host words, marks and resolved sites are kept, and the address is found at the formerly free index; it panics only when a table or the host size is exhausted, and no write leaves its array |
| Recompiler.Turn | src/decoder.c:341-359 | one turn, as Runs.TurnKeeps describes it: a point, an instruction, and the branch into compiled code if the search finds any |
| Recompiler.EncodeInstr | src/decoder.c:345 | rewinds, then appends words and slots in order |
| Recompiler.Join | src/decoder.c:352-357 | a point and one branch word to the found index |
| Patcher.IdRead | src/patcher.c:81 | the handler's shift and mask give the BRK's immediate |
| Patcher.TrapOpens | src/patcher.c:81-88 | a BRK in linked code names a slot in use, so it is never taken for the debugger's |
| Patcher.BrkHandler | src/patcher.c:75-145 | after a trap every unresolved site again has its own slot; the trapping site holds the branch for its recorded type to the host index now found for its recorded target, and no other earlier word or resolved site has changed |
| Patcher.Resolve | src/patcher.c:91-96 | the returned index is what the search now finds for the address, whether it hit or compiled at the free index |
| Patcher.Session | src/patcher.c:75-169 | over any run of clears, entries at unknown addresses and traps, the cache stays linked up or stops on an exhausted table |
| Patcher.BranchStep | src/patcher.c:97-139 | the patched word, taken, goes to its target exactly when the offset fits its field; not taken, to the next word; only CALL changes a register, X30 |
| Patcher.ResolvedSiteLands | src/patcher.c:97-139 | a resolved site, executed where it stands, goes to the host code logged for the guest target its slot recorded, exactly when the offset fits its field |
| Relr.RelocRelr | src/elf_loader.c:70-84 | base is added to each word once per occurrence in the table's expansion, modulo 2^64, and no other word changes |
| Relr.RelocBitmap | src/elf_loader.c:78-82 | one bitmap entry does so for its 63 words, though it stops at the last set bit |
| Relr.OrderedIncreases | src/elf_loader.c:70-84 | a table whose addresses never lie before the cursor expands strictly upwards |
| Relr.NamedExact | src/elf_loader.c:70-84 | a word is named exactly when an even entry is its address or an odd one has the bit for its distance from the cursor set, the cursor being one past the last address and 63 more for every bitmap since |
| Relr.RelocatedOnce | src/elf_loader.c:70-84 | for such a table each named word is relocated exactly once |
| GuestStack.Stack.PushArg | src/stack.c:42-51 | pushes the address of a NUL-terminated copy behind the earlier strings, or 0, and counts arguments |
| GuestStack.Stack.SetAuxv | src/stack.c:61-66 | the auxiliary vector ends up in order in front of what was pushed |
| GuestStack.FlatEntries | src/stack.c:61-66 | each entry of the vector stands with its type in front of its value |
| GuestStack.Stack.PushArgc | src/stack.c:33-41 | the count ends up at a 16-byte aligned sp with the earlier words unchanged and in order behind it, for either parity of sp |
| GuestStack.Stack.MoveDown | src/stack.c:34-38 | the shift moves every pushed word down by one and alters none |
| GuestStack.Stack.Build | src/main.c:43-53 | the program finds, at the aligned sp, its argument count, pointers to NUL-terminated copies of its arguments in order, and 0; then the auxiliary vector and the environment, last string first; the copies do not overlap |
| GuestStack.BuildAbiExact | src/main.c:43-53 | the image has the ABI's order of arguments, environment and auxiliary vector exactly when there is no vector and at most one environment string, or no environment and a vector of zeros |
| GuestStack.VectorForEnvironment | src/main.c:43-53 | with both present, what the program takes for its first environment pointer is the vector's first entry |
| GuestStack.StillHeld | src/stack.c:42-60 | a copied string stays where it is while others are added |
| ContextPool.NeverShared | src/memory.c:23-32 | in every interleaving of any number of threads no two hold the same context |
| ContextPool.ScanSawBusy | src/memory.c:24-31 | a scan that came to a slot, or failed, saw every earlier slot held by another thread at the moment it tested it, in that scan |
| ContextPool.ThinningKeeps | src/memory.c:23-32 | of k threads at most k - h ever test or hold slot h or a later one: every step keeps this |
| ContextPool.NeverExhausted | src/memory.c:34-35 | with no more threads than contexts no scan ever fails, in any interleaving |
| ContextPool.FailureExact | src/memory.c:23-35 | some interleaving makes a scan fail if and only if there are more threads than contexts |
| ContextPool.AloneTakesFirst | src/memory.c:24-31 | an uninterrupted scan takes the first free slot, or finds all busy |
| ContextPool.Contexts.Search | src/memory.c:23-32 | the loop is the uninterrupted scan |
| ContextPool.Contexts.Free | src/memory.c:36-38 | frees that slot and no other |
| ContextPool.FreedIsTaken | src/memory.c:23-49 | a freed context is held by nobody and goes to the next thread that tests its slot |

## Left out

- Addressing.AddressMeans: a displacement past twelve bits, for which the words do not form the address (Displacements.DisplacementExact); what else they do then is not described.
- Recompiler.Decode: what `decode_instr` and `encode` do for an instruction is a function of the guest address, of the words of this compilation and of how many of them are in the open block, bounded by 15 bytes, 64 words and one jump; the meaning of the words is the subject of the translator modules.
- Recompiler.Decode: two rewinds are excluded, because the code does not guard against them and they break the cache (Compilation.MoveExact, Linker.UnemitExact): one that leaves the open block shorter than empty, as PUSH RBP after a split does, and one that reaches into the compilation before, when `prev_instruction` is still set from there.
- Recompiler.Decode: the 32-bit guest position does not wrap; guest code is taken to end inside its 4 GiB window.
- Recompiler.Decode: the host array is taken to hold the 64 words for each point and block that the tables can pay for; the code compares a byte size with a word count, which the model keeps as the panic it is.
- Patcher.BrkHandler: taking and freeing a context, signal delivery and instruction-cache flushing are not part of it; the trap is a step given the host index, and the context is the one compiling context.
- Patcher.Session: host code from before a clear is not traced any further.
- Entering the second half of a fused pair: its recorded point lies behind the fused words; the cache properties are stated about the recorded log.
- GuestStack.Stack.Build: strings and words are two views of one area that must not meet, which is the precondition that the arguments fit; the code does not check it.
- Relr.RelocRelr: the first entry is even, addresses are multiples of 8 and all named words lie in the image; the code would write elsewhere.
- ContextPool.NeverShared: the slots start free; the code allocates them without clearing, and a thread that holds a context is taken not to ask for another.
- CallTree.FunctionReturns: what a function does between calls is any straight-line code that keeps X29 (unless the function saves it without a frame), X30 (where the function does not save it) and the stack above its own part, and that has SP back at the saved pair before POP RBP.
- Encoder.Encoder.Encode: AND, OR, XOR, TEST, SHL, SHR, SAR, MOVZX, MOVSX, CLTQ, CLTD, IDIV, IMUL, SYSCALL with its rewritten MOV RAX, and the 8-bit operations other than SETcc; SHR by a constant starts from a base word that already has a shift bit set.
- Encoder.Encoder.EncodePush: PUSH and POP of memory operands, whose address is formed before the fused decrement.
- NEON and floating point, and the FS prefix.
- Semantics.EncodedExact: operands out of reach of the words (see Displacements and Addressing.RipRelativeExact), RSP as a nonzero base of an index (Addressing.RightFormExact), and 32-bit moves of constants that no decoder path produces; the parity and adjust flags.
- Memory accesses that wrap around 2^64 inside one word: bytes are numbered by unbounded integers.
- Debug mode, which overwrites host words with BRK #0; logging and printing.
- Encoder.Encoder.Encode: the operand-size prefix 66h, which makes MOV r/m, constant (C7) a 16-bit operation that is encoded as a 32-bit one and is ignored for the other opcodes.
- Conditions.SetccExact: byte operands in memory.
- Arm64.Exec: SP alignment checking (Arm Architecture Reference Manual, section C6.2): with SP not a multiple of 16 the [RSP + d] forms of loads and stores and the frame words may fault on a host that checks it.
- Opcodes of decode_instr and decode_0F outside ModR/M, SIB, REX and the condition codes; `mmap_base`.
- Several threads compiling into one cache: it is unsynchronised, and the model has one compiling context.
