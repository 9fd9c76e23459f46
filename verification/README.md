# Verification of vedx64

A Dafny 4.11 model of the byte-level core of vedx64, the x86-64 decoding and code
generation toolkit: what the decoder and the encoder do to each other, what moving and
assembling code preserves, and what the control-flow and memory helpers compute.
`dafny verify dfyconfig.toml` checks all of it.

Machine words are integers with explicit ranges; casts are remainders modulo powers of
256, addresses wrap modulo 2^64, and `Le` with a negative number is two's complement.
Code that works step by step is a method, on arrays or on objects with fields, proved
equal to a function of its inputs; the theorems are about those functions. The table of
instructions is a parameter everywhere, so each theorem holds for every table that meets
the stated conditions. The forms follow the Intel Software Developer's Manual, volume 2A,
section 2.1.5 (ModRM and SIB), section 2.2.1 (REX), section 2.3.5 (VEX) and section 2.7
(EVEX).

| file | what is in it |
|---|---|
| `Words.dfy` | bytes, words, little endian, wrapped addresses |
| `InstrTable.dfy`, `TableOrder.dfy`, `TableRules.dfy` | descriptors, the chained opcode map and its lookup; which of several entries is chosen; rules a table can be checked by |
| `Decoder.dfy`, `Encoder.dfy` | the parser and the printer of legacy, REX, REX2, VEX and EVEX forms |
| `Layouts.dfy`, `Immediates.dfy` | prefixes put together field by field and taken apart again; how wide immediates are, and moves of every constant into every register |
| `RoundTrip.dfy`, `CodecCases.dfy`, `VexForm.dfy`, `Locality.dfy` | what printing a decoded instruction gives back; what a decode depends on |
| `Sweeping.dfy`, `Relocation.dfy`, `Moving.dfy`, `MovedMeaning.dfy`, `Stealing.dfy`, `RelocationCases.dfy`, `LongJump.dfy` | linear sweeps, the in-place rewrite of a block, what it preserves byte by byte and in meaning, stolen bytes, rewrites at the wrong place, long conditional jumps |
| `Fixups.dfy`, `Operands.dfy`, `CodeGen.dfy`, `LabelJumps.dfy` | back-patching, memory operands, the generator class, jumps from assembly to control flow |
| `Flow.dfy`, `Successors.dfy`, `Cfg.dfy` | basic blocks, where control goes from them, and the graph walk |
| `Machine.dfy`, `Branch.dfy`, `Transfers.dfy`, `NarrowFold.dfy` | a small machine, the branch idiom recognizer, chains and sweeps, arithmetic narrower than it is folded |
| `IdiomSound.dfy`, `IdiomFound.dfy`, `ChainPaths.dfy` | what is recognized is so, what there is to recognize is recognized, and where chains end |
| `PagedMemory.dfy`, `Epilogue.dfy`, `EpilogueBytes.dfy`, `BackwardTrace.dfy` | paged memory, the epilogue scan and its outcome on assembled functions, the backward register trace |

## Where a property fails

Each of these is a lemma with the exact condition or a concrete input.

- Encoding after decoding changes bytes outside the guards in `Reproducible`, and
  `RoundTripIff` is an equivalence. Real byte strings outside them: a fifth prefix is lost
  (`FifthPrefixLost`), 66 in front of VEX is lost (`SizePrefixBeforeVexLost`), a third
  opcode byte 0xFF, which is the code's "no third byte", is replaced (`ThirdByteReplaced`),
  behind REX2 a 0F opcode gains a byte (`Rex2OpcodeGrows`), a clear fixed bit of EVEX is set
  (`EvexBitSet`), a zero immediate that the entry does not declare is lost
  (`ZeroImmediateLost`), and the second immediate of ENTER always is
  (`SecondImmediateLost`, `EnterLosesImmediate`).
- Behind 66 the decoder reads immediates of two bytes also where REX.W makes the operation 64
  bits wide and the immediate four (`ImmSizeIff`).
- The payload of REX2 is documented with the fifth bits of reg, index and base in this order;
  the decoder exchanges the first and the last (`Rex2Layout`, `Rex2AgreesIff`). The fifth
  register bit of EVEX is lost (`EvexLayout`).
- Decoding can depend on one byte behind the instruction: XEND, which has a second opcode
  byte and no ModRM byte, decodes as two bytes (`XendTooShort`), and DPPS, whose immediate
  is not declared, decodes whole with it and without it (`ZeroImmediateLost`). `StableIff`
  says for which tables this cannot happen, and `WellFormed` is a rule for it that can be
  checked entry by entry; the repository's table breaks the rule in the 0F01 group without
  ModRM, ENDBR, XABORT, XBEGIN, AAM, AAD, AMX and ADX, and in the 0F3A entries without an
  immediate: PALIGNR (two of them), DPPS and DPPD (lib/core/table.cpp:1800-1801, 1809-1810).
- `relocate_instruction` documents a new address but does not use it; the result is right
  at one address only, that of the output buffer if the new offset fits into 32 bits
  (`RelocatedElsewhere`).
- `relocate_block` rewrites four bytes of a two-byte relative operand, so the opcode bytes
  survive only if the distance is a multiple of 65536, and together with the target only if
  nothing moves (`NarrowOperandDamage`); 66 0F 84 and two bytes is such a jump
  (`JzIsNarrow`).
- `relocate_block` counts the bytes in front of the ModRM byte as in legacy forms. A
  RIP-relative operand is found exactly if the count comes out right (`RipFoundIff`). With
  up to four prefixes, and leaving aside 0F38 and 0F3A without a third byte, that is never
  in EVEX forms, in three-byte VEX forms only for the maps 2 and 3, in two-byte VEX forms
  only if the R bit is written as 0. One that is passed over keeps its target only where it
  stands (`RipSkipped`), as C5 F8 28 05 and four bytes does (`VexLoadSkipped`). If a byte
  in front of the ModRM byte is taken for it, as in C5 F8 15 05 and four bytes
  (`VexUnpackTakenEarly`), four wrong bytes are rewritten: ModRM byte and target survive
  together only if nothing moves (`RipTakenEarly`), and an instruction without such an
  operand only at multiples of 2^32 (`NoRipRewritten`).
- Bytes stolen at a boundary hold the same instructions when they are cut off exactly if the
  last one does not depend on the byte behind it (`BoundarySweepIff`); two bytes stolen from
  XEND do not decode alone (`XendStolen`).
- A one-byte relative operand is left alone, so it keeps its target only if nothing moves,
  although the call reports success (`TargetsKept`).
- The generator writes an operand with neither base nor index in the RIP-relative form,
  loses RSP as an index and takes an odd scale for 1 (`Addressable`).
- The MMX operand reader ignores REX (`MmxAgreesIff`).
- The recognizer folds moves, addresses and arithmetic as if they were 64 bits wide. Moves
  come out right from 32 bits on (`MovFoldsIff`), addresses in 32 bits only if they are that
  short (`LeaFoldsIff`), and arithmetic exactly under a condition on the operands of each of
  the eight operations at each width (`NarrowFoldIff`, `NarrowArithIff`).
- It ignores FS and GS, the address size and the REX2 bit of the index where it claims a
  static address, and so reads the wrong slot for `mov rax, gs:[0x60]`; behind four other
  prefixes nothing it has decoded shows the override (`StaticAddressIff`, `BasedSlotMisread`,
  `GsSlotMisread`). It matches branches by a register number without the REX2 bit
  (`BranchRegIff`).
- A pointer of fewer than eight bytes is copied over an uninitialized variable
  (`DeterminedIff`).
- `is_committed` is right for every memory only for ranges that do not go around the end of
  the address space and, if empty, start at a page (`CommittedIff`). For a range that does
  go around it says yes, unless the range ends in the page it starts in and that page does
  not exist (`CommittedAround`).
- `backward_chain` documents exchanges as swaps but overlooks one whose second operand is
  the register it follows (`ExchangeMisread`), takes extensions and narrower moves for
  copies of the register (`NarrowMisread`), and overlooks writes to its second byte
  (`HighByteMisread`) and every result besides the first operand, such as rax in `mul rcx`
  (`FurtherResultMisread`, `MulMisread`); CMP and TEST aside, it reports instructions that only
  read their first operand as definitions (`ReaderReported`). Given which registers each
  instruction changes,
  `TraceIsRightIff` says exactly when its answer is right.
- `walk_cfg` documents that all reachable blocks come back; this holds exactly if they are
  no more than the limit (`CompleteIff`). A block cut off by the instruction limit has no
  successors (`BlockTiles`), and far jumps and UD are sequential to `classify_flow`, not to
  `recognize` (`FallthroughAgreesIff`).
- `recognize_all` documents a limit on transfers; the code counts every instruction it
  looks at (`ItemsTile`). An idiom can have seven instructions, one more than `insn_len`
  holds (`ShapeLengths`).

## Model

| member | source | states |
|---|---|---|
| `InstrTable.OpcodeMap.constructor` | lib/core/table.cpp:2518-2539 | inserting the entries backwards, each at the front of its slot, makes every chain list exactly its (map, byte) slot in table order |
| `InstrTable.OpcodeMap.WalkSlot` | lib/core/decode.cpp:87-123 | one pass over a chain finds the first table entry for each of the three goals: EVEX with vvvv, exact prefix, no prefix |
| `InstrTable.OpcodeMap.Find` | lib/core/decode.cpp:75-139 | walking the chains selects the entry that a search of the whole table by priority of goals selects, including the register-in-opcode fallback |
| `InstrTable.LookupPicks` | lib/core/decode.cpp:118-138 | whatever is selected is in the table and in the slot of the opcode, or an opcode-register entry of the slot with the low bits cleared, with the prefix asked for or none |
| `TableOrder.LookupIsBest` | lib/core/decode.cpp:75-139 | by the fields of the entries: a lookup selects the first of the best entries (prefix and vvvv under EVEX, exact prefix, no prefix, then the same two among register-in-opcode entries), and nothing only if no entry comes into question |
| `TableOrder.DecodeSelects` | lib/core/decode.cpp:285-311 | the entry of a decoded instruction is the best for its opcode, the strongest prefix (that of VEX, else F2, F3, 66) and the byte behind the opcode; without a third byte only if none fits with it, without the prefix only if none fits then either |
| `TableOrder.PrefixDecides` | lib/core/table.cpp:1911-1912 | of the two entries at 0F 6F the one with 66 is chosen if 66 is asked for, and the other for every other prefix, whatever their order |
| `TableOrder.ExtensionDecides` | lib/core/table.cpp:1584-1588 | FF /2 and FF /4 are told apart by the register field, and no other register field selects either |
| `Decoder.Decode` | lib/core/decode.cpp:141-375 | a successful decode consumes at least one byte and never more than there are |
| `Decoder.ReadTail` | lib/core/decode.cpp:317-371 | the loops over the operands, which read the immediates and a moffset, together with the ModRM part and the implicit immediate give what the grammar says |
| `Decoder.DecodeOne` | lib/core/decode.cpp:141-375 | the cursor decoder over the chained map computes the grammar's result on every byte string, failures included |
| `Layouts.PrefixGroups` | lib/core/decode.cpp:150-160 | legacy prefixes are lock, the two repetitions, the six segments and the two sizes, and nothing else |
| `Layouts.LegacyLayout` | lib/core/decode.cpp:261-281 | an opcode of one to three bytes, with or without REX, is read with these bits and as this opcode, behind anything |
| `Layouts.Vex2Layout` | lib/core/decode.cpp:201-215 | whatever R, vvvv, L and pp are laid out behind C5 are taken apart again, in map 1 |
| `Layouts.Vex3Layout` | lib/core/decode.cpp:216-240 | the same for all fields behind C4 |
| `Layouts.EvexLayout` | lib/core/decode.cpp:166-198 | and for EVEX: mask, zeroing, broadcast, length or rounding, five-bit vvvv; only the fifth register bit is lost |
| `Layouts.Rex2Layout` | lib/core/decode.cpp:242-260 | a REX2 payload laid out as documented is read with the fifth bits of reg and base exchanged |
| `Layouts.Rex2AgreesIff` | lib/core/decode.cpp:242-260 | so it is read as documented exactly if these two bits are equal |
| `Immediates.ImmSizeIff` | lib/core/decode.cpp:15-26 | immediates have the width of the operation, four bytes at most unless the entry takes all eight, except exactly with 66 and REX.W together, where two bytes are read and four belong there |
| `Immediates.MovConstant` | lib/core/table.cpp:1295 | for every register, number and width, the bytes of `mov r, v` decode whole, execution leaves v in r at that width, and the recognizer takes the same register and value from them |
| `Immediates.MovRax` | lib/core/table.cpp:1295 | 48 B8 and eight bytes put the whole quadword into RAX |
| `Immediates.EnterDecodes` | lib/core/decode.cpp:336-353 | the word of ENTER is read as the immediate and the byte as the displacement |
| `Immediates.MoffsetDecodes` | lib/core/decode.cpp:355-362 | A1 takes an address of eight bytes |
| `Encoder.EncodeTo` | lib/core/encode.cpp:9-164 | writes exactly the instruction's bytes and nothing else if they fit, else returns 0 having written a prefix of them within the capacity |
| `Encoder.EmitVexPrefixes` | lib/core/encode.cpp:20-26 | in VEX forms the prefix loop writes the remembered prefixes without 66, F2 and F3 |
| `Encoder.EmitLegacyPrefixes` | lib/core/encode.cpp:69-79 | in other forms all remembered prefixes and then the entry's prefix, if it is not among them |
| `RoundTrip.ChosenFacts` | lib/core/decode.cpp:291-315 | the descriptor chosen by the three lookups agrees with the opcode that was read: map, byte up to the register bits, third byte, prefix |
| `RoundTrip.HeadPrinted` | lib/core/encode.cpp:28-104 | for legacy, REX2, VEX and EVEX heads: printed and read bytes agree if the head is printable, else differ inside it or by one byte more |
| `RoundTrip.TailPrinted` | lib/core/encode.cpp:106-161 | the bytes after the opcode are printed back exactly unless the operand-size prefix was forgotten or a zero implicit immediate dropped |
| `RoundTrip.PrefixesPrinted` | lib/core/encode.cpp:19-79 | legacy prefixes survive exactly when at most four are there, or five of which the entry restores the last, and none is filtered in front of VEX |
| `RoundTrip.RoundTripIff` | lib/core/decode.cpp:141-375 | for every table, byte string and entry the encoder can spell, also with several immediates: encoding the decoded instruction gives exactly the consumed bytes if and only if the string is reproducible |
| `CodecCases.LegacyRoundTrip` | lib/core/encode.cpp:68-163 | legacy and REX forms with at most four prefixes survive byte for byte, unless the third opcode byte is 0xFF or a 0F3A entry declares no immediate |
| `CodecCases.XendTooShort` | lib/core/table.cpp:2237 | with an entry shaped like XEND three bytes decode as two, the two alone do not decode, and the table is not free of lookahead |
| `CodecCases.SecondImmediateLost` | lib/core/encode.cpp:128-151 | over every table, no byte string that decodes to an entry with two immediates of fixed sizes is printed back |
| `CodecCases.EnterLosesImmediate` | lib/core/table.cpp:1318-1319 | in particular none that decodes to ENTER |
| `CodecCases.FifthPrefixLost` | lib/core/decode.cpp:155 | four prefixes of five are remembered: 2E 2E 2E 2E 64 90 is printed without the 64 |
| `CodecCases.SizePrefixBeforeVexLost` | lib/core/encode.cpp:20-26 | 66 C5 F8 77 is printed without the 66 |
| `CodecCases.ThirdByteReplaced` | lib/core/decode.cpp:295-300 | 0F 38 FF C8 decodes to the entry of 0F 38 C8 and is printed as 0F 38 C8 C8 |
| `CodecCases.Rex2OpcodeGrows` | lib/core/encode.cpp:81-98 | D5 80 A2 is printed as D5 80 0F A2 |
| `CodecCases.EvexBitSet` | lib/core/encode.cpp:44-50 | an EVEX prefix with a clear fixed bit is accepted and printed with the bit set |
| `CodecCases.ZeroImmediateLost` | lib/core/table.cpp:1809 | 66 0F 3A 40 C1 and the same with 00 behind it both decode whole and are printed alike, so encodings do not form a prefix code |
| `VexForm.ThreeByteVexShortens` | lib/core/encode.cpp:51-59 | a three-byte VEX form with map 1 and X, B, W clear is printed one byte shorter; the result decodes, in front of the same bytes, to the same instruction and prints as itself |
| `Locality.TailMoves` | lib/core/decode.cpp:317-371 | the operand bytes read the same at any place in any buffer |
| `Locality.LookaheadFreeIsStable` | lib/core/decode.cpp:291-304 | over a table free of lookahead, strings that agree on the consumed bytes decode alike |
| `Locality.StableIff` | lib/core/decode.cpp:291-375 | decoding depends only on the bytes it consumes if and only if the table is free of lookahead |
| `Locality.PrefixCode` | lib/core/decode.cpp:291-375 | over such a table no accepted encoding is a proper prefix of another |
| `TableRules.ChoiceIsStable` | lib/core/decode.cpp:88-122 | an entry that competes only with entries that do not look at the next byte, which can be checked entry by entry, is chosen whatever byte follows the opcode |
| `TableRules.WellFormedIsFree` | lib/core/decode.cpp:294-311 | a well-formed table is free of lookahead, so decoding over it depends only on consumed bytes |
| `TableRules.FoundIsMovable` | lib/relocation/relocation.cpp:55-84 | over every table, instructions of every encoding whose ModRM byte is where the code counts, and whose relative operand takes four bytes of an entry with ModRM byte or without competitors, meet the conditions of the relocation theorems |
| `TableRules.LegacyIsMovable` | lib/relocation/relocation.cpp:55-84 | so do legacy and REX forms with at most four prefixes, under the same rule for the relative operand |
| `Relocation.NewOffsetBytes` | lib/relocation/relocation.cpp:66-68 | the 64-bit address arithmetic and the cast to 32 bits add source minus destination modulo 2^32 |
| `Relocation.PatchInstruction` | lib/relocation/relocation.cpp:55-85 | the loop body rewrites in place the four bytes behind what it takes for a RIP-relative ModRM byte and the last four of a non-byte relative operand, wherever they lie in the buffer |
| `Relocation.RelocateBlock` | lib/relocation/relocation.cpp:45-91 | the buffer, outcome and count are those of decoding, rewriting and stepping over one instruction after the other, also when a rewrite reaches into its neighbours |
| `Relocation.RelocateIsRewrite` | lib/relocation/relocation.cpp:45-91 | if the rewrites stay inside their instructions, the block is swept as it was before, every instruction is rewritten by itself, bytes around the block stay, and success is a complete sweep |
| `Moving.ModrmOffsetIs` | lib/relocation/relocation.cpp:57-59 | how far the place where the code looks for the ModRM byte is from where it is, for every encoding and number of prefixes |
| `Moving.RipFoundIff` | lib/relocation/relocation.cpp:56-63 | a RIP-relative displacement is rewritten where it is exactly if that distance is zero |
| `Moving.RipSkipped` | lib/relocation/relocation.cpp:56-70 | an instruction with such an operand that is not rewritten keeps its target only if nothing moves, or with an address-size prefix at multiples of 2^32 |
| `Moving.RereadParsed` | lib/relocation/relocation.cpp:55-85 | an instruction whose rewritten fields hold anything decodes to the same entry, length and other fields |
| `Moving.BlockMoves` | lib/relocation/relocation.cpp:45-91 | the rewritten block sweeps to the same boundaries, count and outcome, each instruction being the old one with moved fields |
| `Moving.TargetKept` | lib/relocation/relocation.cpp:61-69 | a wrapped offset at the new address reaches the old target if and only if the exact new offset fits into 32 bits |
| `Moving.MovedBlockTargets` | lib/relocation/relocation.cpp:45-91 | in blocks of instructions of any encoding whose fields the code finds, instruction by instruction: RIP-relative and relative targets at the destination equal those at the source exactly when the new offset fits, 32-bit RIP-relative ones always; byte operands exactly when nothing moves |
| `Moving.MovesCompose` | lib/relocation/relocation.cpp:61-85 | A to B to C equals A to C, and A to B to A restores every byte, at any distance |
| `MovedMeaning.OperandMoved` | lib/relocation/relocation.cpp:56-70 | the memory operand of a moved instruction lies, for all registers, segment bases and prefixes, where that of the original does, unless it is RIP-relative without an address-size prefix and the new offset does not fit into 32 bits |
| `MovedMeaning.BlockMeaningKept` | lib/relocation/relocation.cpp:45-91 | in a relocated block every instruction keeps its memory operand, unless out of reach, and the target of a relative operand wherever in the operand list it stands, if the new offset fits, or for one byte if nothing moves |
| `Moving.OtherBytesKept` | lib/relocation/relocation.cpp:55-85 | every byte outside the rewritten fields is unchanged |
| `Moving.MovableIsPatchable` | lib/relocation/relocation.cpp:56-82 | in a block of movable instructions every rewrite stays inside its instruction |
| `Stealing.CalcStolenBytes` | lib/relocation/relocation.cpp:147-157 | the least instruction boundary that is at least the minimum, or 0 exactly if the sweep stops before it or the next boundary is past the cap |
| `Stealing.CutIff` | lib/core/decode.cpp:291-304 | at its own end a string decodes as in front of more bytes if and only if the byte behind the opcode is part of it or does not matter |
| `Stealing.BoundarySweepIff` | lib/relocation/relocation.cpp:50-54 | cut off at a boundary, bytes that were swept with fifteen-byte windows hold the same instructions, each decoded against another buffer, if and only if the last one is cut safely |
| `Stealing.FreeIsStealable` | lib/relocation/relocation.cpp:147-157 | over a table free of lookahead every run can be cut off |
| `Stealing.BoundarySweep` | lib/relocation/relocation.cpp:50-54 | a run that can be cut off is swept completely and alike |
| `Stealing.XendStolen` | lib/core/table.cpp:2237 | two bytes stolen from XEND, in front of anything, are not swept at all |
| `Stealing.StolenBytesRelocate` | lib/relocation/relocation.cpp:147-157 | relocating exactly the stolen bytes succeeds with the same instructions if they can be cut off |
| `Stealing.RelocateInstruction` | lib/relocation/relocation.cpp:93-102 | the output is the buffer with the instruction relocated to the address of the buffer, whatever new address is given |
| `Stealing.RelocatedElsewhere` | lib/relocation/relocation.cpp:93-102 | there is one address at which such an instruction keeps its target, and it is that of the buffer if and only if the new offset fits into 32 bits |
| `Stealing.NarrowOperandDamage` | lib/relocation/relocation.cpp:74-84 | for every decoded instruction with a two-byte relative operand: the opcode bytes survive if and only if the distance is a multiple of 65536, and survive together with the target if and only if nothing moves |
| `RelocationCases.JzIsNarrow` | lib/core/table.cpp:1963 | 66 0F 84 10 00 decodes to such an instruction |
| `RelocationCases.RipTakenEarly` | lib/relocation/relocation.cpp:56-70 | where the code takes any earlier byte for the ModRM byte, the bytes up to the ModRM byte and the 64-bit target survive together if and only if nothing moves, and with the low 32 bits of the target if and only if the distance is a multiple of 2^32 |
| `RelocationCases.NoRipRewritten` | lib/relocation/relocation.cpp:56-70 | a buffer in which something else is taken for a RIP-relative operand is unchanged if and only if the distance is a multiple of 2^32 |
| `RelocationCases.VexLoadSkipped` | lib/relocation/relocation.cpp:57-63 | C5 F8 28 05 10 00 00 00 decodes to a RIP-relative load that is not rewritten |
| `RelocationCases.VexUnpackTakenEarly` | lib/relocation/relocation.cpp:57-63 | C5 F8 15 05 10 00 00 00 decodes to a RIP-relative operation whose opcode is taken for its ModRM byte |
| `LongJump.EmitLongJcc` | lib/relocation/relocation.cpp:104-122 | both forms reach the target exactly when the condition holds and their own end otherwise; when each form is used; bytes behind are kept |
| `LongJump.NearIff` | lib/relocation/relocation.cpp:104-112 | the six-byte form is taken whenever it can reach the target, if both addresses lie in the same half of the address space |
| `Fixups.BindLayout` | include/vedx64/codegen.hpp:400-411 | binding a label turns the buffer laid out so far into the layout with that binding known, patch by patch |
| `Fixups.OnePassIsTwoPass` | include/vedx64/codegen.hpp:323-411 | for every program of bytes, references and bindings, in any order and with rebinding, one pass with back-patching writes what two passes with known offsets write |
| `Fixups.ReferencesReach` | include/vedx64/codegen.hpp:323-411 | a reference to a label bound once, before or after it, reads back as the distance to it if and only if the distance fits the field |
| `Fixups.EveryReferenceReaches` | include/vedx64/codegen.hpp:323-411 | with labels bound again: a reference reads back as the distance to the last binding before it, or if there is none to the last one of the program, if and only if it fits |
| `Fixups.RawKept` | include/vedx64/codegen.hpp:400-411 | plain bytes stay as they were emitted, whatever is bound around them |
| `Fixups.UnboundStaysZero` | include/vedx64/codegen.hpp:323-341 | the field of a label that is never bound stays zero |
| `CodeGen.Generator.NewLabel` | include/vedx64/codegen.hpp:399 | the generator takes the assembler's step for a new, unbound label |
| `CodeGen.Generator.EmitLabelRef` | include/vedx64/codegen.hpp:323-341 | a bound label is written as an offset, an unbound one as zero with a recorded patch |
| `CodeGen.Generator.Jcc` | include/vedx64/codegen.hpp:439-450 | a conditional jump is its two opcode bytes and a four-byte reference |
| `CodeGen.Generator.Bind` | include/vedx64/codegen.hpp:400-411 | the patch loop rewrites exactly the recorded fields of the label, and the label is at the end of the buffer |
| `CodeGen.Generator.EmitMem` | include/vedx64/codegen.hpp:280-302 | the branches append exactly the ModRM, SIB and displacement bytes of the operand |
| `CodeGen.Generator.EmitRexMem` | include/vedx64/codegen.hpp:308-314 | the segment prefix and the REX byte, which is left out when it says nothing |
| `LabelJumps.JccReachesLabel` | include/vedx64/codegen.hpp:439-450 | a conditional jump to a label, assembled, decoded where it stands and classified, is a conditional branch to the place of the binding at any load address |
| `LabelJumps.JccEdges` | lib/branch_follow/branch_follow.cpp:96-127 | walked where it is loaded, the same jump has exactly two edges: to the place of the binding, unless that is 0, and behind the jump |
| `Operands.MemRead` | include/vedx64/codegen.hpp:280-302 | the decoder reads the bytes of any operand back, anywhere in a string |
| `Operands.OperandReadBack` | include/vedx64/codegen.hpp:274-302 | base, index, scale and displacement read back are those written exactly for addressable operands, with RSP, R12, RBP, R13 and no base covered |
| `Operands.MemShortest` | include/vedx64/codegen.hpp:280-302 | no shorter ModRM, SIB and displacement bytes denote the operand |
| `Operands.PrefixesWritten` | include/vedx64/codegen.hpp:304-314 | a REX byte is written exactly for 64-bit operations and upper registers, a segment prefix exactly if there is one |
| `Operands.EmittedOperandDecodes` | include/vedx64/codegen.hpp:304-314 | prefix, REX, opcode and operand bytes decode as a whole to the register, width, segment and address asked for, the address exactly if addressable |
| `Operands.ReadersAgree` | include/vedx64/analysis.hpp:1008-1033 | the three readers of a memory operand agree on base, index, scale, displacement and RIP-relativity |
| `Operands.SegmentIsLast` | lib/branch_resolve/branch_resolve.cpp:50-55 | of several segment prefixes the last one counts, and none exactly if there is none |
| `Operands.StaticAddressAt` | lib/branch_resolve/branch_resolve.cpp:49-85 | a static address is where the operand lies exactly if the base of the segment, by all prefixes read, makes up for what the address size cuts off and what an overlooked index register adds |
| `Operands.StaticAddressIff` | lib/branch_resolve/branch_resolve.cpp:49-85 | it is so for all registers and segment bases if and only if there is no FS or GS prefix, remembered or forgotten, an address-size prefix cuts nothing off, and REX2 names no index register |
| `Operands.BasedSlotMisread` | lib/branch_resolve/branch_resolve.cpp:231-234 | behind any segment prefixes with FS or GS among them, the bytes of a load at 0x60 decode to a static slot at 0x60, when the operand lies at 0x60 behind the base |
| `Operands.GsSlotMisread` | lib/core/decode.cpp:155 | so for GS alone, and for FS behind four prefixes, which the decoder has forgotten |
| `Operands.MmxAgreesIff` | lib/core/instruction.cpp:182-202 | the MMX reader agrees with the others exactly when the REX bits of the operand's registers are clear |
| `Flow.ClassifyFlow` | lib/branch_follow/branch_follow.cpp:10-94 | the sequence of tests fills in the flow, target and fall-through of the instruction's class |
| `Flow.WalkBasicBlock` | lib/branch_follow/branch_follow.cpp:96-127 | the loop collects the block of its start |
| `Flow.BlockTiles` | lib/branch_follow/branch_follow.cpp:96-127 | instructions follow each other modulo 2^64 up to the end, all but the last are sequential, and the successors are the terminator's or none |
| `Flow.TailShared` | lib/branch_follow/branch_follow.cpp:96-127 | a terminated block started at any of its instructions gives the remaining instructions, end and successors |
| `Flow.WindowIs` | lib/branch_follow/branch_follow.cpp:105-111 | the window is the run of readable bytes, up to the limit or an unreadable one |
| `Machine.FetchIs` | lib/branch_follow/branch_follow.cpp:105-113 | an instruction is decoded and classified from exactly the readable bytes at its address, fifteen at most |
| `Successors.KindIs` | lib/branch_follow/branch_follow.cpp:25-93 | each kind of flow, by mnemonics and relative operands |
| `Successors.FlowIs` | lib/branch_follow/branch_follow.cpp:25-93 | an instruction is indirect exactly if it is a near jump or call without relative operand; which ones fall through; the target is the relative one except for returns |
| `Successors.EdgesIff` | lib/branch_follow/branch_follow.cpp:96-127 | for every run of decoded instructions of which only the last is a terminator, the edges of the block are exactly the address behind it, if it falls through, and its relative target, if that is not 0 |
| `Successors.CutShort` | lib/branch_follow/branch_follow.cpp:96-127 | a block that ends at the limit, an unreadable byte or bytes that cannot be decoded has no edges |
| `Successors.BlockLists` | lib/branch_follow/branch_follow.cpp:96-127 | a block lists exactly the instructions of its run, each classified where it stands, and ends behind the last |
| `Cfg.WalkCfg` | lib/branch_follow/branch_follow.cpp:129-152 | distinct starts, at most the limit, the entry first, every other block a successor of an earlier one, closed under successors below the limit; terminates |
| `Cfg.ExactReachability` | lib/branch_follow/branch_follow.cpp:129-152 | every block is reachable, and a closed result is exactly the reachable set |
| `Cfg.CompleteIff` | lib/branch_follow/branch_follow.cpp:129-152 | the walk returns the whole reachable set if and only if that has at most as many blocks as the limit |
| `Branch.FillDecode` | lib/branch_resolve/branch_resolve.cpp:20-26 | trying fifteen bytes and fewer decodes from the longest readable window |
| `Branch.FindShape` | lib/branch_resolve/branch_resolve.cpp:300-431 | the idioms in the order of the code, then the single instruction |
| `Branch.ScanIdiom` | lib/branch_resolve/branch_resolve.cpp:371-425 | the scan loop with its folded value, offset and count computes the recursive scan |
| `Branch.ResolveTarget` | lib/branch_resolve/branch_resolve.cpp:224-262 | resolution and chain following, mutually recursive with recognition, terminate because the chain flag drops |
| `Branch.RecognizeAt` | lib/branch_resolve/branch_resolve.cpp:300-537 | recognition with the target looked up in memory |
| `Transfers.ShapeLengths` | lib/branch_resolve/branch_resolve.cpp:309-441 | the lengths of a pattern are those of one to seven consecutive decodes from its address |
| `Transfers.ChainIsIterated` | lib/branch_resolve/branch_resolve.cpp:243-261 | the final target is the hop function applied depth times to the first destination, within the limit, and stopping early means no forwarding jump or a self-loop |
| `ChainPaths.FirstHopIff` | lib/branch_resolve/branch_resolve.cpp:228-239 | the first destination is the known target, or the pointer whose bytes can be read in a static slot |
| `ChainPaths.ChainPath` | lib/branch_resolve/branch_resolve.cpp:224-262 | a chain goes from address to address, each step a jump that is recognized there and leads elsewhere, as many as the depth says; below the limit it goes on until no such jump is left |
| `ChainPaths.ChainEndsAt` | lib/branch_resolve/branch_resolve.cpp:243-261 | so below the limit it never ends at a relative jump to another address, nor at one through a static slot with a readable pointer to another address |
| `ChainPaths.SlotResolvedIff` | lib/branch_resolve/branch_resolve.cpp:224-239 | a pattern through memory is resolved exactly if memory is followed and its static slot can be read; without chains its final target is the pointer there |
| `Transfers.DeterminedIff` | lib/branch_resolve/branch_resolve.cpp:229-236 | the first destination does not depend on uninitialized bytes if and only if no pointer of fewer than eight bytes is read |
| `Transfers.RecognizeAll` | lib/branch_resolve/branch_resolve.cpp:278-298 | the loop returns the transfers among the steps of the sweep, in order |
| `Transfers.ItemsTile` | lib/branch_resolve/branch_resolve.cpp:278-298 | the steps tile the run from the entry: patterns recognized where they start, with the length of consecutive decodes, whole non-transfer instructions between them, and only the last without fall-through |
| `Transfers.ItemsEnd` | lib/branch_resolve/branch_resolve.cpp:278-298 | the sweep ends only at the limit, where nothing can be decoded, or behind a transfer without fall-through |
| `Transfers.TakenSplits` | lib/branch_resolve/branch_resolve.cpp:288-291 | the transfers reported are those of the steps, each once and in order |
| `Transfers.FallthroughAgreesIff` | lib/branch_follow/branch_follow.cpp:25-93 | the flow classifier and the recognizer agree on fall-through for every single transfer except far jumps, UD and a UD2 with a relative operand |
| `Transfers.TargetsAgree` | lib/branch_resolve/branch_resolve.cpp:440-465 | they compute the same target and kind for every near relative transfer |
| `IdiomSound.FoldIsAlu` | lib/branch_resolve/branch_resolve.cpp:192-204 | the folding step is the processor's 64-bit result for all eight operations |
| `IdiomSound.ScanReaches` | lib/branch_resolve/branch_resolve.cpp:371-425 | from any state that holds the folded or loaded value, running the rest of a load-and-branch idiom ends at its target, with arithmetic of any width whose operands fit |
| `IdiomSound.PushImmReaches` | lib/branch_resolve/branch_resolve.cpp:311-343 | push and return, also with the upper half stored over the pushed value, end at the target |
| `IdiomSound.SlotReaches` | lib/branch_resolve/branch_resolve.cpp:481-505 | a jump or call through a static slot goes to the quadword the machine's memory holds there |
| `IdiomSound.IdiomIsSound` | lib/branch_resolve/branch_resolve.cpp:300-537 | for every jump or call with a destination, folded or read from a static slot, executing exactly the pattern's instructions from any registers ends at that destination, and a call leaves its return address on the stack |
| `IdiomSound.RegisterReaches` | lib/branch_resolve/branch_resolve.cpp:345-359 | where only a register can be given, executing the pattern ends at what that register holds before |
| `IdiomSound.ReturnReaches` | lib/branch_resolve/branch_resolve.cpp:508-516 | a near return ends at the quadword on top of the stack |
| `IdiomFound.ConstantIdiomFound` | lib/branch_resolve/branch_resolve.cpp:361-431 | a constant moved to a register, arithmetic on it and a branch through it, or a push of it and a return, within the limits, is reported with all its instructions and the processor's result as target |
| `IdiomFound.AddressIdiomFound` | lib/branch_resolve/branch_resolve.cpp:361-431 | so is a RIP-relative address taken and branched through |
| `IdiomFound.SlotIdiomFound` | lib/branch_resolve/branch_resolve.cpp:361-431 | and a register loaded from memory and branched through, with its slot and pointer size |
| `IdiomFound.PushPairFound` | lib/branch_resolve/branch_resolve.cpp:311-324 | a constant pushed and a return is reported with that constant as target |
| `IdiomFound.PushTripleFound` | lib/branch_resolve/branch_resolve.cpp:325-342 | with the upper half stored over it, with both halves joined |
| `IdiomFound.PushRegisterFound` | lib/branch_resolve/branch_resolve.cpp:345-359 | a register pushed and a return is reported with that register |
| `IdiomFound.LoadIdiomOnly` | lib/branch_resolve/branch_resolve.cpp:361-431 | whatever is reported at a move or an address is such an idiom |
| `IdiomFound.PushIdiomOnly` | lib/branch_resolve/branch_resolve.cpp:311-359 | whatever is reported at a push is one of the push idioms |
| `IdiomFound.CountFound` | lib/branch_resolve/branch_resolve.cpp:438-445 | jumps on a counter are reported as conditional, with their target |
| `IdiomFound.ConditionalFound` | lib/branch_resolve/branch_resolve.cpp:447-461 | so are jumps on a condition |
| `IdiomFound.JumpFound` | lib/branch_resolve/branch_resolve.cpp:447-461 | relative jumps, which end the run |
| `IdiomFound.CallFound` | lib/branch_resolve/branch_resolve.cpp:447-461 | relative calls, which push a return address |
| `IdiomFound.FarFound` | lib/branch_resolve/branch_resolve.cpp:463-479 | far jumps and calls, through memory or to offset and selector |
| `IdiomFound.IndirectFound` | lib/branch_resolve/branch_resolve.cpp:481-505 | near ones through a register or a slot, the latter with the jump table it may index |
| `IdiomFound.TableEntry` | lib/branch_resolve/branch_resolve.cpp:490-501 | the operand of a table jump is the entry the index register counts, from the start reported, or from base register and displacement |
| `IdiomFound.LeaveFound` | lib/branch_resolve/branch_resolve.cpp:508-535 | returns, traps and system transfers by their kinds and fall-through |
| `IdiomFound.NothingElseFound` | lib/branch_resolve/branch_resolve.cpp:433-537 | no other instruction is reported |
| `IdiomSound.MovFoldsIff` | lib/branch_resolve/branch_resolve.cpp:89-108 | a folded move is right for every old register value exactly for 32- and 64-bit registers |
| `IdiomSound.LeaFoldsIff` | lib/branch_resolve/branch_resolve.cpp:110-117 | a folded address is right for every old register value exactly for 64-bit registers and, if it is below 2^32, for 32-bit ones |
| `IdiomSound.BranchRegIff` | lib/branch_resolve/branch_resolve.cpp:206-216 | the register a branch is matched by is the one it goes through exactly if its REX2 bit is clear |
| `NarrowFold.NarrowFoldIff` | lib/branch_resolve/branch_resolve.cpp:192-204 | for all eight operations on 8-, 16- and 32-bit destinations and all operands: folding on 64 bits gives what the register holds if and only if a condition on the operands holds |
| `NarrowFold.NarrowArithIff` | lib/branch_resolve/branch_resolve.cpp:192-204 | the same for 32-bit operations on a value that a 32-bit move has left: sums that do not carry, AND always, masks without upper bits, shifts that lose nothing and do not depend on the width |
| `IdiomSound.ChainRuns` | lib/branch_resolve/branch_resolve.cpp:243-261 | if in every state on the way the code and the slots are what the recognizer has read, execution goes from hop to hop, through code and memory, to where the chain ends |
| `IdiomSound.ResolvedChainRuns` | lib/branch_resolve/branch_resolve.cpp:224-262 | under the same condition, a jump or call resolved with chains enabled ends at its final target |
| `IdiomSound.RecognizedChainRuns` | lib/branch_resolve/branch_resolve.cpp:300-537 | in particular one through memory that recognition has followed itself |
| `PagedMemory.DemandPagedMemory.Write` | include/vedx64/analysis.hpp:906-920 | a chunked write over any pages sets exactly its bytes, keeps other bytes of existing pages, zero-fills new ones and leaves the rest untouched |
| `PagedMemory.DemandPagedMemory.Read` | include/vedx64/analysis.hpp:890-904 | a chunked read returns the flat view, 0xCC where nothing was written |
| `PagedMemory.DemandPagedMemory.WriteUnsigned` | include/vedx64/analysis.hpp:927-930 | a written 8- to 64-bit value is the value at that address afterwards, also across a page boundary |
| `PagedMemory.DemandPagedMemory.ReadUnsigned` | include/vedx64/analysis.hpp:923-926 | a read of one to eight bytes is the little-endian value of the flat view |
| `PagedMemory.DemandPagedMemory.IsCommitted` | include/vedx64/analysis.hpp:881-888 | the loop asks for every page from the first to the last |
| `PagedMemory.FirstWrite` | include/vedx64/analysis.hpp:890-920 | after the first byte written, the rest of its page of 4096 bytes is zero, and everything else reads as 0xCC |
| `PagedMemory.WriteThenRead` | include/vedx64/analysis.hpp:892-920 | what was written is read back, across pages and around the end of the address space |
| `PagedMemory.WriteElsewhere` | include/vedx64/analysis.hpp:908-920 | a read that shares no byte and no new page with a write is not affected |
| `PagedMemory.TwoWrites` | include/vedx64/analysis.hpp:908-920 | of two writes the last wins byte by byte and the first shows elsewhere |
| `PagedMemory.CommittedIff` | include/vedx64/analysis.hpp:880-888 | the answer is right for every memory of whole pages exactly for non-empty ranges that do not wrap and empty ones at a page start |
| `PagedMemory.CommittedAround` | include/vedx64/analysis.hpp:880-888 | for a range that goes around the end of the address space the answer is yes exactly if it ends in a lower page or its first page exists |
| `Epilogue.SkipEpilogueBefore` | include/vedx64/analysis.hpp:737-759 | the earliest boundary of the sweep behind which every instruction is of epilogue kind, or the end if there is none or the sweep fails |
| `Epilogue.KindIff` | include/vedx64/analysis.hpp:746-751 | the instructions of epilogue kind, by mnemonic and by the bits of their first operand |
| `EpilogueBytes.EpilogueFound` | include/vedx64/analysis.hpp:737-759 | in every function assembled from pops, additions, `leave`, returns and moves over all registers, the epilogue found is the longest run at the end of pops, `leave`, returns and additions to RSP |
| `BackwardTrace.BackwardChain` | include/vedx64/analysis.hpp:1052-1071 | the loop computes the recursive trace |
| `BackwardTrace.TraceWay` | include/vedx64/analysis.hpp:1052-1071 | the trace goes back instruction by instruction, from one that names the register first, CMP and TEST aside, to its source, and reports the first such instruction that has none, or the beginning |
| `BackwardTrace.ReportedWrites` | include/vedx64/analysis.hpp:828-839 | in code where only CMP and TEST do not write their first operand, the instruction reported writes the register reported |
| `BackwardTrace.ReaderReported` | include/vedx64/analysis.hpp:828-839 | any other instruction that only reads its first operand is reported as a definition |
| `BackwardTrace.SameValueIff` | include/vedx64/analysis.hpp:1040-1071 | two registers at two times hold the same value in every execution, over instructions with any results, if and only if following moves and both sides of exchanges back leads to the same place |
| `BackwardTrace.TraceIsRightIff` | include/vedx64/analysis.hpp:1040-1071 | the traced register holds the value in every execution if and only if a cursor that follows the value and one that follows the code meet where the code stops |
| `BackwardTrace.TraceIsSound` | include/vedx64/analysis.hpp:1040-1071 | this is so if the trace forwards only through moves and exchanges of 64-bit registers and passes over nothing that changes the register it follows |
| `BackwardTrace.ExchangeMisread` | include/vedx64/analysis.hpp:830-839 | one exchange whose second operand is traced breaks this, two of them do not |
| `BackwardTrace.NarrowMisread` | include/vedx64/analysis.hpp:1058-1063 | every extension and every move of another register class breaks it |
| `BackwardTrace.HighByteMisread` | include/vedx64/analysis.hpp:830-839 | so does a write to the second byte of the register |
| `BackwardTrace.FurtherResultMisread` | include/vedx64/analysis.hpp:830-839 | so does every instruction that changes the register besides its first operand |
| `BackwardTrace.MulMisread` | lib/core/table.cpp:1570 | `mul rcx` traced from rax is one, traced from rdx it is right |

## Left out

- RoundTripIff: says nothing about hypothetical entries with a moffset next to a ModRM byte, an opcode register in the three-byte maps, or several immediates of which one has no fixed size.
- StableIff: asks that 0F3A entries have a ModRM byte and no relative or moffset operand, as all of the repository's do.
- RelocateBlock: requires that the rewrites stay inside the buffer.
- MovedBlockTargets: says nothing about instructions whose fields the code does not find, whose rewrite damages bytes that are none of theirs.
- CalcStolenBytes: requires that the fifteen bytes it decodes at each boundary can be read.
- TraceIsRightIff: which registers an instruction changes besides its first operand is given with the instruction, since the code has no list of them.
- EmitLongJcc: takes the difference of the two signed addresses exactly, where an overflow in C++ is undefined.
- NewLabel: ids are unbounded, so a wrap of the 32-bit counter is not modelled, and labels made before a clear are not used after it.
- EmittedOperandDecodes: registers are numbered 0 to 15.
- WalkCfg: the order in which blocks are found is not stated beyond each following one that leads to it.
- IdiomIsSound: asks for what `Faithful` says: the operand sizes in `Sized`, no VEX prefix and no upper REX2 register, fewer than four prefixes, flat memory operands, slots of eight bytes that still hold what was read, folds that fit, and code that the stores do not overwrite.
- Callbacks that read code and data are maps from addresses to bytes; a callback that changes its answers is not modelled.
- The contents of the generated table, the encoding names and the mnemonic list; the name filters of the lookup are two flags of a descriptor.
- Null pointers and descriptors, and prefix fields outside their encoded widths.
- Emulator, intermediate representation, symbolic execution, text assembler and hooks.
- The emitter methods for single instructions, VEX and EVEX emission, anchors and relocation placeholders, frame setup and teardown.
- Operands other than memory operands in the high-level instruction, formatting, bindings and tools.
- Prologue and call-stub matchers, jump-table detection and enumeration, and the one-line relocation queries.
