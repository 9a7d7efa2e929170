# Verified models of the Solidity/Yul to AVM front end

The compiler front end turns Solidity and Yul into AWST, the typed tree that the AVM backend
compiles. Its hard parts are lowerings that must keep EVM meaning and analyses whose answers
license dropping or shortening code. This project models both and proves them correct.

What is modelled is the meaning of the emitted code: byte strings, numbers, scratch slots and
control flow. AVM operations are partial (`extract3` and `replace3` fail out of range, 64-bit
addition fails on overflow, byte-string arithmetic rejects negative results and results over 512
bits, a stack value holds at most 4096 bytes), so every failure path is in the model. Where the
source updates state step by step the model does too: the encoder, the range copies, the
generators and the analyses are methods with loops or classes with fields, each proved against a
specification, and the theorems are about the specification.

`dafny verify dfyconfig.toml` checks everything.

## Files

| area | files |
|---|---|
| bytes and AVM operations | `Bytes` |
| canonical EVM ABI codec | `AbiSpec` (the Solidity "Formal Specification of the Encoding"), `AbiLayout`, `AbiLeafCodec`, `AbiEncoder`, `AbiDecoder`, `AbiRoundTrip`, `AbiInjective`, `AbiMemo`, `AbiRouter`, `AbiSharedName`, `AbiAcceptance` (what the decoder accepts and rejects), `AbiExample`, `AbiEndToEnd` |
| Yul control flow | `Awst`, `Yul`, `YulLowering`, `LoweringForms`, `YulBuilder`, `YulSimulation` |
| dead code | `DeadCode`, `Fallthrough` (the analysis is exact) |
| EVM memory in scratch slots | `FlatMemory`, `ScratchMemory`, `MemoryRanges`, `AlignedAccess`, `AlignedLocals`, `Allocator`, `BytesLocal` |
| analyses | `Alignment`, `FreeMemoryPointer`, `KnownResidues`, `MemTracker`, `TrackerSound`, `TrackerFolds`, `TrackerSimulation`, `TrackerLimits`, `TrackerCalldata`, `MutationAnalysis`, `TypeEquivalence` |
| numbers and text | `Word256`, `SignedWord`, `Base85` |

## What the proofs found

Some expected properties do not hold of the code as it is. Each is stated with a failing input and
the condition under which it does hold.

- `writeMemWordConst` and `readMemWordConst` check only the number of the first slot, after
  narrowing it to 32 bits. The address they use is the offset itself exactly below 2^43
  (`AliasExactly`); offset 2^44 is offset 0 (`FarAlias`). A word at the last 1 to 31 bytes of
  memory ends in the transient slot. `WriteWordConst` and `ReadWordConst` state what happens for
  every offset.
- `handleMstore8` asserts room for a whole word, so it fails in the last 31 bytes of memory, where
  the byte itself would fit (`Mstore8`).
- `writeMemRangeDyn` reads the word at the end of the range even when the range ends on a word
  boundary, so it needs one more word of memory than it writes (`Writable`). A range copy also
  fails beyond the 4096-byte stack limit (`Readable`, `Writable`).
- The decoder rejects byte strings and arrays longer than 65535, so a round trip fails exactly
  there, and with exactly that assertion (`RoundTrip`).
- The decoder does not look at the first 12 bytes of an external function pointer's word, which
  canonical encodings leave zero (`PointerPrefixIgnored`). Every other leaf word is accepted if and
  only if it is the canonical one (`LeafAccepts`), so a static type without function pointers is
  decoded from exactly its canonical encoding (`StaticIsCanonical`).
- A signed integer of more than 64 bits is encoded from the bytes that hold it by repeating their
  first bit. The word is right if and only if that bit is the sign (`LeafWordExactly`); a
  non-negative value in a byte string without leading zeros need not show it
  (`ShortSignedBreaks`). In a carrier of full width it does (`NativeWord`).
- Decode methods for arrays are keyed on canonical type names. Two array types with one canonical
  name share the first one's method, and the second then decodes wrongly (`SharedNameBreaks` in
  `AbiSharedName`); memoized decoding is inline decoding if and only if the types that share a name
  decode alike (`Routed`).
- The free-memory-pointer analysis recognises stores to 0x40 by a literal address only and accepts
  a block that moves the pointer to 5 through a computed one (`HiddenStoreBreaks`). In an accepted
  block the pointer stays aligned if and only if the writes it does not look at keep it so
  (`PointerStaysAligned`); blocks without such writes need no further condition
  (`HarmlessStaysAligned`). The analysis is keyed on variable names, which is safe because the
  compiler makes them unique first; `FreeMemoryPointer.SharedNameBreaks` shows what that pass is
  needed for.
- The memory-content tracker does not notice every write. After `let ok := staticcall(..)`,
  `ok := call(..)` or a call inside an expression it keeps words that the call overwrote
  (`CallBreaks`), and after a call of a recursive Yul function likewise (`SubroutineBreaks`). A
  builtin that writes memory is forgotten before its operands are translated, so what a function
  called in an operand stores is believed after the builtin has overwritten it (`OperandBreaks`).
  In each case the tracker stays right if and only if no tracked word shares a byte with what is
  written (`SilentExactly`, `ClobberExactly`).
- The translator takes some constant offsets for parameters. A constant `mload` at a calldata head
  offset reads the parameter (`CalldataBreaks`, `MloadExactly`), and so does each word of a constant
  `mcopy` (`CalldataMoveBreaks`, `MoveExactly`). `keccak256` hashes the fields of a struct local or
  of a struct parameter (`TupleHashBreaks`, `StructHashBreaks`), or, one word behind a head offset
  and with a run-time length, the parameter's bytes and the last stored value (`ParamHashBreaks`); a
  constant length is cut to 32 bits. It hashes memory if and only if it is none of these
  (`HashExactly`). A hash of run-time length also fails exactly when its range leaves its page
  (`ReadInSlot`).
- After an inlined function that leaves early the tracker may hold a store that was skipped
  (`EarlyLeaveBreaks`); it is right if and only if every entry it holds at the end of the body is
  true at every `leave` (`InlineExactly`). Folds are right if and only if they fit in 64 bits
  (`FoldExactly`); a constant store leaves a tracked word alone if and only if the two do not
  overlap (`StoreApartExactly`).
- `clean` collects all these conditions as a check on the block alone. Under it the emitted code runs
  as the block does, on flat memory, in every run (`FoldingPreservesRuns`).
- Storing a length at a bare bytes pointer takes the low eight bytes, so it is the general write
  only for values below 2^64 (`WriteLength`, `HugeLength`).
- A literal `signextend` index of 2^64 or more makes the compiler fail (`SignExtendLowered`).

## Model

| member | source | states |
|---|---|---|
| AbiLayout.EncLength | src/builder/abi/EvmAbiEncode.cpp:67-94 | every encoding is a multiple of 32 bytes, and a static encoding has exactly its head size |
| AbiLayout.HeadPlacement | src/builder/abi/EvmAbiEncode.cpp:74-88 | component i's head lies where the sizes of the heads before it add up to |
| AbiLayout.TailPlacement | src/builder/abi/EvmAbiEncode.cpp:84-94 | the tail of component i starts word-aligned at the offset its head holds and ends where the next tail starts, so tails tile the output without gap or overlap |
| AbiExample.DynamicExactly | src/builder/abi/EvmAbiEncode.cpp:67-94 | a type is dynamic if and only if, through fixed arrays, structs and tuples, it contains bytes, a string or a dynamic array |
| AbiExample.HeadSizeIs | src/builder/abi/EvmAbiEncode.cpp:67-94 | the head of a static type is 32 bytes for each of its words, that of a dynamic type is one word |
| AbiExample.SpecificationExample | src/builder/abi/EvmAbiEncode.cpp:62-95 | f(uint256, uint32[], bytes10, bytes) encodes, for all arguments, to the four heads with the offsets 0x80 and 0xa0 + 32n, then count and elements, then length, bytes and padding |
| AbiEncoder.Sequence | src/builder/abi/EvmAbiEncode.cpp:62-95 | the head/tail loop with its running offset produces enc of the argument list, and fails exactly when that does not fit the AVM's length limit |
| AbiEncoder.Value | src/builder/abi/EvmAbiEncode.cpp:98-138 | inlineValue and payload produce enc of a value of any type, words, byte strings, arrays, structs and tuples |
| AbiEncoder.Array | src/builder/abi/EvmAbiEncode.cpp:140-217 | the run-time element loop over heads, tails and tailoff produces enc of the array |
| AbiEncoder.Element | src/builder/abi/EvmAbiEncode.cpp:185-208 | one iteration extends heads, tails and tailoff by exactly one element, or some part exceeds the limit |
| Bytes.WordOfUint64 | src/builder/abi/EvmAbiEncode.cpp:32-37 | left-padding the eight itob bytes to 32 is the 32-byte big-endian word |
| AbiRoundTrip.LeafRoundTrip | src/builder/codec/EvmValueCodec.cpp:128-244 | decoding a leaf's canonical word passes its padding checks and returns the value, for integers of both signs and every width, bool, address, bytesN, enums and external function pointers |
| AbiAcceptance.LeafAccepts | src/builder/codec/EvmValueCodec.cpp:128-244 | on every 32-byte word, decoding returns a value if and only if the word is the canonical word of that value, for a function pointer from byte 12 on, and otherwise stops at the padding assertion |
| AbiAcceptance.PointerPrefixIgnored | src/builder/codec/EvmValueCodec.cpp:215-231 | function-pointer words that differ only in their first 12 bytes decode alike, so some that are not canonical are accepted |
| AbiLeafCodec.SignExtendIs | src/builder/codec/EvmValueCodec.cpp:108-127 | sign extension keeps the signed number of every byte string of 1 to 32 bytes |
| AbiLeafCodec.LeafWordExactly | src/builder/codec/EvmValueCodec.cpp:320-360 | from any bytes that hold a leaf value the encoder produces its canonical word if and only if a signed value of more than 64 bits shows its sign in the first byte |
| AbiLeafCodec.ShortSignedBreaks | src/builder/codec/EvmValueCodec.cpp:355-359 | 128 in a wide signed type, held in one byte, becomes the word of -128 |
| AbiLeafCodec.NativeWord | src/builder/codec/EvmValueCodec.cpp:246-295 | bytes of full width always give the canonical word |
| AbiRoundTrip.HeadDecodes | src/builder/abi/EvmAbiDecode.cpp:116-136 | a component of an encoded sequence is decoded from its head, through the offset when dynamic, without a bounds or alignment fault |
| AbiRoundTrip.BodyDecodes | src/builder/abi/EvmAbiDecode.cpp:168-199 | an encoding found anywhere in a blob decodes to its value, or to the 16-bit length fault exactly when a dynamic length does not fit |
| AbiRoundTrip.ElemsDecode | src/builder/abi/EvmAbiDecode.cpp:250-318 | the element loop reads back every element of an encoded array |
| AbiRoundTrip.ItemsDecode | src/builder/abi/EvmAbiDecode.cpp:375-413 | the field walk with its cursor reads back every field |
| AbiRoundTrip.RoundTrip | src/builder/abi/EvmAbiDecode.cpp:41-58 | decoding the encoding of any argument list returns it if and only if all dynamic lengths are at most 65535, and otherwise fires the length assertion and no other |
| AbiAcceptance.FetchesExactly | src/builder/abi/EvmAbiDecode.cpp:61-114 | a length or offset is read if and only if its word lies inside the blob and is below 2^64, and then it is the number of that word |
| AbiAcceptance.BodyAccepts | src/builder/abi/EvmAbiDecode.cpp:138-199 | on every blob, canonical or not, decoding returns v if and only if the blob denotes v there: every leaf word canonical, every range inside the blob, every length at most 65535, every offset followed a multiple of 32 |
| AbiAcceptance.HeadAccepts | src/builder/abi/EvmAbiDecode.cpp:116-136 | a component is accepted through its head if and only if it is static and denoted in place, or its offset is a multiple of 32 and leads to it |
| AbiAcceptance.ElemsAccept | src/builder/abi/EvmAbiDecode.cpp:250-318 | the element loop accepts a list if and only if each element is denoted at its own position |
| AbiAcceptance.ItemsAccept | src/builder/abi/EvmAbiDecode.cpp:375-413 | the field walk accepts a list if and only if each field is denoted at its own position |
| AbiAcceptance.DenotesTyped | src/builder/abi/EvmAbiDecode.cpp:138-199 | whatever is accepted is a value of the type |
| AbiAcceptance.StaticIsCanonical | src/builder/abi/EvmAbiDecode.cpp:138-166 | a static value without function pointers is accepted only from its canonical encoding |
| AbiAcceptance.DecodeIsCanonical | src/builder/abi/EvmAbiDecode.cpp:41-58 | a list of such values that is decoded at all was given in its canonical encoding |
| AbiInjective.EncodingInjective | src/builder/abi/EvmAbiEncode.cpp:62-95 | two argument lists of one type whose encodings are equal and below 2^64 bytes are the same list, whatever their lengths |
| AbiMemo.RunIsInline | src/builder/abi/EvmAbiDecode.cpp:201-248 | calling a shared method computes what inlining the decoder of the type computes, at every position, blob and call depth, also when the method belongs to another type that decodes alike |
| AbiMemo.InlineIsDecoder | src/builder/abi/EvmAbiDecode.cpp:138-199 | on non-recursive types inline decoding with struct references is the decoder of the resolved type |
| AbiRouter.Router.Generate | src/builder/abi/EvmAbiDecode.cpp:335-372 | the name is registered before the body is built; generation ends for recursive types, keeps earlier names and leaves the tables right |
| AbiRouter.Router.Value | src/builder/abi/EvmAbiDecode.cpp:138-166 | the code for a use of a type calls registered names only, and names are never changed |
| AbiRouter.TablesDefineOnce | src/builder/abi/EvmAbiDecode.cpp:207-247 | every registered name is defined by exactly one pending method |
| AbiRouter.Routed | src/builder/abi/EvmAbiDecode.cpp:329-372 | for any list of uses sharing the tables, of types recursive or not, the generated code and methods give the result of inline decoding on every input if the array types sharing a name decode alike, and only then when every type is used; no method is defined twice |
| AbiRouter.DecodesOnlyAlike | src/builder/abi/EvmAbiDecode.cpp:214-218 | if all uses decode right, then those that share a canonical name decode alike |
| AbiEndToEnd.RoutedRoundTrip | src/builder/abi/EvmAbiDecode.cpp:201-372 | the generated code turns a value's canonical encoding, anywhere in a blob, back into the value, or stops at the length assertion exactly when a length does not fit |
| AbiEndToEnd.RoutedAccepts | src/builder/abi/EvmAbiDecode.cpp:201-372 | on every blob the generated code returns a value if and only if the blob denotes that value of the resolved type |
| AbiEndToEnd.Transfer | src/builder/abi/EvmAbiEncode.cpp:272-280 | encoding with the loops, generating the decode methods and running them returns the value exactly when encoding and lengths fit |
| AbiSharedName.UseBoth | src/builder/abi/EvmAbiDecode.cpp:214-218 | two array types with one canonical name call one and the same method, whose owner is the first one used |
| AbiSharedName.SharedNameBreaks | src/builder/abi/EvmAbiDecode.cpp:214-246 | with S1[] = uint256 structs used first, the code for the same-named S2[] = bool structs returns 2 on a blob that decoding S2[] must reject |
| DeadCode.TerminatesIsSound | src/awst/Termination.hpp:26-58 | a statement judged always-terminating never ends normally, in any run |
| Fallthrough.TerminatesExactly | src/awst/Termination.hpp:26-58 | a statement is judged always-terminating if and only if no run of its shape, with tests, scrutinees, counts and actions chosen freely, ends normally |
| DeadCode.RemoveDeadCode | src/awst/Termination.hpp:71-87 | the in-place loop leaves the pruned statement list |
| DeadCode.VisitChildren | src/awst/StatementWalk.h:17-42 | every child block of every container is pruned, and nothing else changes |
| DeadCode.BlockVerdict | src/awst/Termination.hpp:62-67 | pruning changes no answer of blockAlwaysTerminates |
| DeadCode.PrunedExec | src/awst/Termination.hpp:71-87 | pruning changes the outcome of no run: same state, same exit, same failure, same divergence |
| DeadCode.PrunedIsClean | src/awst/Termination.hpp:80-85 | in the output nothing follows a terminator, at any depth |
| Fallthrough.PrunedIsReachable | src/awst/Termination.hpp:71-87 | in the output every statement, at any depth, is reached by some run of that shape: no unreachable code is left |
| Fallthrough.KeptExactly | src/awst/Termination.hpp:80-85 | a statement of a list is kept if and only if every statement before it may be fallen through |
| Fallthrough.LatchedIsCut | src/builder/assembly/AssemblyBuilder.cpp:234-260 | whatever follows the lowering of statements that latch the halt flag is cut by pruning |
| DeadCode.PrunedIsIdempotent | src/awst/Termination.hpp:71-87 | pruning twice is pruning once |
| YulBuilder.AssemblyBuilder.DrainPending | src/builder/assembly/ControlFlowOps.cpp:19-25 | the statements queued from an index on move to the output in order, the rest stay queued |
| YulBuilder.AssemblyBuilder.BuildIf | src/builder/assembly/ControlFlowOps.cpp:27-85 | the emitted statements are the lowering of the if, with the revert collapse, and pending list, post block and halt flag are as before |
| YulBuilder.AssemblyBuilder.BuildFor | src/builder/assembly/ControlFlowOps.cpp:87-157 | the emitted statements are the lowering of the loop in both condition forms, with the leave test after it |
| YulBuilder.AssemblyBuilder.BuildLoopBody | src/builder/assembly/ControlFlowOps.cpp:109-121 | body then post, with the post block remembered for every continue inside and forgotten afterwards |
| YulBuilder.AssemblyBuilder.BuildContinue | src/builder/assembly/ControlFlowOps.cpp:167-179 | a continue repeats the enclosing loop's post block before it continues |
| YulBuilder.AssemblyBuilder.BuildLeave | src/builder/assembly/ControlFlowOps.cpp:181-197 | a leave raises the flag, if there is one, and exits the innermost loop; outside an inlined function it adds nothing |
| YulBuilder.AssemblyBuilder.BuildSwitch | src/builder/assembly/ControlFlowOps.cpp:199-303 | scrutinee and labels as 32-byte words, one block per case, the default apart |
| YulBuilder.AssemblyBuilder.BuildStatement | src/builder/assembly/StatementOps.cpp:22-58 | every statement form is translated to its lowering, and the halt flag is latched by exactly the statements that revert or stop outright |
| YulBuilder.LatchesExactly | src/builder/assembly/AssemblyBuilder.cpp:234-260 | the halt flag is latched if and only if a revert or stop is translated in place, loop initializers and nested blocks included, or a continue repeats a post block that has one |
| LoweringForms.NoFlagWithoutLeave | src/builder/assembly/ControlFlowOps.cpp:181-197 | code lowered without a leave flag neither sets nor tests one, at any depth |
| LoweringForms.RevertCollapses | src/builder/assembly/ControlFlowOps.cpp:27-60 | a conditional revert becomes one assertion of the negated condition and no branch |
| LoweringForms.LoopForm | src/builder/assembly/ControlFlowOps.cpp:123-157 | a loop tests its condition in place if and only if the condition leaves nothing pending |
| YulBuilder.LatchIsSound | src/builder/assembly/AssemblyBuilder.cpp:234-260 | when the halt flag is latched no run of the translated statements ends normally, so what is left out behind them is unreachable |
| YulSimulation.LastWordIsNumber | src/builder/assembly/ControlFlowOps.cpp:230-246 | comparing the last 32 bytes with a label is comparing the numbers, for scrutinees of any byte length |
| YulSimulation.LoopUnfolds | src/builder/assembly/ControlFlowOps.cpp:125-144 | both loop forms run the condition's pending statements before every test |
| YulSimulation.IterationSimulates | src/builder/assembly/ControlFlowOps.cpp:112-119 | one lowered iteration does what body and post do, however the body ends |
| YulSimulation.StmtSimulates | src/builder/assembly/ControlFlowOps.cpp:27-303 | every statement's lowering ends as the statement does: same world, same kind of exit, same revert, same fuel |
| YulSimulation.FunctionSimulates | src/builder/assembly/UserFunctionOps.cpp:219-285 | an inlined function body, with its wrapper loop and leave flag, ends as the Yul call does |
| YulSimulation.LoweredAndPruned | src/awst/Termination.hpp:71-87 | lowering followed by dead-code removal still ends as the Yul call does, and the code is clean |
| ScratchMemory.Scratch.constructor | src/builder/ScratchLayout.h:41-49 | memory pages come first and start as zeros |
| ScratchMemory.Scratch.ReservedSlots | src/builder/ScratchLayout.h:47-73 | pages, transient slot and ten flash slots are the slots 0 to n+10 without a gap, all below the function splitter's |
| ScratchMemory.Scratch.ReadStackRange | src/builder/assembly/MemoryOps.cpp:182-239 | inside memory a read is the flat slice and fails exactly when it would span three pages; beyond memory it returns what the slot there holds, and fails beyond the last slot; a residue that rules out crossing may drop the second arm |
| ScratchMemory.Scratch.ReadInSlot | src/builder/assembly/DataOps.cpp:375-405 | the bytes hashed for a run-time length are the flat range if and only if it stays in its page |
| ScratchMemory.Scratch.ReadWord | src/builder/assembly/MemoryOps.cpp:141-159 | the bounds assertion and then the flat word |
| ScratchMemory.Scratch.ReadWordConst | src/builder/assembly/MemoryOps.cpp:75-98 | for every offset, of the address that the narrowed slot number gives: the flat word inside memory, failure beyond it, and in between a tail from the transient slot if that is long enough |
| ScratchMemory.AliasExactly | src/builder/assembly/MemoryOps.cpp:78 | narrowing the slot number leaves the offset alone if and only if it is below 2^43 |
| ScratchMemory.FarAlias | src/builder/assembly/MemoryOps.cpp:104 | an access at offset 2^44 is an access at offset 0 |
| ScratchMemory.Scratch.WriteWord | src/builder/assembly/MemoryOps.cpp:320-401 | exactly the flat write when the word fits, in one slot or two, with or without known alignment; nothing else changes |
| ScratchMemory.Scratch.WriteWordConst | src/builder/assembly/MemoryOps.cpp:100-139 | for every offset, of the address that the narrowed slot number gives: the flat write inside memory, nothing beyond it, and in between the end of the word lands in the transient slot, or fails there with the first part written |
| ScratchMemory.Scratch.WriteByte | src/builder/assembly/MemoryOps.cpp:403-438 | exactly one byte changes |
| ScratchMemory.Scratch.Mstore8 | src/builder/assembly/MemoryOps.cpp:979-1013 | the low byte is written if and only if a whole word would fit |
| MemoryRanges.ReadRange | src/builder/assembly/MemoryHelpers.cpp:127-186 | the word loop returns exactly the bytes of the range, and fails exactly when rounded words do not fit |
| MemoryRanges.WriteRange | src/builder/assembly/MemoryHelpers.cpp:188-248 | exactly the bytes of the value change, the kept tail is what was there |
| MemoryRanges.Copy | src/builder/assembly/MemoryHelpers.cpp:127-248 | memmove: for any overlap the destination receives the source's old bytes |
| MemoryRanges.Run | src/builder/assembly/MemoryOps.cpp:59-139 | for every sequence of loads, stores and moves at any alignment the loads return the flat slices, the pages hold the flat memory and no other slot changes |
| Alignment.DecimalMod32 | src/builder/assembly/AssemblyBuilder.cpp:788-800 | the digit loop gives the number's residue for any number of digits, and nothing for a non-decimal |
| Alignment.ResidueIsSound | src/builder/assembly/AssemblyBuilder.cpp:933-1018 | a residue the analysis gives is the value's residue modulo 32, also after narrowing to eight bytes |
| KnownResidues.ResidueExactly | src/builder/assembly/AssemblyBuilder.cpp:933-1018 | a residue is given if and only if the offset is built from decimal constants and recorded locals by sums and differences, products with a known multiple of 32, remainders by one and word shifts |
| AlignedAccess.GuardExactly | src/builder/assembly/MemoryOps.cpp:191-202 | the guard for dropping the second-slot arm holds if and only if no offset with that residue crosses a page |
| AlignedAccess.ReadWordAt | src/builder/assembly/MemoryOps.cpp:141-239 | reading with the arm that the residue analysis drops is the general read, for every offset expression with a value |
| AlignedAccess.WriteWordAt | src/builder/assembly/MemoryOps.cpp:161-180 | writing with the split arm dropped for residue 0 is the general write |
| AlignedLocals.LoweredIsSound | src/builder/assembly/AssemblyBuilder.cpp:933-1018 | the residue of the lowered form of a Yul expression holds of every value it may have in a run |
| AlignedLocals.RecordSound | src/builder/assembly/StatementOps.cpp:174-205 | recording or erasing one more declaration, with or without a value, leaves a record of aligned locals that is true at every step of every run |
| AlignedLocals.RecordAll | src/builder/assembly/StatementOps.cpp:129-205 | the same for declarations visited in any order and any number of times |
| KnownResidues.PointerRecorded | src/builder/assembly/StatementOps.cpp:174-205 | in an accepted block the local of mload(0x40) is recorded, and a local n bytes beyond it if and only if n is a multiple of 32 |
| AlignedLocals.ReadInRun | src/builder/assembly/MemoryOps.cpp:141-239 | a read that drops the second-slot arm because of the record is the general read at every step of every run of the block |
| AlignedLocals.WriteInRun | src/builder/assembly/MemoryOps.cpp:161-180 | the same for a write that drops its split arm |
| FreeMemoryPointer.StaysAligned | src/builder/assembly/AssemblyBuilder.cpp:869-931 | the two-pass walk accepts exactly when every literal store to 0x40 anywhere in the block has residue 0 |
| FreeMemoryPointer.ResidueIsSound | src/builder/assembly/AssemblyBuilder.cpp:815-867 | the residue of a Yul expression holds of every value it may have in a run, under 256-bit wrap-around and bitwise and |
| KnownResidues.YulResidueExactly | src/builder/assembly/AssemblyBuilder.cpp:815-867 | a residue is given if and only if the expression is built from literals, pointer locals, decimal constants and mload(0x40) by sums and differences, products with a known multiple of 32 and masks that are one |
| KnownResidues.BumpAccepted | src/builder/assembly/AssemblyBuilder.cpp:895-912 | mstore(0x40, add(mload(0x40), n)) is accepted if and only if n is a multiple of 32 |
| KnownResidues.LocalBumpAccepted | src/builder/assembly/AssemblyBuilder.cpp:876-912 | so is the same through a local bound to mload(0x40) |
| KnownResidues.WithinIsClosed | src/builder/assembly/AssemblyBuilder.cpp:869-931 | the walk reaches the statements of the block and every statement inside one it reaches |
| KnownResidues.WithinIsLeast | src/builder/assembly/AssemblyBuilder.cpp:869-931 | the walk reaches no other statements |
| FreeMemoryPointer.PointerStaysAligned | src/builder/assembly/AssemblyBuilder.cpp:869-931 | in every run of an accepted block, with any values for names from outside, the pointer and every local bound to it are multiples of 32 at every step if and only if the writes other than literal stores keep it so |
| FreeMemoryPointer.HarmlessStaysAligned | src/builder/assembly/CoreTranslation.cpp:154-173 | in an accepted block whose other statements use no builtin that writes memory, or store at a literal address away from 0x40, the pointer stays aligned in every run |
| FreeMemoryPointer.HiddenStoreBreaks | src/builder/assembly/AssemblyBuilder.cpp:895-908 | the analysis accepts mstore(add(0x20, 0x20), 5), which moves the pointer to 5 |
| FreeMemoryPointer.SharedNameBreaks | src/builder/SolcFacts.cpp:144-146 | why names are made unique first: with one name in two scopes the analysis would accept a block whose run moves the pointer to 5 |
| MemTracker.Constants.Invalidate | src/builder/assembly/AssemblyBuilder.cpp:530-540 | the sweep removes the memory entries and keeps all others |
| MemTracker.Constants.RecordStore | src/builder/assembly/MemoryOps.cpp:947-963 | the table after a store is that of the tracker: recorded, killed or all forgotten |
| TrackerSound.YulSound | src/builder/assembly/DataOps.cpp:128-228 | a resolved Yul expression has the resolved value, by the EVM's arithmetic, in every state the tracker is right about; locals of inlined frames are never resolved |
| TrackerSound.OffsetSound | src/builder/assembly/AssemblyBuilder.cpp:543-595 | a resolved lowered offset has the resolved value in every such state, addmod, mulmod and divisors bound to literals included |
| TrackerSound.FoldExactly | src/builder/assembly/DataOps.cpp:196-209 | a 64-bit fold is the EVM's 256-bit result if and only if the exact result lies in 64 bits |
| TrackerFolds.EvalIsEvm | src/builder/assembly/ArithmeticOps.cpp:68-199 | the value of an operation on words is what the emitted 256-bit arithmetic computes, addmod and mulmod included |
| TrackerFolds.YulResolves | src/builder/assembly/DataOps.cpp:128-228 | a Yul expression resolves if and only if it is built by add, sub, mul and mload from 64-bit literals, recorded locals and known words |
| TrackerFolds.YulValues | src/builder/assembly/DataOps.cpp:196-228 | a literal resolves to itself, a local to its record, a sum or difference to that of its operands wrapped at 64 bits, a load to the known word |
| TrackerFolds.YulProduct | src/builder/assembly/DataOps.cpp:196-209 | a product resolves to a * b below 2^64, and beyond it to that less a multiple of 2^64 |
| TrackerFolds.OffsetResolves | src/builder/assembly/AssemblyBuilder.cpp:543-595 | a lowered offset resolves if and only if it is built by add, mul, mod, addmod and mulmod from 64-bit literals and recorded locals, with divisors known not to be zero |
| TrackerFolds.OffsetValues | src/builder/assembly/AssemblyBuilder.cpp:566-590 | sums, products and remainders resolve to those of their operands |
| TrackerFolds.ReducedValues | src/builder/assembly/AssemblyBuilder.cpp:566-590 | addmod and mulmod resolve to the remainder of the sum or product when that fits in 64 bits |
| TrackerFolds.DeclarationRecords | src/builder/assembly/StatementOps.cpp:129-205 | a declaration records its name if and only if the value resolves and the name is never assigned, and touches no other entry |
| TrackerFolds.ParameterRecords | src/builder/assembly/UserFunctionOps.cpp:219-285 | a parameter of an inlined call is recorded if and only if its lowered argument resolves and it is never assigned |
| TrackerFolds.StoreRecords | src/builder/assembly/MemoryOps.cpp:947-963 | a store at a constant offset is emitted there, its word is known afterwards if and only if the value resolves, and all other words stay known |
| TrackerFolds.HashFolds | src/builder/assembly/DataOps.cpp:277-297 | the hash of a constant stored earlier is emitted as a literal, whatever declarations, assignments, conditional reverts and stores at other constant offsets come between |
| TrackerSound.LowerSound | src/builder/assembly/DataOps.cpp:229-494 | folding offsets, hashes and loads changes the value of no expression when folds fit and no load or hash is taken from a parameter; a folded hash is the hash of the word in memory |
| TrackerSimulation.StmtRight | src/builder/assembly/ControlFlowOps.cpp:78-123 | the translation of a statement runs as the statement does, afterwards what the tracker holds is true, and a run that leaves does so at a leave all of whose entries are true |
| TrackerSimulation.MoveRuns | src/builder/assembly/StatementOps.cpp:859-912 | the unrolled mcopy, words first and then the tail, is a memmove for any overlap when no word is taken from calldata |
| TrackerSimulation.LoopRight | src/builder/assembly/ControlFlowOps.cpp:96-123 | one translation of a loop serves every iteration |
| TrackerSimulation.InlineRuns | src/builder/assembly/UserFunctionOps.cpp:219-285 | the emitted inlined call runs as the call does; after a leave the tracker is right if and only if its entries are true there |
| TrackerSimulation.FoldingPreservesRuns | src/builder/assembly/ControlFlowOps.cpp:255-300 | a block translated from an empty tracker runs as the original from every state, and every word the tracker still holds is the word in memory |
| TrackerLimits.StoreApartExactly | src/builder/assembly/MemoryOps.cpp:947-963 | a store leaves another word alone, whatever is stored, if and only if they do not overlap |
| TrackerLimits.SilentExactly | src/builder/assembly/StatementOps.cpp:74-79 | across a call whose result is bound, assigned or nested the tracker stays right, whatever is written, if and only if no tracked word shares a byte with what the call may write |
| TrackerLimits.ClobberExactly | src/builder/assembly/StatementOps.cpp:674-715 | after the operands of a builtin that writes memory the tracker is right, whatever is written, if and only if no word tracked by then shares a byte with it |
| TrackerLimits.OperandBreaks | src/builder/assembly/StatementOps.cpp:674-715 | after mstore8(off, f()), where f stores v at off, the translation hashes v where memory holds another word |
| TrackerLimits.CallBreaks | src/builder/assembly/StatementOps.cpp:74-79 | after mstore(0, a) mstore(0x20, b) and a bound identity call onto 0x20 the translation hashes b where memory holds a |
| TrackerLimits.SubroutineBreaks | src/builder/assembly/UserFunctionOps.cpp:45-107 | after mstore(0, a) and a recursive function that stores b the translation hashes a where memory holds b |
| TrackerCalldata.MloadExactly | src/builder/assembly/MemoryOps.cpp:33-46 | a constant load is lowered rightly in every state if and only if its offset is no calldata head offset |
| TrackerCalldata.CalldataBreaks | src/builder/assembly/CalldataMapOps.cpp:72-98 | a load of a word just stored at a calldata head offset gives the parameter |
| TrackerCalldata.HashExactly | src/builder/assembly/DataOps.cpp:229-494 | a hash of memory is lowered to one for every hash function in every state if and only if no struct or parameter pattern applies and its constant length fits |
| TrackerCalldata.ParamHashBreaks | src/builder/assembly/DataOps.cpp:343-373 | one word behind a head offset a hash of run-time length is that of the parameter's bytes and the last stored value |
| TrackerCalldata.StructHashBreaks | src/builder/assembly/DataOps.cpp:456-485 | at the head offset of a struct a hash of its size is that of its fields |
| TrackerCalldata.TupleHashBreaks | src/builder/assembly/DataOps.cpp:241-273 | a hash at a struct local of its size is that of its fields |
| TrackerCalldata.MoveExactly | src/builder/assembly/StatementOps.cpp:865-879 | a constant mcopy moves memory in every state if and only if none of its source words is at a head offset |
| TrackerCalldata.CalldataMoveBreaks | src/builder/assembly/StatementOps.cpp:865-879 | mcopy of the word at a head offset copies the parameter |
| TrackerLimits.InlineExactly | src/builder/assembly/UserFunctionOps.cpp:219-285 | the tracker is right after every run of an inlined call if and only if every entry it holds at the end of the body is true at every leave |
| TrackerLimits.EarlyLeaveBreaks | src/builder/assembly/UserFunctionOps.cpp:219-285 | after a function that leaves early the tracker holds the skipped value b where memory has a, and the check on the block rejects it unless a = b |
| TrackerSimulation.KnownWord | src/builder/assembly/DataOps.cpp:283-297 | the byte loop of the hash fold builds the 32-byte big-endian word |
| Allocator.Heap.BumpBy | src/builder/assembly/AssemblyBuilder.cpp:295-329 | the pointer moves by the size, the range passed is a new region, a size of zero or less does nothing |
| Allocator.Heap.AllocRange | src/builder/assembly/AssemblyBuilder.cpp:331-370 | the old pointer is returned and the rounded size becomes a region, or the program stops and nothing changed |
| Allocator.Heap.AllocBuffer | src/builder/assembly/AssemblyBuilder.cpp:372-413 | the length word is stored at the region's start and is still there afterwards |
| Allocator.Heap.Run | src/builder/assembly/AssemblyBuilder.cpp:295-413 | after any sequence of allocations all regions are disjoint, at or above 0x80 and below the pointer, all stored lengths are intact and the word at 0x40 is exact |
| Allocator.PackedDisjoint | src/builder/assembly/AssemblyBuilder.cpp:295-413 | no byte belongs to two regions |
| Allocator.PlayGrows | src/builder/assembly/AssemblyBuilder.cpp:295-413 | the pointer never goes down, regions are never lost, and whole-word bumps keep it aligned |
| BytesLocal.ReadWord | src/builder/assembly/MemoryOps.cpp:662-718 | the guarded read returns the word of the image at any offset, header or data |
| BytesLocal.Write | src/builder/assembly/MemoryOps.cpp:526-660 | the guarded word or byte write yields the local that the overwritten image denotes |
| BytesLocal.WriteLength | src/builder/assembly/MemoryOps.cpp:720-778 | the bare-pointer length write is the image write at offset 0 of the low eight bytes |
| BytesLocal.HugeLength | src/builder/assembly/MemoryOps.cpp:720-778 | a length of 2^64 or more denotes no local |
| BytesLocal.ReadBack | src/builder/assembly/MemoryOps.cpp:526-718 | a word written through the pointer is read back as far as the local reaches |
| MutationAnalysis.Discover | src/builder/ParameterMutationAnalysis.cpp:333-367 | discovery ends on cyclic call graphs and adds only reachable functions, with all their callees |
| MutationAnalysis.DiscoverAll | src/builder/ParameterMutationAnalysis.cpp:333-367 | discovery from a root finds exactly the reachable functions |
| MutationAnalysis.Propagate | src/builder/ParameterMutationAnalysis.cpp:369-391 | the do-while ends, marks only parameters with a mutation path, and leaves a marking no call site extends |
| MutationAnalysis.MutatedIsLeast | src/builder/ParameterMutationAnalysis.cpp:369-391 | marking by paths is the least fixed point of the call-site rule |
| MutationAnalysis.Summarize | src/builder/ParameterMutationAnalysis.cpp:322-397 | a parameter is marked if and only if a chain of calls hands it to a function that changes it |
| MutationAnalysis.Analysis.AnalyzeFrom | src/builder/ParameterMutationAnalysis.cpp:322-397 | the answer does not depend on the cache, a miss enters exactly the reachable functions, and no entry ever changes |
| MutationAnalysis.Analysis.Queries | src/builder/ParameterMutationAnalysis.cpp:329-396 | over any sequence of queries the answers are those of independent analyses |
| TypeEquivalence.EquivalentImpl | src/awst/WType.cpp:11-101 | ends on every finite type graph; equal types get true, and a true answer leaves only matching pairs in the seen-set |
| TypeEquivalence.StructurallyEquivalent | src/awst/WType.cpp:105-109 | true if and only if no finite unfolding tells the types apart, if and only if they are bisimilar, if and only if along every path of references the nodes agree in kind, mutability and every attribute; a true answer for two nodes means equal attributes |
| TypeEquivalence.OutlineExactly | src/awst/WType.cpp:33-100 | what is compared of a node is its kind, mutability, sizes, names, aliases, frozen flag and field names, all of them and nothing else |
| TypeEquivalence.NodeDetermined | src/awst/WType.cpp:33-100 | these attributes and the references determine the node |
| TypeEquivalence.SameIsAgreement | src/awst/WType.cpp:11-109 | two types are the same if and only if they agree in every attribute along every path of references |
| TypeEquivalence.SameIsBisimilar | src/awst/WType.cpp:11-109 | equal unfoldings to every depth and a bisimulation are the same thing |
| TypeEquivalence.NaiveIsSame | src/awst/WType.cpp:33-100 | on acyclic types the answer is naive structural equality, attribute by attribute |
| TypeEquivalence.SameIsEquivalence | src/awst/WType.cpp:105-109 | the decision is reflexive, symmetric and transitive |
| Word256.ArithmeticLowered | src/builder/assembly/ArithmeticOps.cpp:68-199 | add, mul, sub, div, mod, addmod and mulmod equal the EVM's on all words and no step underflows or exceeds 512 bits, with and without the zero guard |
| Word256.BitSetIs | src/builder/assembly/BitwiseShiftOps.cpp:410-439 | setting one bit of 32 zero bytes is the power of two |
| Word256.ShiftsLowered | src/builder/assembly/BitwiseShiftOps.cpp:456-516 | shl and shr equal EIP-145 for every amount |
| Word256.ByteLowered | src/builder/assembly/BitwiseShiftOps.cpp:518-545 | byte equals the EVM's for every index, also beyond 64 bits |
| Word256.NotLowered | src/builder/assembly/ArithmeticOps.cpp:269-281 | complementing the padded bytes is the maximum minus the number |
| Word256.Exp | src/builder/assembly/ArithmeticOps.cpp:142-160 | the constant fold by squaring is the power modulo 2^256 |
| Word256.ExpRuntime | src/builder/sol-eb/BigUIntMathHelpers.cpp:207-292 | the emitted loop computes the power modulo 2^256 and no product exceeds 512 bits |
| SignedWord.SarLowered | src/builder/assembly/SignedOps.cpp:193-233 | shift-and-fill with a bitwise or equals sar for every word and every amount |
| SignedWord.SdivLowered | src/builder/assembly/SignedOps.cpp:60-92 | sdiv equals the truncated quotient of the signed values, also for a zero quotient with a negative sign and for the smallest value over -1 |
| SignedWord.SmodLowered | src/builder/assembly/SignedOps.cpp:94-121 | smod equals what the truncated quotient leaves |
| SignedWord.TruncatedLeaves | src/builder/assembly/SignedOps.cpp:94-121 | the remainder is smaller than the divisor and has the dividend's sign |
| SignedWord.NegateIs | src/builder/assembly/SignedOps.cpp:37-58 | negation is two's complement, zero included |
| SignedWord.SignExtendLowered | src/builder/assembly/BitwiseShiftOps.cpp:547-609 | the literal and the run-time path both compute signextend on all words and indices, except that a literal index of 2^64 or more fails |
| Base85.Encode | src/json/Base85.hpp:29-78 | the emitted string spells the base-85 digits of the data, group by group, in the alphabet whose 85 codes `AlphabetAt` fixes |
| Base85.AlphabetAt | src/json/Base85.hpp:18-19 | the code of the character for each of the 85 digits |
| Base85.AlphabetExactly | src/json/Base85.hpp:18-19 | a character occurs if and only if its code is 33 to 126 and it is none of the nine that RFC 1924 leaves out |
| Base85.EncodedLength | src/json/Base85.hpp:55-75 | five characters per four bytes, and one more than the bytes left over |
| Base85.RoundTrip | src/json/Base85.hpp:29-78 | every byte string can be decoded from its digits, short last group included |
| Base85.EncodingInjective | src/json/Base85.hpp:29-78 | different byte strings have different encodings |
| Base85.AlphabetIsDistinct | src/json/Base85.hpp:18-19 | the 85 characters are distinct |

## Left out

- AbiEncoder.Value: takes leaf values in carriers of full width; how they are read from ARC4 aggregates is not modelled.
- AbiMemo.RunIsInline: recursive types decode to a given call depth, because a cyclic blob would make the source's decoder run until the AVM stops it.
- AbiRouter.Routed: the converse is stated for lists of uses that include every type that occurs; a use that never reaches a shared name is not affected by it.
- FreeMemoryPointer.PointerStaysAligned: names are unique, which `SolcFacts` guarantees by disambiguating every block; the analysis rejects some blocks whose pointer does stay aligned, since it never looks at which statements run.
- TrackerSimulation.FoldingPreservesRuns: `clean` is exact for each cause, while for early leaves it compares with what was held at every `leave` in the text; the exact condition over runs is `InlineExactly`. Both programs run on flat memory, where accesses past the end fail; how accesses reach slots, what offsets of 2^64 or more do and what a constant store in the last 31 bytes does is stated in `ScratchMemory` and `AlignedAccess`. Loop conditions have no calls.
- TrackerSound.OffsetSound: Yul `div` and `shr` are lowered to conditionals, so the division rule of the resolver is never reached from them.
- YulSimulation.StmtSimulates: expressions are given by what they mean and what they were lowered to, assumed faithful; how expression lowering orders effects is not modelled. Switch scrutinees are numbers, not bools.
- Recursive Yul functions compiled to subroutines, beyond what a call of one may do to memory, and `leave` inside them.
- Goto and labelled blocks in dead-code removal.
- `slt` and `sgt`, whose operands may carry 64-bit or 256-bit sign bits; `and`, `or`, `xor` on byte strings of unequal length.
- `calldatacopy` in statement position, whose write is queued and emitted with the next statement that drains the queue; locals bound to ERC-1967 slots, which are folded at every use.
- `handleReturn`, what the payloads of `revert` and logs contain, what precompile calls compute, calldata and storage routing.
- The Solidity scan that finds direct mutations and resolves calls: call edges are input to `MutationAnalysis`.
- Hash functions are parameters.
- Command line, JSON serialization, artifacts, logging and the options writer.
