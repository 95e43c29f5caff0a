# A verified model of the compiler's core

This project models, in Dafny, the parts of the compiler whose correctness is hardest to see, and proves what they
promise for all inputs and all runs. `dafny verify dfyconfig.toml` checks it.

- **Arbitrary-precision integers** (`Power`, `Limbs`, `LimbLoops`, `Decimal`, `Int`). `Int.Anyint` is the class of the
  source: a sign and little-endian 64-bit limbs changed in place. Every limb loop is a loop with 128-bit intermediates
  of type `u128`, so that their not overflowing is part of what is verified, and every operation is proved against the
  integers: its contract gives `Val()` of the result and `Valid()`, the canonical form that makes structural equality
  value equality. Bit operators are stated bit by bit in infinite two's complement.
- **Constant folding** (`ConstantFolding`). Wrapping to a width, characterised from both sides, and the theorem that
  wrapping at every node of a nest of Add, Sub and Mul is wrapping once at the end.
- **Concurrent interning** (`VirtualDynArray`, `ShardIndex`, `ShardedIndexMap`, `OperationRuns`). The arena's push is a step machine
  with one atomic access a step; the sharded map runs it under its shard locks, together with lock, search, link and
  unlock steps of any number of threads. Every operation is logged where it takes effect, and the log is proved to be
  a linearization (under sequential consistency): a legal history of a plain map that does each operation at once,
  holding exactly the operations that have taken effect, each once and with its result, in real-time order. From every
  reached state the operations also come to their end by their own thread's steps, with exactly the plain map's answer,
  and panic exactly when their shard is full.
- **Expression parser** (`Parser`). The class with its offset, layer stack and parenthesis stack is proved against
  functions on token streams, and these are proved sound and complete for a grammar, compared with a reference that
  splits at the rightmost weakest operator, and composed with a printer.
- **Jobs** (`ModuleDiscovery`, `DiscoveryRuns`, `ModuleAnalysis`, `AnalysisJobs`, `JobRuns`). Import discovery as a
  concurrent worklist, which terminates with the import closure in every interleaving; the claim of a module's
  analysis; and the main loop's exit test over named references of the shared `Arc`, sound and always reachable.
- **Captures** (`IndexMap`, `Captures`). The append-only index map, symbol resolution over scopes, the tunnelling of
  captures through nested namespaces, and the second pass that sees only capture lists and indices.
- **Line index** (`LineIndex`). The line table with binary search and the scanning `line_col`.
- **Memory layout** (`Layout`). Layout of every runtime type, with the loops over fields and payloads, and the offsets
  the type-info code works out a second time.

Machines are stated as `Enabled`/`Next` over a state, invariants are proved for every step, and theorems quantify
over every finite run (`Trace`/`After`). A panic of the source is a state, an error result or `None`. It is a
precondition only where the source asserts or unwraps what its callers have made sure of: a radix between 2 and 36, a
positive width, a divisor other than zero, a supported pointer width, and enough namespaces above a capture, which
`Captures.CaptureRoot` shows of every symbol that is captured.

## What the proofs brought to light

- A group may begin with `(` only when its content is itself a group, because all consecutive `(` are taken at once
  and then closed one by one. `((a) + b)` is rejected, and `d * ((a + b) * c)` has no accepted spelling at all.
  `Parser.ExpressibleIff` says exactly which trees can be written.
- Committing memory is commented as harmless when done twice, but the subtraction before it can go below zero when
  pushes overlap. It cannot under a shard lock, and `VirtualDynArray.CommitsNeverUnderflowIff` shows that otherwise it
  cannot exactly when one commit granule covers the capacity. The arena of type-info entries, pushed to under several
  locks, does not underflow for that reason only. Apart from the underflow overlapping commits are harmless indeed:
  every slot is in committed memory when it is written, in every run (`VirtualDynArray.WritesCommitted`).
- `Index::new` checks its limits in debug builds only. `ShardIndex.RoundTripsIff` shows these limits are exactly what
  the encoding needs; the shard count is the machine's parallelism rounded up and is not limited to 64 elsewhere.
- Reserved indices beyond the capacity are never published, so at rest `initialized` is the smaller of `len` and
  the capacity.
- If two initial modules had one path, the earlier one would never be parsed (`ModuleDiscovery.AllListedIff`).
- Rounding to alignment 0 panics, so a void field of a standard struct or a void array element has no layout
  (`Layout.LayoutExistsIff`); void payloads of unions are skipped. An integer type's size need not be a multiple of
  its alignment: 24 bits have size 3 and alignment 4.

## Model

| member | source | states |
|---|---|---|
| LimbLoops.AddAbs | src/int.rs:145-163 | the limb loop with 128-bit carries returns exactly the sum of the two magnitudes |
| LimbLoops.SubAbs | src/int.rs:165-183 | the borrow loop returns exactly the difference when the right magnitude is not larger |
| LimbLoops.MulLimbs | src/int.rs:529-563 | schoolbook multiplication returns exactly the product; every 128-bit intermediate fits |
| LimbLoops.MulRow | src/int.rs:529-563 | one row adds a limb times the right operand at its position and touches nothing below |
| LimbLoops.PropagateCarry | src/int.rs:529-563 | the trailing carry loop ends inside the result and leaves exactly the row's total |
| LimbLoops.ProductFits | src/int.rs:529-563 | a product fits the sum of the operands' lengths |
| LimbLoops.DivRemWord | src/int.rs:224-242 | dividing limb by limb from the top gives quotient and remainder with 0 <= remainder < divisor |
| LimbLoops.ShlLimbs | src/int.rs:256-279 | shifting left with OR-ed limb halves is multiplication by 2^n |
| LimbLoops.ShlHalves | src/int.rs:256-279 | the two halves OR-ed into neighbouring limbs are disjoint and add up to the limb times 2^n |
| LimbLoops.ShrLimbs | src/int.rs:281-304 | shifting right with OR-ed limb halves is floor division by 2^n |
| LimbLoops.ShrWord | src/int.rs:281-304 | each result limb is exactly the word of the shifted number, the OR-ed halves being disjoint |
| LimbLoops.NegateWords | src/int.rs:336-380 | inverting the limbs and adding one yields the words of the negated value |
| LimbLoops.Increment | src/int.rs:336-380 | the carry loop of the increment yields the words of the number plus one |
| LimbLoops.SignBit | src/int.rs:361-380 | the top bit of a two's-complement window is set exactly for negative values |
| LimbLoops.SignedValueWindow | src/int.rs:361-380 | every limb sequence is the two's-complement window of its signed value |
| LimbLoops.WindowBit | src/int.rs:336-393 | inside and beyond the window, bit k of a number is a bit of a limb of its window |
| LimbLoops.BitwiseBits | src/int.rs:382-393 | operating word by word on two windows operates on every bit of infinite two's complement |
| LimbLoops.ZipWords | src/int.rs:382-393 | each result limb is the operator on the two limbs |
| Int.CompareFromTopOrders | src/int.rs:109-117 | comparing lengths and then limbs from the top orders trimmed magnitudes as integers |
| Int.BitCountFits | src/int.rs:70-94 | a bit length at most n means the value is below 2^n, and conversely |
| Int.StructuralEquality | src/int.rs:402-420 | on canonical values equality of the fields is equality of the numbers, so Eq and Hash agree |
| Int.TruncLaws | src/int.rs:565-599 | a = (a/b)*b + a%b, abs(a%b) < abs(b), the remainder has the sign of a |
| Int.TruncUnique | src/int.rs:565-599 | sign and magnitude of quotient and remainder fixed by the sign rules are the truncating ones |
| Int.Anyint.Normalize | src/int.rs:100-107 | keeps the value and makes the limbs canonical: no zero limb on top, no negative zero |
| Int.Anyint.ToU64 | src/int.rs:63-68 | gives the value exactly when it is non-negative and fits 64 bits |
| Int.Anyint.AbsCmp | src/int.rs:109-117 | is the order of the magnitudes |
| Int.Anyint.AbsCmpPow2 | src/int.rs:119-143 | is the order of the magnitude and 2^bit |
| Int.Anyint.SignificantBits | src/int.rs:70-75 | is the bit length of the magnitude |
| Int.Anyint.FitsUnsignedBits | src/int.rs:77-82 | holds exactly on 0 <= x < 2^bits |
| Int.Anyint.FitsSignedBits | src/int.rs:84-94 | holds exactly on -2^(bits-1) <= x < 2^(bits-1) |
| Int.Anyint.Eq | src/int.rs:402-408 | is equality of the integers on canonical values |
| Int.Anyint.Cmp | src/int.rs:422-433 | is the order of the integers |
| Int.Anyint.AddSmallAssign | src/int.rs:185-203 | adds a word to the magnitude in place |
| Int.Anyint.MulSmallAssign | src/int.rs:205-222 | multiplies the magnitude by a word in place |
| Int.Anyint.DivRemSmall | src/int.rs:224-242 | quotient and remainder of the magnitude by a word |
| Int.Anyint.SetBit | src/int.rs:244-254 | adds 2^bit to a magnitude whose bit is clear |
| Int.Anyint.AbsShl | src/int.rs:256-279 | multiplies by 2^shift, keeping the sign |
| Int.Anyint.AbsShr | src/int.rs:281-304 | floor-divides the magnitude by 2^shift |
| Int.Anyint.Neg | src/int.rs:470-487 | is negation and stays canonical, zero included |
| Int.Anyint.Add | src/int.rs:489-516 | is integer addition in all sign cases, canonical |
| Int.Anyint.Sub | src/int.rs:518-527 | is integer subtraction, canonical |
| Int.Anyint.Mul | src/int.rs:529-563 | is integer multiplication, canonical |
| Int.Anyint.DivRemAbs | src/int.rs:306-334 | bit-serial long division: exact quotient and remainder of the magnitudes on every path |
| Int.Anyint.DivideBit | src/int.rs:306-334 | one bit of the division keeps prefix = quotient * divisor + remainder with remainder < divisor |
| Int.Anyint.Div | src/int.rs:565-581 | is division truncating toward zero |
| Int.Anyint.Rem | src/int.rs:583-599 | is the remainder with the sign of the dividend |
| Int.Anyint.TwosComplementLimbs | src/int.rs:336-359 | gives the low words of the number in infinite two's complement |
| Int.Anyint.FromTwosComplementLimbs | src/int.rs:361-380 | reads a window back as its signed value, canonical |
| Int.Anyint.Bitwise | src/int.rs:382-393 | every bit of the result is the operator applied to that bit of both operands in infinite two's complement |
| Int.Anyint.BitwiseUnique | src/int.rs:382-393 | that result is the only integer whose k-th binary digit, floor(z / 2^k) mod 2, is the operator on the operands' for every k |
| Power.BitFormula | src/int.rs:336-393 | bit k of infinite two's complement is floor(x / 2^k) mod 2, for negative numbers too |
| Power.BitsDetermineNumber | src/int.rs:361-380 | integers with the same bits in infinite two's complement are equal |
| Int.Anyint.BitAnd | src/int.rs:601-610 | bit k of a & b is 1 exactly when both are, for every k and every sign |
| Int.Anyint.BitOr | src/int.rs:612-621 | bit k of the bitwise or is 1 exactly when either is |
| Int.Anyint.BitXor | src/int.rs:623-632 | bit k of a ^ b is 1 exactly when they differ |
| Int.Anyint.Not | src/int.rs:634-640 | flips every bit of infinite two's complement |
| Int.Anyint.Shl | src/int.rs:642-651 | is multiplication by 2^n for both signs |
| Int.Anyint.Shr | src/int.rs:653-672 | is floor division by 2^n for both signs |
| Int.Anyint.FloorOfNegative | src/int.rs:653-672 | -((abs(x) + 2^n - 1) >> n) is the floor of x / 2^n for negative x |
| Int.Anyint.Display | src/int.rs:444-468 | terminates and writes the decimal numeral of the magnitude, after a minus sign exactly for negative values |
| Int.Anyint.ParseRadix | src/int.rs:36-57 | accepts exactly underscores and digits of the radix, and returns their positional value |
| Decimal.DigitAlphabet | src/int.rs:36-57 | a byte is the digit d exactly when it stands at position d of the lower-case or the upper-case alphabet of 36 digits |
| Decimal.ParsePrinted | src/int.rs:444-468 | the numeral of every natural number is canonical, without leading zeros, and reads back as that number |
| Decimal.PositionalSum | src/int.rs:36-57 | the value of a numeral is the sum of its digits, each times the power of the radix its place gives it |
| Decimal.PrintParsed | src/int.rs:444-468 | every numeral without underscores and leading zeros is printed back unchanged |
| ConstantFolding.WrapIntValue | src/compile_unit/sema.rs:3398-3462 | returns the machine value of its type: congruent to the input modulo 2^width, in [-2^(width-1), 2^(width-1)) for isize and signed types, in [0, 2^width) for usize and unsigned ones, unchanged for the others; it passes the matching fits test |
| ConstantFolding.MachineValueUnique | src/compile_unit/sema.rs:3398-3462 | an exact result has one machine value in each type |
| ConstantFolding.WrapCharacterised | src/compile_unit/sema.rs:3398-3462 | the wrapped value is the one number congruent modulo 2^bits inside the range |
| ConstantFolding.RemainderModulo | src/compile_unit/sema.rs:3436-3443 | a truncating remainder moved up when negative is the residue in [0, 2^bits) |
| ConstantFolding.FoldArithmetic | src/compile_unit/sema.rs:3320-3327 | Add, Sub and Mul fold to the machine value of lhs + rhs, lhs - rhs and lhs * rhs |
| ConstantFolding.NestIsMachineValue | src/compile_unit/sema.rs:3320-3327 | folding a nest gives, in every type, the machine value of what the nest is worth over the integers |
| ConstantFolding.FoldingIsMachineArithmetic | src/compile_unit/sema.rs:3320-3327 | wrapping at every node of a nest equals wrapping once at the end |
| VirtualDynArray.InvNext | src/common/containers/virtual_dyn_array.rs:91-126 | every atomic step of every thread keeps the arena's invariant |
| VirtualDynArray.InvRun | src/common/containers/virtual_dyn_array.rs:91-126 | in every interleaving the invariant holds, history only grows and published slots keep their value |
| VirtualDynArray.IndicesUnique | src/common/containers/virtual_dyn_array.rs:91-126 | no two pushes ever get the same index, whenever they run and whether by one thread or two, and a push called after another has returned gets a larger one |
| VirtualDynArray.ReturnedIsReadable | src/common/containers/virtual_dyn_array.rs:91-166 | once push returned, get of its index gives its own value in every later state |
| VirtualDynArray.SomePublisherProceeds | src/common/containers/virtual_dyn_array.rs:113-123 | while something is unpublished, the holder of the next index exists and its compare-and-swap succeeds |
| VirtualDynArray.NextIndexGetsPublished | src/common/containers/virtual_dyn_array.rs:91-126 | whenever something within capacity is unpublished, the thread that reserved the next index publishes its value by its own steps alone, unless its commit underflows |
| VirtualDynArray.PanicsBeyondCapacity | src/common/containers/virtual_dyn_array.rs:95-100 | a push panics only when its index lies at or beyond the capacity |
| VirtualDynArray.GetFinds | src/common/containers/virtual_dyn_array.rs:150-166 | get finds exactly the published indices, each with the value pushed to it |
| VirtualDynArray.Quiescence | src/common/containers/virtual_dyn_array.rs:91-126 | with no push under way everything within capacity is published; initialized = len exactly without overflow |
| VirtualDynArray.CommitEndCovers | src/common/containers/virtual_dyn_array.rs:199-204 | the commit end of an index lies beyond it, within capacity, and is the capacity or a multiple of the granularity at most one granule away |
| VirtualDynArray.CommitInvNext | src/common/containers/virtual_dyn_array.rs:189-210 | serialised pushes keep committed memory one growing prefix |
| VirtualDynArray.WritesCommitted | src/common/containers/virtual_dyn_array.rs:104-126 | in every run, pushes overlapping or not, a slot lies in committed memory and within capacity when it is written |
| VirtualDynArray.SerialCommits | src/common/containers/virtual_dyn_array.rs:189-210 | in every serialised run no commit underflows, and commits are contiguous, growing and within capacity |
| VirtualDynArray.CommitsNeverUnderflowIff | src/common/containers/virtual_dyn_array.rs:205-207 | without serialisation the subtraction stays in range in every run exactly when one granule covers the capacity |
| VirtualDynArray.TypeInfoArenaSafe | src/compile_unit.rs:539 | the arena pushed to under several locks never underflows and writes only committed slots, in every run |
| ShardIndex.PackFields | src/common/containers/sharded_index_map.rs:51-73 | packing a shard below 64 and a 26-bit local index is unambiguous; NONE only for the last slot of shard 63 |
| ShardIndex.AndMask | src/common/containers/sharded_index_map.rs:69-73 | masking with 2^p - 1 is the remainder by 2^p |
| ShardIndex.RoundTripsIff | src/common/containers/sharded_index_map.rs:56-73 | every slot reads back from its index exactly when there are at most 64 shards of at most 2^26 slots |
| ShardIndex.NeverNoneIff | src/common/containers/sharded_index_map.rs:47-78 | within those limits the sentinel is never issued unless shard 63 can be filled completely |
| ShardedIndexMap.ShardOfInRange | src/common/containers/sharded_index_map.rs:294-301 | the shard of a key is its hash modulo the number of shards |
| ShardedIndexMap.SearchAnswers | src/common/containers/sharded_index_map.rs:167-217 | a locked search finds a key exactly when the plain map has it, at its index |
| ShardedIndexMap.SwapRefines | src/common/containers/sharded_index_map/entry.rs:34-48 | inserting over a present key swaps its value and returns the previous one |
| ShardedIndexMap.LinkRefines | src/common/containers/sharded_index_map/entry.rs:123-137 | inserting an absent key adds exactly that key with its value at its new index |
| ShardedIndexMap.LinkLegal | src/common/containers/sharded_index_map/entry.rs:123-137 | a new index is of the key's shard and unused by any other key |
| ShardedIndexMap.PushesSerial | src/common/containers/sharded_index_map.rs:167-197 | the shard lock serialises the pushes to the shard's arena |
| ShardedIndexMap.InvNext | src/common/containers/sharded_index_map.rs:157-217 | every step of every thread keeps the invariant, and the log only grows |
| ShardedIndexMap.Linearizable | src/common/containers/sharded_index_map.rs:157-217 | in every run the log is a legal history of a plain atomic map that holds each operation that has taken effect exactly once and no other, a finished one with its own result, one under way as the operation that was called; later logs extend it |
| ShardedIndexMap.RealTimeOrder | src/common/containers/sharded_index_map.rs:157-217 | an event lies in the part of the log written so far exactly when its operation has taken effect, so what has finished precedes whatever is called afterwards |
| ShardedIndexMap.HistoryNext | src/common/containers/sharded_index_map.rs:157-217 | every step keeps the log holding exactly the operations that have taken effect, each once |
| ShardedIndexMap.ReplayStable | src/common/containers/sharded_index_map.rs:157-217 | in the plain map a key keeps its index for good and indices are never shared |
| ShardedIndexMap.IndicesMatchKeys | src/common/containers/sharded_index_map.rs:157-217 | in every run equal keys get equal indices, distinct keys distinct ones, each with the shard of its key's hash |
| ShardedIndexMap.IssuedIndexReadable | src/common/containers/sharded_index_map.rs:244-277 | a lock-free read of an issued index gives its key and current value in every later state |
| ShardedIndexMap.IssuedIndexNotNone | src/common/containers/sharded_index_map.rs:43-78 | an issued index is not the sentinel within the stated limits |
| ShardedIndexMap.PushesStayCommitted | src/common/containers/virtual_dyn_array.rs:189-210 | under the shard lock no commit underflows and every slot is written in committed memory |
| OperationRuns.RunsToCompletion | src/common/containers/sharded_index_map/entry.rs:34-48 | in every reached state an operation called while its shard is unlocked runs to its end by its own thread's steps and frees the lock: a lookup answers the plain map, a present key keeps its index (insert swaps the value), an absent one gets the slot numbered by its shard's keys and joins the map, or panics exactly when these fill the shard |
| OperationRuns.LockIsReleased | src/common/containers/sharded_index_map.rs:167-197 | a thread inside its critical section always finishes by its own steps and frees the lock; one that found its key absent adds it at the next slot whenever there is one |
| OperationRuns.VacantRun | src/common/containers/sharded_index_map/entry.rs:123-137 | a vacant entry is inserted at the number of pushes so far, while these are below the capacity |
| OperationRuns.PanicsOnlyWhenFull | src/common/containers/virtual_dyn_array.rs:95-100 | in every run an operation panics only after more pushes to its shard than it has slots, and then as many keys of the plain map hash to the shard |
| OperationRuns.KeysCounted | src/common/containers/sharded_index_map.rs:157-217 | an unlocked shard holds as many keys of the plain map as pushes were made to it, or as it has slots |
| Parser.KindToken | src/frontend/parser.rs:1725-1762 | every operator kind has its own token and parses with its left binding power, the right one being one above |
| Parser.OperatorsListed | src/frontend/parser.rs:1731-1758 | a token is an infix operator of a kind exactly when it is listed with it in the table of levels, from `or` up to the multiplicative operators |
| Parser.LevelOrder | src/frontend/parser.rs:1731-1758 | binding powers order the operators exactly as these levels do |
| Parser.LevelsGroup | src/frontend/parser.rs:1677-1762 | a t1 b t2 c groups to the left exactly when t1 is listed at the level of t2 or at a stronger one |
| Parser.PrefixesBindTightest | src/frontend/parser.rs:1816-1896 | each of the six prefix operators binds tighter than any infix one, on either side of it |
| Parser.AssignmentStops | src/frontend/parser.rs:1700 | an operator followed by `=` is not taken into the expression |
| Parser.NothingIff | src/frontend/parser.rs:1677-1722 | there is no expression exactly when the token begins none: no atom, no parenthesis, no prefix operator; every other failure is an error |
| Parser.TokenKind | src/frontend/parser.rs:1725-1762 | every infix token stands for one operator kind |
| Parser.PrecedenceSound | src/frontend/parser.rs:1677-1722 | a successful parse is a well-formed tree whose in-order yield is exactly the tokens consumed, and no operator that binds follows |
| Parser.PrefixSound | src/frontend/parser.rs:1816-1896 | stacked prefix operators wrap the primary from the inside out, over exactly the tokens consumed |
| Parser.PrimarySound | src/frontend/parser.rs:1942-1970 | a group holds the expression between its parentheses, over exactly the tokens consumed |
| Parser.PrecedenceReads | src/frontend/parser.rs:1677-1722 | the tokens of every well-formed tree are parsed back to it, whatever follows that does not bind into it |
| Parser.GroupReads | src/frontend/parser.rs:1942-1970 | parentheses in a row are closed one by one around their common content |
| Parser.ParsesIff | src/frontend/parser.rs:1677-1722 | the parser returns tree e up to j exactly when those tokens are the yield of a well-formed e and nothing binding follows |
| Parser.SpellsYield | src/frontend/parser.rs:1677-1722 | tokens spell a tree exactly when they are its in-order yield |
| Parser.ReferenceReads | src/frontend/parser.rs:1677-1762 | splitting at the rightmost operator of the weakest level gives a well-formed tree with the same tokens |
| Parser.FlatParses | src/frontend/parser.rs:1677-1762 | every flat sequence of operands and operators is consumed in full and parsed to that reference tree |
| Parser.PrintReads | src/frontend/parser.rs:1677-1722 | grouping where precedence demands it gives a well-formed tree with the original content, for printable trees |
| Parser.WrittenIsPrintable | src/frontend/parser.rs:1942-1970 | whatever groups are added, a tree the grammar can write is printable |
| Parser.PrintParses | src/frontend/parser.rs:1942-1970 | printing and parsing gives the same tree exactly when nothing that needs a group begins with another group |
| Parser.ExpressibleIff | src/frontend/parser.rs:1942-1970 | some token sequence parses to the tree, groups aside, exactly under that condition |
| Parser.NestedOperandUnprintable | src/frontend/parser.rs:1942-1970 | d * ((a + b) * c) has no accepted spelling |
| Parser.DoubleParenRejected | src/frontend/parser.rs:1942-1970 | ((a) + b) is rejected |
| Parser.ExprParser.ParseExprPrecedence | src/frontend/parser.rs:1677-1722 | the loop moving the offset computes the specified tree and offset, or fails, for every token stream |
| Parser.ExprParser.ParsePrefixExpr | src/frontend/parser.rs:1816-1896 | the layer stack computes the specified prefix expression and offset |
| Parser.ExprParser.ParsePrimaryExpr | src/frontend/parser.rs:1898-1940 | groups and atoms as specified, nothing consumed otherwise |
| Parser.ExprParser.ParseGroupExpr | src/frontend/parser.rs:1942-1970 | the parenthesis stack computes the specified group and offset |
| Parser.ExprParser.InfixOperator | src/frontend/parser.rs:1725-1762 | consumes one token exactly when it is an infix operator |
| ModuleDiscovery.InitialTable | src/compile_unit.rs:505-513 | the table built from the initial modules maps each of their paths to the last module with it |
| ModuleDiscovery.InvNext | src/compile_unit.rs:777-911 | every step of every parsing job keeps the invariant |
| ModuleDiscovery.ReadOnce | src/compile_unit.rs:777-911 | in every run each module is read at most once, set-once fields are never set again, and the path table stays injective and consistent |
| ModuleDiscovery.DiscoversClosure | src/compile_unit.rs:855-911 | whatever the interleaving, discovery ends with exactly the import closure, in which a file that parses imports the path resolved for each of its imports but root, std and builtin; each listed module was read once and has a VUIR exactly when its file parses |
| ModuleDiscovery.TargetsAre | src/compile_unit.rs:857-868 | a job looks up exactly the paths its file imports |
| DiscoveryRuns.DiscoveryTerminates | src/compile_unit.rs:777-911 | when the imports stay within finitely many files, no interleaving takes more than two steps for each import and four for each file, and every reached state can be continued until nothing is left to do |
| DiscoveryRuns.StopsOnlyWhenDone | src/compile_unit.rs:777-911 | a run in which no job can step any more has left no job and nothing to launch |
| DiscoveryRuns.FailuresReported | src/compile_unit.rs:777-850 | discovery ends with exactly the listed modules reported as failed whose file cannot be read or parsed, each once |
| ModuleDiscovery.AllListedIff | src/compile_unit.rs:488-513 | every module is listed, and so parsed, exactly when the initial paths are distinct |
| ModuleAnalysis.InvNext | src/compile_unit.rs:699-743 | every step of every caller keeps the claim invariant |
| ModuleAnalysis.AdvancesNext | src/compile_unit.rs:699-743 | a module never returns to Pending, its claimer never changes and a stored value stays |
| ModuleAnalysis.OneAnalysisForAll | src/compile_unit.rs:699-743 | at most one caller analyses a module, nobody reads Pending after losing the claim, the namespace is published once, and all callers get the same result |
| ModuleAnalysis.ReturnsTheAnalysis | src/compile_unit.rs:719-724 | the value a call returns is the one an analysis of its module gave in that run |
| ModuleAnalysis.CallReturns | src/compile_unit.rs:699-743 | in every reached state a call returns by its own steps alone unless another one is analysing its module, which then finishes by its own |
| AnalysisJobs.InvNext | src/compile_unit.rs:618-634 | every step of closures and main loop keeps the invariant |
| AnalysisJobs.ClaimedOnce | src/compile_unit.rs:753-773 | in every run no unit is claimed twice or analysed by two closures, and no function is pushed or lowered twice |
| AnalysisJobs.CountIsExact | src/compile_unit.rs:618-634 | the reference count is one more than the closures live or being spawned |
| AnalysisJobs.OnlyMainIsLeft | src/compile_unit.rs:618-634 | once the count is one, no closure exists and none can be created |
| AnalysisJobs.ExitIsFinal | src/compile_unit.rs:618-634 | when the loop exits nothing is live or can start, every unit is Done, and everything pushed was lowered |
| AnalysisJobs.QueueFirstLosesTask | src/compile_unit.rs:620 | reading the queue before the count would lose a pushed function in some run |
| AnalysisJobs.ExitSoundIff | src/compile_unit.rs:620 | the exit test is sound in every run exactly because the count is read first |
| JobRuns.ExitIsReachable | src/compile_unit.rs:618-634 | from every reached state some continuation takes every closure to its end and the main thread out of its loop |
| JobRuns.TestSucceeds | src/compile_unit.rs:620 | with one reference left and an empty queue the two halves of the exit test succeed |
| IndexMap.InternedOnce | src/common/containers/index_map.rs:46-68 | interning keeps keys distinct and keeps every issued index |
| IndexMap.IndexUnique | src/common/containers/index_map.rs:58-68 | among distinct keys the index of a key is its position |
| IndexMap.Map.Find | src/common/containers/index_map.rs:58-68 | finds a key exactly when it is present, at its index |
| IndexMap.Map.OrInsert | src/common/containers/index_map/entry.rs:46-57 | a present key keeps index and value, a new one gets the next index |
| IndexMap.Map.Insert | src/common/containers/index_map/entry.rs:29-44 | swaps the value of a present key and returns the old one |
| IndexMap.Map.Append | src/common/containers/index_map/entry.rs:105-115 | a vacant insert appends the slot and links it |
| Captures.CaptureRoot | src/ir/vuir/from_ast.rs:514-572 | a captured symbol is its nearest visible declaration, and the capture starts in the outermost namespace between the two |
| Captures.NamespaceScopeOvershoots | src/ir/vuir/from_ast.rs:584-602 | asked from a namespace scope itself the capture would start in the namespace the declaration stands in, outside of it, or panic when there is none |
| Captures.OriginsGrow | src/common/containers/index_map/entry.rs:105-115 | issued capture indices keep their meaning as captures are added |
| Captures.InternKeeps | src/ir/vuir/from_ast.rs:605-617 | entering a capture keeps the invariant, keeps captures distinct, and its index stands for the instruction |
| Captures.PopPasses | src/ir/vuir/from_ast.rs:2581-2600 | the capture list a namespace leaves resolves under the one above it |
| Captures.PassFindsOriginal | src/compile_unit/sema.rs:345-382 | at any nesting depth the second pass, seeing only lists and indices, finds the original instruction of every CaptureGet, and no list holds a duplicate |
| Captures.Lowering.ResolveSymbol | src/ir/vuir/from_ast.rs:514-572 | the nearest scope that settles the symbol decides: a namespace that declares it gives a declaration, a value gives itself, captured exactly when namespaces lie in between, with their number; nothing is found exactly when no scope settles it |
| Captures.LookupMeans | src/ir/vuir/from_ast.rs:514-572 | the same of the resolution the lemmas are about, for every scope and symbol |
| Captures.MeaningUnique | src/ir/vuir/from_ast.rs:514-572 | a symbol has one meaning in a scope |
| Captures.Lowering.CapturePath | src/ir/vuir/from_ast.rs:584-602 | the namespaces a capture goes through, outermost first |
| Captures.Lowering.Tunnel | src/ir/vuir/from_ast.rs:605-619 | the index entered in the nearest namespace stands for the original instruction |
| Captures.Lowering.CaptureOuterScopeInst | src/ir/vuir/from_ast.rs:574-620 | constants pass through; otherwise the CaptureGet's index stands for the instruction and every issued index keeps its meaning |
| Captures.Lowering.LowerIdent | src/ir/vuir/from_ast.rs:731-743 | a used symbol whose nearest value is an instruction beyond a namespace becomes a CaptureGet of it; the resolution is the symbol's meaning |
| Captures.Lowering.Push | src/ir/vuir/from_ast.rs:2531-2542 | pushing a scope keeps every capture resolvable |
| Captures.Lowering.Pop | src/ir/vuir/from_ast.rs:2581-2606 | popping a namespace leaves its capture list in the enclosing one, still resolvable |
| LineIndex.StartsIncreasing | src/ir/vuir/from_ast.rs:3003-3021 | the line table is strictly increasing |
| LineIndex.StartsPrefix | src/ir/vuir/from_ast.rs:3003-3021 | the starts of a prefix are a prefix of the table, later ones lie beyond it |
| LineIndex.ComputeLineStarts | src/ir/vuir/from_ast.rs:3003-3021 | collects exactly the starts of all lines |
| LineIndex.SearchFindsLine | src/ir/vuir/from_ast.rs:326-330 | any result the binary search may give leads to the offset's line |
| LineIndex.StartLineCol | src/ir/vuir/from_ast.rs:321-334 | line and column from the table are those of the offset |
| LineIndex.ScanLineCol | src/common/span.rs:50-72 | line and column from scanning are those of the offset |
| LineIndex.BothAgree | src/common/span.rs:36-72 | table and scan agree on every offset of every text |
| LineIndex.LineColMeans | src/common/span.rs:50-72 | the line is one more than the bytes 10 before the offset, the column the distance to the last of them or to the start |
| LineIndex.LineColInjective | src/common/span.rs:50-72 | line and column determine the offset |
| Layout.NextMultiple | src/value.rs:1248 | rounding up to an alignment gives the least multiple not below |
| Layout.StructFields | src/value.rs:1242-1256 | fields are aligned, disjoint and inside, each as close to the one before as its alignment allows; the size is a multiple of the alignment, itself a power of two, with less than one alignment of padding |
| Layout.ScalarSizes | src/value.rs:1200-1237 | sizes and alignments of the types without parts, in bytes, pointers and slices by the target's width, integers in the fewest whole bytes |
| Layout.ArrayElements | src/value.rs:1215-1221 | an array of n is n strides, the stride being the least multiple of the alignment that holds an element; every element is aligned and inside |
| Layout.PackedSizes | src/compile_unit/sema.rs:1293-1401 | the bits of a packed field by type; a packed struct has its fields' bits in the fewest whole bytes |
| Layout.StructTypeFields | src/value.rs:1239-1264 | the same for every struct type without void fields, nested types included |
| Layout.LayOutStruct | src/value.rs:1242-1256 | the loop over the fields computes that layout, and stops at an alignment of 0 |
| Layout.TypeInfoOffsets | src/compile_unit/sema.rs:4855-4866 | the type-info code gives every field the offset of the layout, and panics for exactly the structs the layout panics for |
| Layout.PackFields | src/compile_unit/sema.rs:1293-1401 | packed fields are laid one after the other in whole bytes of storage |
| Layout.PackedDisjoint | src/compile_unit/sema.rs:1293-1401 | packed fields do not overlap, and the byte a type-info offset names lies inside |
| Layout.ScanPayloads | src/value.rs:1306-1322 | the loop finds the largest size, the largest alignment and the last most aligned payload |
| Layout.UnionParts | src/compile_unit/sema.rs:5042-5049 | the tag and payload offsets of the type-info code are aligned, disjoint and end where the layout's content ends; padding is below the alignment |
| Layout.UnionTypeParts | src/value.rs:1300-1353 | the same for every union type that has a layout |
| Layout.UnionShape | src/value.rs:1324-1353 | a union's tag is laid out as its type, and the whole has the greater of the tag's and the payload's alignment |
| Layout.PayloadHeld | src/value.rs:1306-1322 | the payload part is as large as every payload and as aligned as every one that takes space |
| Layout.LargestPayload | src/value.rs:1306-1322 | the payload part is no larger than the largest payload |
| Layout.PayloadFits | src/value.rs:1300-1353 | every payload is aligned at the payload offset and inside the payload part |
| Layout.LayoutExistsIff | src/value.rs:1191-1288 | a type has a layout exactly when it has no compile-time type and no void field or element; alignments are then powers of two |
| Layout.IntSizeIff | src/value.rs:1201-1209 | an integer type's size is a multiple of its alignment exactly when its size in bytes is 0 or a power of two |
| Layout.LayOut | src/value.rs:1191-1288 | the recursion over types computes the specified layout |
| Layout.LayOutUnion | src/value.rs:1300-1353 | the union layout is the specified one |

## Left out

- Weak memory: all machines interleave atomic steps under sequential consistency.
- Fairness: which steps can always lead to the end is proved, that a scheduler takes them is not; nor are waiters that spin on an import cycle between modules under analysis.
- Machine widths of lengths, indices, shift amounts, sizes and counters (`usize`, `u64`): they are unbounded, except where a limb, a packed index or a commit subtraction makes the width matter.
- Conversions of machine integers into `Anyint` other than from `u64`, and `Hash`, which feeds the same two fields that `Int.StructuralEquality` is about.
- Int.Anyint.Display: is stated for plain decimal output; formatter width and padding flags are not modelled.
- Operating-system memory: reserving and committing are operations on sets of element positions.
- The hash function and hashbrown: the hash is any fixed function of the key, a table is the set of slot indices searched by key.
- Values of the sharded map changed through the shared cell that `kv` hands out, instead of through the map.
- ShardedIndexMap.Linearizable: a push beyond the capacity panics and takes its thread out of the run; what the thread does after the panic is not modelled.
- The closure of `or_insert_with`, which runs under the lock: its value is a parameter of the operation.
- Primary expressions other than groups are one `Atom` token; postfix operators, calls, blocks, initialisers, and pointer types that begin with `*` in operand position are not modelled, nor are spans and diagnostics.
- In constant folding: Div, Rem, shifts, comparisons and the saturating operators, whose comptime code has no uniform fixed-width meaning.
- The text appended to the builtin module before parsing, which imports nothing; a module's imports depend on its path only.
- Reading files, parsing and semantic analysis inside the jobs: their outcomes are parameters or free choices of a step.
- Sema errors, failed analyses and the reporting after the main loop.
- Captures.PassFindsOriginal: identifies a value with its original instruction; whether it is a comptime value or a field of a runtime environment is decided after that and not modelled.
- Captures of enums and unions, which are collected like those of structs.
- Paths: joining and normalising an import is a function of the importing path and the import.
- The code generator's own use of layouts, and `type_layout` for types under construction.
- `OccupiedEntry::insert` of the unsharded index map, which is unimplemented in the source.
- Lexer, type checking, generics, linear values, diagnostics, debug info, code generation and the driver: large, but with no clean end-to-end property beyond those above.
