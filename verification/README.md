# Verified models of the Yosys kernel

The project models the parts of the Yosys kernel on which the correctness of other passes rests, and proves what
they are for:

- `Bits`, `Calc`, `XSound`, `XExact`, `XBounds`: four-state constants and the constant evaluator. A result bit that is
  computed as 0 or 1 never depends on an undefined operand bit; the power operation and the bitwise multiplexer are
  exceptions, each with its exact condition. Conversely, what every way of filling in undefined bits agrees on is
  computed, with the exact condition for equalities, order comparisons and the parallel multiplexer; shifts and
  arithmetic give up on an undefined amount or operand and answer `x`.
- `FunctionalIR`, `FunctionalWord`, `FunctionalDiv`, `FunctionalShift`, `FunctionalPow`, `FunctionalAlu`,
  `FunctionalMux`: the lowering of word-level cells to the functional intermediate form. Each lowered cell computes the
  evaluator's bits at every width.
- `CellEdges`, `ArithEdges`: the dependency edges from operand bits to output bits are exactly the observable ones.
- `Aig`, `AigCells`: the and-inverter graph of a cell computes the evaluator's output.
- `Hashlib`, `Pools`, `UnionFind`: the hash table refines a finite map or set, and the merge-find structure the
  equivalence closure of the merges.
- `MemContents`, `CoalesceInits`, `InitialContents`, `MemPorts`: memory contents as ranges, the merging of initialisers,
  the two readings of initialisers, and the rewrites of write ports, over whole runs of the clock.
- `FlipFlop`: the rewrites of flip-flop descriptions keep the output trace of every run.
- `ComputeGraph`: argument vectors, permutation and buffer forwarding keep the values of all keyed nodes.
- `DriverTools`, `DriverConnections`: orientation of undirected nets towards their drivers.
- `FormatStrings`: parsing undoes the printing of format strings, and parsing, printing and parsing again gives what
  the first parse gave.
- `BitPattern`: pools of bit patterns denote sets of vectors.
- `Collections`: facts about collections that several modules share.

Code that computes a value by expressions is modelled by functions. Code that updates objects or variables is modelled
by classes and methods with loops, each proved against a function or a stated property. `dfyconfig.toml` covers all
files.

## Model

| member | source | states |
|---|---|---|
| Calc.Const2Big | kernel/calc.cc:42-66 | the integer read is the two's complement or unsigned reading with undefined bits as zero, and the reported position is the first undefined bit |
| Calc.BigIsVal | kernel/calc.cc:42-66 | on a defined vector the integer read is the signed or unsigned value |
| Calc.Big2Const | kernel/calc.cc:68-98 | the low bits of the integer in two's complement, or all undefined after an undefined operand |
| Calc.ExtendU0 | kernel/calc.cc:29-40 | truncation, or zero or sign extension, bit by bit |
| Calc.LogicReduceWrapper | kernel/calc.cc:192-203 | the fold of the operator over all bits, padded with zeros |
| Calc.ConstShiftWorker | kernel/calc.cc:283-306 | every result bit is the operand bit at the moved position, the sign, or the vacant bit; all undefined for an undefined amount |
| Calc.ConstEqLoop | kernel/calc.cc:366-388 | 0 exactly if two defined bits clash, otherwise 1 if all bits are defined, otherwise undefined |
| Calc.TruncDivMod | kernel/calc.cc:473-498 | quotient and remainder satisfy the division equation, the remainder is smaller than the divisor and has the sign of the dividend |
| Calc.FloorDivMod | kernel/calc.cc:500-543 | the flooring pair satisfies the division equation with a remainder of the divisor's sign |
| Calc.ConstBmuxLoop | kernel/calc.cc:650-669 | the halving loop computes the recursive selection by the most significant select bit first |
| Calc.ConstDemuxLoop | kernel/calc.cc:671-699 | word by word: zero where the select input excludes the word, masked by undefined select bits, the operand otherwise |
| Calc.ConstPmuxLoop | kernel/calc.cc:635-648 | the default for a select input of zeros, the selected word for a one-hot one, otherwise all undefined |
| Calc.ConstBwmuxLoop | kernel/calc.cc:711-722 | bit by bit the selected operand, or undefined where the select bit is `x` and the operands differ |
| XSound.Sound | kernel/calc.cc:100-699 | for all 38 operations: every result bit computed as 0 or 1 has that value for every way of filling in undefined operand bits |
| XSound.CompareSound | kernel/calc.cc:344-449 | the same for the six comparisons |
| XSound.DivisionSound | kernel/calc.cc:473-543 | the same for the four divisions, also when an undefined divisor reads as zero |
| XSound.BmuxKeeps | kernel/calc.cc:650-669 | the same for the binary multiplexer, over all select bits |
| XSound.DemuxKeeps | kernel/calc.cc:671-699 | the same for the demultiplexer |
| XSound.PmuxKeeps | kernel/calc.cc:635-648 | the same for the parallel multiplexer |
| XSound.BwmuxSoundIff | kernel/calc.cc:711-722 | the bitwise multiplexer has this property exactly if, wherever a select bit is undefined but not `x`, the first operand is undefined or both operands agree |
| XSound.PowSoundIff | kernel/calc.cc:545-594 | the power has this property exactly if the shortcut of lines 556-557 does not apply, or the exponent's sign is known and the base is zero or aligned so far that its power vanishes in the result |
| XSound.UndefinedBase | kernel/calc.cc:556-557 | an undefined base to the power one is computed as 0, although the base may be 1 |
| XExact.Exact | kernel/calc.cc:100-699 | the converse of `XSound.Sound`: a result bit is computed as a value if and only if every way of filling in undefined operand bits gives it. For bitwise, reduction and logical operations, `$mux`, `$bmux` and `$demux` always; for `$eq` and `$ne` unless a sign extension hides a clash; for shifts and `$pmux` when amount or select is defined |
| XExact.EqualityExactIff | kernel/calc.cc:366-398 | `$eq` and `$ne` compute what is settled if and only if it is not the case that the undefined sign of the narrower operand is extended over both a 0 and a 1 of the wider one and no two defined bits clash |
| XExact.BmuxExact | kernel/calc.cc:650-669 | the halving multiplexer loses nothing: a bit on which all selectable words agree is computed |
| XExact.BwmuxExact | kernel/calc.cc:711-722 | so does the bitwise multiplexer where the select bit is defined or `x` |
| XExact.Strict | kernel/calc.cc:283-648 | shifts by an undefined amount, order comparisons and arithmetic with an undefined operand, division by what reads as zero, and `$pmux` with a select input that is not all zeros or one-hot answer `x` throughout; nothing else is left out of `XExact.Exact` but the equalities |
| XBounds.OrderSettled | kernel/calc.cc:344-449 | the truth bit of an order comparison is settled if and only if the least and greatest values of the operands decide it |
| XBounds.OrderExactIff | kernel/calc.cc:344-449 | an order comparison computes what is settled if and only if its operands are defined or their ranges do not decide it |
| XBounds.PmuxExactIff | kernel/calc.cc:635-648 | `$pmux` computes every settled bit if and only if it is not the case that its select input is zero but for one undefined bit and some bit is the same whether that one is set or not |
| XExact.UndefinedAmount | kernel/calc.cc:283-306 | zero shifted by an undefined amount is computed as `x`, although every amount gives zero |
| XExact.PowStrict | kernel/calc.cc:545-594 | the power with an undefined operand is 0 if the base reads as zero and the exponent as positive, else `x` |
| XExact.ThreeStates | kernel/calc.cc:100-618 | operations that do not hand on operand bits answer 0, 1 or `x`, never another state |
| FunctionalPow.ConstPowLoop | kernel/calc.cc:545-594 | square-and-multiply modulo the result width computes the Verilog power of the operand values |
| FunctionalWord.LowerWordExact | kernel/functional.cc:256-321 | for the arithmetic, bitwise, comparison, logical and reduction cells, at every width and signedness, the lowered nodes evaluate to the evaluator's bits |
| FunctionalWord.HandlePmux | kernel/functional.cc:213-220 | the loop builds the chain of multiplexers, a later select bit over an earlier one |
| FunctionalWord.LowerPmuxExact | kernel/functional.cc:213-220 | the chain evaluates to the evaluator's bits wherever those are defined |
| FunctionalWord.LowerBwmuxExact | kernel/functional.cc:412-418 | the two masked data inputs together are the evaluator's bitwise multiplexer |
| FunctionalDiv.LowerDivExact | kernel/functional.cc:358-404 | `$div`, `$mod`, `$divfloor` and `$modfloor`: for every width, signedness and nonzero divisor the lowered nodes evaluate to the evaluator's bits |
| FunctionalShift.HandleShiftExact | kernel/functional.cc:158-178 | the lowered shift with its truncated amount and overflow test is the unbounded shift |
| FunctionalShift.LowerShlExact | kernel/functional.cc:322-325 | `$shl` and `$sshl` evaluate to the evaluator's bits |
| FunctionalShift.LowerShrExact | kernel/functional.cc:326-333 | `$shr` and `$sshr` evaluate to the evaluator's bits |
| FunctionalShift.LowerIndexedExact | kernel/functional.cc:334-346 | `$shift` and `$shiftx` evaluate to the evaluator's bits wherever those are defined |
| FunctionalPow.HandlePow | kernel/functional.cc:189-203 | the loop builds the chain of multiplexed products with its zero test |
| FunctionalPow.PowExactIff | kernel/functional.cc:189-203 | the lowered `$pow` agrees with the evaluator exactly if the operands have one signedness, or the base is signed and no narrower than the result, or it is a single unsigned bit |
| FunctionalAlu.EvalAlu | kernel/consteval.h:257-311 | the ripple loop gives sum and carries, all undefined if any operand bit is undefined before the extension; `X` is undefined bit by bit |
| FunctionalAlu.HandleAluExact | kernel/functional.cc:229-244 | sum, carries and half sum of the lowered `$alu` are those of the ripple loop, and `X` is that of the evaluator bit by bit, at every width |
| FunctionalAlu.EvalLcu | kernel/consteval.h:92-127 | the lookahead loop gives generate-or-propagated carries, or all undefined |
| FunctionalAlu.HandleLcuExact | kernel/functional.cc:245-247 | the adder of generate and propagate-or-generate has the lookahead carries |
| FunctionalMux.LowerBmuxExact | kernel/functional.cc:204-212 | the multiplexer tree is the evaluator's selection |
| FunctionalMux.LowerDemuxExact | kernel/functional.cc:427-435 | the word shifted by select times width is the evaluator's demultiplexer output |
| CellEdges.ShiftOp | kernel/celledges.cc:175-308 | the loops over output bits collect exactly the edges of the closed-form predicate |
| CellEdges.EdgesExact | kernel/celledges.cc:175-308 | with an amount of at most 30 bits, an edge is recorded if and only if toggling the operand bit changes the output bit for some operands |
| CellEdges.CappedEdges | kernel/celledges.cc:198-201 | with a wider amount, the edges are exactly the dependencies of the cell with the first 30 amount bits alone |
| CellEdges.WideEdgesExact | kernel/celledges.cc:198-201 | with a wider amount and operands and results below `2^29` bits, the edges are exactly the observable dependencies on operand bits and on the first 30 amount bits |
| CellEdges.EvalIsRead | kernel/calc.cc:283-342 | all six shifts read the extended operand at the moved position, with the vacant bit outside it, and give `x` for an undefined amount |
| CellEdges.SoundIff | kernel/celledges.cc:198-201 | no dependency is missed if and only if the amount has at most 30 bits or the shifted operand only copies its sign |
| CellEdges.ArithOp | kernel/celledges.cc:69-106 | the loops collect exactly the edges from a bit to itself and the bits above it, up to the kept width |
| CellEdges.ArithEdgesSound | kernel/celledges.cc:69-106 | for `$add`, `$sub` and `$neg`, toggling a bit without an edge to an output bit leaves that bit alone, also with undefined bits elsewhere |
| ArithEdges.ArithEdgesExact | kernel/celledges.cc:69-106 | an edge of `$add`, `$sub` or `$neg` is recorded if and only if some operands show the dependency |
| ArithEdges.BitwiseBinaryOp | kernel/celledges.cc:41-67 | the loop collects exactly the bit-to-bit and sign edges, trimmed to the narrower operand for an unsigned `$and` |
| ArithEdges.BitwiseEdgesExact | kernel/celledges.cc:41-67 | an edge of `$and`, `$or`, `$xor` or `$xnor` is recorded if and only if some operands show the dependency |
| Aig.AigMaker.Node2index | kernel/cellaigs.cc:78-92 | structural hashing returns the one node with that structure, keeps the graph acyclic and duplicate-free, and changes no existing node's value |
| Aig.AigMaker.AndGate | kernel/cellaigs.cc:137-179 | with all its folding rules the gate computes the conjunction, inverted on demand, and adds no and that a rule could fold |
| Aig.AigMaker.Adder | kernel/cellaigs.cc:221-234 | the nodes compute the ripple sum and all carries |
| AigCells.Optimize | kernel/cellaigs.cc:487-513 | removing unused nodes keeps every output and every kept node's value, leaves live nodes only, and no folding rule applies that did not apply before |
| AigCells.MakeAig | kernel/cellaigs.cc:256-514 | for every modelled cell type, signedness and width: the graph is acyclic without duplicates, dead nodes or ands of a constant, of opposite or of equal nodes, and on all defined inputs every output bit has one value, the evaluator's |
| Hashlib.Dict.DoRehash | kernel/hashlib.h:392-403 | every chain is rebuilt from links that need only be in range, and the entries keep their order |
| Hashlib.Dict.DoLookup | kernel/hashlib.h:454-472 | the entry with the key, or none if no entry has it; the table is rehashed exactly if it is too small, which changes no entry |
| Hashlib.Dict.DoErase | kernel/hashlib.h:405-452 | the entry is unlinked, the last one takes its place, and all chains stay correct |
| Hashlib.Dict.Insert | kernel/hashlib.h:640-648 | adds the pair if the key is new and changes nothing otherwise |
| Hashlib.Dict.Erase | kernel/hashlib.h:680-685 | removes exactly the key and reports whether it was there |
| Hashlib.Dict.EraseAt | kernel/hashlib.h:687-692 | erasing at an iterator removes that entry and steps to the next one |
| Hashlib.Dict.Count | kernel/hashlib.h:694-699 | 1 or 0 by membership |
| Hashlib.Dict.At | kernel/hashlib.h:744-751 | the stored value or the default |
| Hashlib.Dict.Sort | kernel/hashlib.h:762-767 | the entries are permuted so that iteration never meets a smaller key after a larger one, and the map is kept |
| Hashlib.Dict.EraseWhere | kernel/hashlib.h:687-692 | a loop that erases while it iterates meets every original entry exactly once and leaves exactly the entries it kept |
| Pools.Pool.Insert | kernel/hashlib.h:1047-1055 | union with the element |
| Pools.Pool.Erase | kernel/hashlib.h:1073-1078 | difference with the element |
| Pools.Pool.Count | kernel/hashlib.h:1087-1092 | membership |
| Pools.Pool.Pop | kernel/hashlib.h:1133-1139 | takes out the element that iteration meets first |
| Pools.Pool.Equals | kernel/hashlib.h:1147-1154 | the comparison of sizes and one-sided membership is equality of sets, also of a pool with itself |
| UnionFind.Mfp.Ifind | kernel/hashlib.h:1309-1328 | returns the representative; path compression points exactly the elements of the path at it and changes no representative |
| UnionFind.Mfp.Imerge | kernel/hashlib.h:1331-1338 | the class of the first joins that of the second, whose representative stands for both; representatives stay equal exactly for connected elements |
| UnionFind.ConnectedEquivalence | kernel/hashlib.h:1331-1338 | the relation that merging builds is reflexive, symmetric and transitive |
| UnionFind.Mfp.Ipromote | kernel/hashlib.h:1340-1351 | the element becomes the representative of its unchanged class; exactly the elements of its path are pointed at it |
| UnionFind.Mfp.Find | kernel/hashlib.h:1358-1364 | the representative's key, or the key itself if it is unknown |
| UnionFind.Mfp.Merge | kernel/hashlib.h:1366-1369 | both keys and no others are entered; what led the second key now leads all that the first was led along with, and every other key keeps its leader |
| UnionFind.Mfp.Promote | kernel/hashlib.h:1371-1376 | a known key leads its class, every other class keeps its leader, and an unknown key changes nothing |
| MemContents.Memory.Read | kernel/mem.cc:1779-1785 | the word of the range that covers the address, or the default value |
| MemContents.RangeAt | kernel/mem.cc:1759-1777 | splits the ranges into those that end at or before the address and the others, in spite of unsigned subtraction |
| MemContents.Memory.CountRange | kernel/mem.cc:1787-1795 | the number of defined words in the interval |
| MemContents.Memory.ClearRange | kernel/mem.cc:1797-1828 | undefines exactly the words of the interval; ranges stay ordered and apart |
| MemContents.Memory.ReserveRange | kernel/mem.cc:1830-1876 | one range covers the interval and words outside keep their value |
| MemContents.Memory.InsertConcatenated | kernel/mem.cc:1878-1887 | defines exactly the words of the data, bit by bit, filled up with zeros to whole words, and leaves every other word alone |
| CoalesceInits.Mem.GetInitData | kernel/mem.cc:441-452 | every bit is that of the last initialiser that enables it, or undefined |
| CoalesceInits.Mem.FindChunks | kernel/mem.cc:352-391 | separated chunks that contain every initialiser in force and no address that none touches |
| CoalesceInits.Mem.CoalesceInits | kernel/mem.cc:352-439 | no two initialisers overlap or touch afterwards, none is masked, and every bit of the initial contents is kept |
| InitialContents.FromMem | kernel/mem.cc:1683-1708 | every bit of every word is that of the last initialiser, removed or not, that enables it, or undefined; a word is stored exactly if an initialiser that enables something covers it |
| InitialContents.ContentsAgree | kernel/mem.cc:441-452 | this agrees with the initial data exactly if no removed initialiser decides a bit of the memory otherwise than those in force |
| InitialContents.NoneRemoved | kernel/mem.cc:1683-1708 | which is so in particular if no initialiser is removed |
| InitialContents.RemovedAlone | kernel/mem.cc:1683-1708 | a single removed initialiser is such a case wherever it sets a bit that is not `x` |
| MemPorts.Narrow | kernel/mem.cc:1023-1082 | the write ports become single-word ports, one for each of their words, in order |
| MemPorts.NarrowSame | kernel/mem.cc:1023-1082 | after every edge all words have the same contents |
| MemPorts.NarrowRun | kernel/mem.cc:1023-1082 | and so after every prefix of every run |
| MemPorts.WidenPrep | kernel/mem.cc:1322-1333 | start and size are rounded outwards to whole blocks, by less than one block on either side |
| MemPorts.WidenWrPort | kernel/mem.cc:1335-1366 | the widened port has the new number of words and the address with its low bits cleared, and writes the same bits of the same words for every input |
| MemPorts.WidenSame | kernel/mem.cc:1335-1366 | in place of the old port it leaves the same contents after every edge |
| MemPorts.WidenRun | kernel/mem.cc:1335-1366 | and so after every prefix of every run |
| MemPorts.EmulatePriority | kernel/mem.cc:1084-1126 | the first port keeps all but its enables, and writes what it did except where the second port writes, for any two widths |
| MemPorts.PrioritySame | kernel/mem.cc:1084-1126 | the contents after every edge are kept |
| MemPorts.PriorityFree | kernel/mem.cc:1084-1126 | and no longer depend on the order of the two ports |
| MemPorts.PriorityRun | kernel/mem.cc:1084-1126 | the contents after every prefix of every run are kept |
| MemPorts.CompressEn | kernel/mem.cc:1659-1681 | decompressing the compressed enables gives them back; neighbours in the compressed form differ, and the position moves on exactly where the enables change |
| MemPorts.EmulateReadFirst | kernel/mem.cc:1606-1657 | every port gets registers, the enables over all its words compressed without neighbours that repeat |
| MemPorts.LatchedSample | kernel/mem.cc:1618-1656 | what the registers present, enables decompressed, is what the port would have written at the last edge |
| MemPorts.ReadFirstSame | kernel/mem.cc:1606-1657 | at every edge of every run, a read of the memory behind the registers that is transparent to all pending writes sees what a read of the old contents saw |
| MemPorts.ReadFirstInitialised | kernel/mem.cc:1606-1657 | with the enable registers starting at zero the two memories also start alike |
| FlipFlop.SameTrace | kernel/ff.h:28-59 | descriptions that take the same step from every state have the same output on every run |
| FlipFlop.FfData.ConvertCeOverSrst | kernel/ff.cc:422-493 | enable and reset are in the order asked for, at most the order and one of the two signals change, and the steps are the same |
| FlipFlop.ConvertedCeRun | kernel/ff.cc:422-493 | the description in the order asked for has the same output on every run |
| FlipFlop.FfData.UnmapCe | kernel/ff.cc:495-514 | without an enable, the same steps; only data, enable and a reset below the enable are touched |
| FlipFlop.WithoutCeRun | kernel/ff.cc:495-514 | the same output on every run |
| FlipFlop.FfData.UnmapSrst | kernel/ff.cc:516-534 | without a synchronous reset, the same steps; only data, reset and an enable below the reset are touched |
| FlipFlop.WithoutSrstRun | kernel/ff.cc:516-534 | the same output on every run |
| FlipFlop.FfData.AloadToSr | kernel/ff.cc:394-420 | load replaced by set and clear and nothing else; the same steps when there is no asynchronous reset |
| FlipFlop.LoadToSrRun | kernel/ff.cc:394-420 | then also the same output on every run |
| FlipFlop.LoadToSrStep | kernel/ff.cc:394-420 | a step is kept if and only if it is not the case that reset and load are both active and load another value than the reset |
| FlipFlop.LoadToSrBreaks | kernel/ff.cc:394-420 | with reset, load and data on inputs of their own, some inputs tell the two apart in every state |
| FlipFlop.LoadToSrDiffers | kernel/ff.cc:394-420 | and some run shows different outputs |
| FlipFlop.FfData.ArstToSr | kernel/ff.cc:377-392 | reset replaced by set and clear and nothing else, the same steps |
| FlipFlop.ResetToSrRun | kernel/ff.cc:377-392 | the same output on every run |
| FlipFlop.FfData.ArstToAload | kernel/ff.cc:367-375 | reset replaced by a load of constants and nothing else, the same steps |
| FlipFlop.ResetToLoadRun | kernel/ff.cc:367-375 | the same output on every run |
| FlipFlop.FfData.FlipRstBits | kernel/ff.cc:683-696 | inverts exactly the chosen bits of the reset and initial values in use |
| FlipFlop.FfData.FlipBits | kernel/ff.cc:698-773 | the register stores exactly the chosen bits inverted, from their initial value on, behind an inverter, with set and clear exchanged and the priority of clear kept: the same steps |
| FlipFlop.FlippedRun | kernel/ff.cc:698-773 | with the chosen bits stored inverted, the same output on every run |
| FlipFlop.ReplacesRun | kernel/ff.cc:367-534 | any replacement has the output of what it replaces on every run |
| ComputeGraph.Graph.Add | kernel/compute_graph.h:220-226 | appends a node without arguments |
| ComputeGraph.Graph.AppendArg | kernel/compute_graph.h:141-149 | the node gets one more argument and no other node changes, although they share one vector |
| ComputeGraph.Graph.CompactArgs | kernel/compute_graph.h:271-282 | the vector becomes the arguments in node order and no node changes |
| ComputeGraph.Graph.Permute | kernel/compute_graph.h:284-331 | the selected nodes in the new order, with arguments, keys and names renamed |
| ComputeGraph.PermutedSolution | kernel/compute_graph.h:284-331 | values of the selected nodes stay values after renaming |
| ComputeGraph.Graph.ForwardBuf | kernel/functional.cc:769-798 | every buffer of an earlier node is replaced by what it buffers, and of the names that meet in a node the last public one stays, or else the last |
| ComputeGraph.ForwardSolution | kernel/functional.cc:769-798 | forwarding keeps the value of every node |
| ComputeGraph.ForwardOrdered | kernel/functional.cc:769-798 | on an ordered graph no buffer is left and the result is ordered |
| ComputeGraph.OrderedUnique | kernel/functional.cc:733-760 | an ordered graph has at most one solution |
| ComputeGraph.OrderedExists | kernel/functional.cc:733-760 | and it has one |
| ComputeGraph.Graph.SortAndForward | kernel/functional.cc:728-729 | dropping dead nodes, sorting and forwarding gives an ordered graph without buffers; whatever values agree with the selected nodes, every keyed node keeps its value |
| DriverTools.DriveBitGraph.AddEdge | kernel/drivertools.cc:444-451 | adds one edge without repetition and changes no other source |
| DriverTools.DriveBitGraph.At | kernel/drivertools.cc:505-513 | every stored edge is reached at exactly one index |
| DriverTools.DriveBitGraph.Clear | kernel/drivertools.cc:481-486 | drops the edges of one source only |
| DriverTools.SearchExact | kernel/drivertools.cc:794-812 | the breadth-first search gives exactly the shortest distances |
| DriverTools.DriverMap.Collect | kernel/drivertools.cc:759-789 | visits exactly the component and finds exactly its drivers |
| DriverTools.DriverMap.OrientUndirected | kernel/drivertools.cc:759-814 | adds exactly the edges that lead one step closer to some driver; in a component with one driver, not oriented before, every bit is led to it with falling distance |
| DriverTools.OneDirection | kernel/drivertools.cc:759-814 | no connection is oriented towards the same driver in both directions |
| DriverTools.SingleDriver | kernel/drivertools.cc:759-814 | with one driver, from every bit the oriented edges lead to the driver in as many steps as its distance, and none is also oriented back |
| DriverConnections.Connections.ConnectUndirected | kernel/drivertools.cc:647-651 | the two bits become neighbours of each other and the relation stays symmetric |
| DriverConnections.Resolve | kernel/drivertools.cc:624-651 | the map in which nets are oriented starts with this symmetric relation and nothing oriented |
| DriverConnections.Connections.ConnectDirectedMerge | kernel/drivertools.cc:624-640 | the graph is the old one with the driven bit renamed, and the relation stays symmetric |
| FormatStrings.Fmt.EmitRtlil | kernel/fmt.cc:187-265 | the text and arguments of the parts |
| FormatStrings.Fmt.ParseRtlil | kernel/fmt.cc:32-185 | the parts that the grammar assigns to a text, or failure |
| FormatStrings.RoundTrip | kernel/fmt.cc:32-265 | parsing what was printed gives the parts with neighbouring literals joined if no part is a character code, and fails otherwise |
| FormatStrings.NormalText | kernel/fmt.cc:187-265 | joining literals changes neither text nor arguments |
| FormatStrings.ParsedIsNormal | kernel/fmt.cc:32-185 | the parser returns no empty and no neighbouring literals, and substitutions with only what their text shows |
| FormatStrings.NormalStable | kernel/fmt.cc:32-185 | the normal form in which the parser returns parts is its own normal form |
| FormatStrings.Reparse | kernel/fmt.cc:32-265 | printing the parts of an accepted text and parsing again gives the same parts exactly if none is a character code and no padding is a NUL |
| BitPattern.BitPatternPool.constructor | kernel/bitpattern.h:55-68 | the pool denotes the vectors that match the signal |
| BitPattern.BitPatternPool.HasAny | kernel/bitpattern.h:101-108 | some vector of the pool matches the pattern |
| BitPattern.BitPatternPool.HasAll | kernel/bitpattern.h:110-122 | every vector that matches the pattern is in the pool, although only single entries are tested |
| BitPattern.SubtractedSaturated | kernel/bitpattern.h:124-144 | taking keeps the pool saturated: a covered pattern always lies in a single entry |
| BitPattern.HalvesUnsaturated | kernel/bitpattern.h:110-122 | for patterns not built by taking this may fail: two halves cover a pattern that neither contains |
| BitPattern.BitPatternPool.Take | kernel/bitpattern.h:124-144 | removes exactly the vectors that match the pattern, while the loop inserts into and erases from the pool it walks |
| BitPattern.BitPatternPool.TakeAll | kernel/bitpattern.h:146-152 | empties the pool and reports whether it held a vector |
| BitPattern.BitPatternPool.Empty | kernel/bitpattern.h:154-157 | true if and only if the patterns taken so far cover the initial signal |

## Findings

Properties that the code does not have in general, each with the theorem that says exactly when it has them:

- The shift edges cap the amount at 30 bits (`kernel/celledges.cc:198-201`). `CellEdges.SoundIff`: dependencies are
  missed exactly when the amount is wider than 30 bits and the shifted operand does not merely copy its sign. For
  operands and results below `2^29` bits, `CellEdges.WideEdgesExact`: only those on the dropped amount bits are missed.
- `$eq` and `$ne` of operands of different widths (`kernel/calc.cc:366-398`): the extension of an undefined sign can hide
  that the operands differ. `XExact.EqualityExactIff` says exactly when.
- Order comparisons (`kernel/calc.cc:344-449`) and `$pmux` (`kernel/calc.cc:635-648`) answer `x` for some undefined
  operands although every completion gives one value. `XBounds.OrderExactIff` and `XBounds.PmuxExactIff` say exactly
  when.
- The lowering of `$pow` with operands of different signedness (`kernel/functional.cc:189-203`).
  `FunctionalPow.PowExactIff` gives the widths at which it still agrees with the evaluator.
- A character-code part is printed as `{U}` without its size and argument (`kernel/fmt.cc:204-207`).
  `FormatStrings.RoundTrip`: the text parses back exactly if there is no such part.
- `aload_to_sr` next to an asynchronous reset (`kernel/ff.cc:394-420`). `FlipFlop.LoadToSrStep` names the steps that
  change, and `FlipFlop.LoadToSrBreaks` and `FlipFlop.LoadToSrDiffers` inputs and a run that show it.
- The select bits of `$bwmux` (`kernel/calc.cc:711-722`): undefined ones other than `x` count as 0.
  `XSound.BwmuxSoundIff` says when the result still does not depend on them.
- The constructor of memory contents reads removed initialisers (`kernel/mem.cc:1683-1708`), which
  `Mem::get_init_data` skips. `InitialContents.ContentsAgree` says exactly when the two agree, and
  `InitialContents.RemovedAlone` gives a case where they do not.
- The power of an undefined base (`kernel/calc.cc:556-557`). `XSound.UndefinedBase` is an instance and
  `XSound.PowSoundIff` the exact condition.

## Left out

- Calc.ConstShiftWorker: the sign of an empty operand is not read, because the source indexes past its end there.
- XSound.Sound: `$eqx`, `$nex` and `$bweqx`, which compare undefined bits by design; the widths of `$pmux` and `$bmux` are those of the cell types.
- FunctionalWord.LowerWordExact: operands of different signedness, which the cell types exclude; `$eqx` and `$nex`, which are lowered like `$eq` and `$ne`.
- FunctionalWord.LowerPmuxExact: select inputs with several ones, which the evaluator leaves undefined.
- FunctionalDiv.LowerDivExact: division by zero, which the evaluator leaves undefined and the lowered nodes leave to the back end.
- FunctionalPow.PowExactIff: results that the evaluator leaves undefined.
- CellEdges.EdgesExact: amounts wider than 30 bits, for which `CellEdges.SoundIff` and `CellEdges.WideEdgesExact` say what holds.
- CellEdges.WideEdgesExact: operands or results of `2^29` bits and more.
- XExact.Exact: shifts by an undefined amount and arithmetic with an undefined operand, for which `XExact.Strict` gives the answer; order comparisons and `$pmux` have their exact conditions in `XBounds`.
- ArithEdges.ArithEdgesExact: binary cells with an operand of width zero, where edges above the bit itself may be spurious.
- ArithEdges.BitwiseEdgesExact: cells with an operand of width zero.
- AigCells.MakeAig: operands of width zero and the single-bit gate cells (`$_NAND_`, `$_AOI3_` and the like).
- MemContents.Memory.InsertConcatenated: empty data, and data beyond the address space.
- MemPorts.Narrow: the read ports, and the transparency and priority masks that are indexed by port.
- MemPorts.EmulatePriority: the test of the priority mask before it, and `emulate_transparency` for read ports that were transparent to the first port.
- MemPorts.ReadFirstSame: `emulate_transparency`, which is applied before it to ports that are already transparent; the size of a word is positive.
- InitialContents.FromMem: data of no words, data beyond the address space, and memories of one word, all of which the source excludes by assertions or does not handle.
- FlipFlop.SameTrace: undefined bits in reset and initial values.
- Negative result lengths that select a default length in the evaluator.
- The prime table sizes and the vector capacities of the hash table; 32-bit overflow of its indices.
- `idict` beyond a list of distinct keys; iteration order as such, apart from what erasing while iterating needs.
- Storage of a format string as a constant, which drops NUL characters; Verilog format strings.
- ComputeGraph.Graph.SortAndForward: how topological sorting finds its order; any order in which arguments come first is accepted.
- The mapping of wire and port bits to identifiers in driver maps, directed buffers, and queries of a driver map.
- Cell attributes, names of new cells and wires, and log messages.
- Clocks are numbered steps of the inputs; delays and metastability are not modelled.
