# btkernel: the translation engine, modelled and proved

btkernel translates the code of a running Linux kernel block by block into a code cache and runs it
from there. This project models the data structures and the compiler steps of its translation engine
in Dafny, and proves what they rely on and promise.

| file | part of the system |
|---|---|
| `RbShape.dfy`, `RbTree.dfy` | the parent-pointer red-black tree with one shared sentinel (`lib/rbtree.c`): shapes and invariants as values, nodes and loops in the heap |
| `Translation.dfy` | the two passes of `translate` (`peep/peep.c`), the boundary arrays and the address maps of a block (`peep/tb.c`) |
| `BlockIndex.dfy` | the trees of blocks by guest and by code address (`peep/jumptable2.c`, `peep/tb.c`) |
| `Dispatch.dfy` | the per-CPU cache (`peep/jumptable1.c`), its swap-to-front assembly (`peep/peeptab_defs.h`), edge chaining, and runs over several CPUs |
| `Engine.dfy` | the miss path of `bt_main.c`: lookup, sizing, pools, emission, indexes and jump boundaries together, and its refinement of those runs |
| `Insns.dfy`, `Assignments.dfy`, `Unify.dfy`, `LinearTemplates.dfy`, `Matcher.dfy`, `Temporaries.dfy` | operands, template unification, the rule table's bucket scan, the choice of temporaries (`peep/peep.c`, `peep/assignments.c`, `peep/insn.c`) |
| `Liveness.dfy` | the generator's register sets, interference pairs and backward liveness (`peepgen.c`, `peep/regset.c`, `peep/nomatch_pair.c`) |
| `Patching.dfy` | the generator's patches per bit of a register number, and their application (`peepgen.c`) |
| `RuleOutput.dfy` | a rule's variants for the registers of its tags (`peepgen.c`), and what comes out, rule after rule, for the registers found |
| `MyList.dfy`, `HashTable.dfy` | the doubly linked list with its in-place merge sort (`lib/mylist.c`) and the resizing hash table (`lib/hash.c`) |
| `Pools.dfy` | the bump-pointer allocator (`mem/malloc.c`) |
| `Common.dfy` | options, word size, strict weak orders |

How the heap is handled: a structure keeps a ghost value beside its pointers (the tree's `shape`, the
list's `chain`); `Valid` ties the two, and what an operation does is stated on the value. In the tree,
a loop that climbs or descends carries a path (what surrounds the current subtree) next to its node
pointer; each pointer-writing helper changes the memory as a pure lemma about paths and shapes says.
The block trees share the sentinel: `Valid` does not depend on the sentinel's parent field, so an
operation on one tree, which may leave that field dirty, keeps the other tree valid.

Results that differ from what one might expect of the code, each with its exact condition and an input
that shows the failure:

- With blocks in order of their starts, lookups in a tree are right exactly when, for each block that is the first
  to cover its own end, no node on the way down that comes after it and starts before that end has, up to itself,
  a block that ends before it (`SearchableIff`). Ends that do not fall are enough in every tree
  (`RisingIsSearchable`), and alignment gives them (`AlignedEndsRise`), but they are not needed
  (`FallingIsSearchable`).
- A program that is not aligned goes wrong in two ways: the lookup of an instruction of a block finds nothing
  (`MisalignedLookupFails`), or the covering block is entered in the middle of an instruction's code
  (`MisalignedEntryFails`); the address entered is right exactly when the block's chain holds the guest address
  (`EnteredIff`).
- An indirect jump to guest address 0 may match an empty slot of the per-CPU cache. It goes to the code of its
  target exactly when the first slot with its key is not an empty one (`JumpsAreRight`, `ZeroTargetFails`).
- The per-CPU cache remembers an inserted address through everything that happens more than three slots away and
  through at most three more inserts with its low twelve bits (`RemembersIff`).
- The boundary arrays are exact exactly when a block has fewer than 65536 code bytes and guest bytes; the
  scratch pages let a code length of exactly 65536 through (`ExactBelow64K`). The input for that needs a decoder
  with a single instruction of 65536 code bytes (`FullPageFails`).
- The address maps undo each other exactly at instructions that emitted code (`RoundTrip`, `RoundTripFails`).
- Registers of a matched rule are safe exactly when the pairs between variables and machine registers are
  separate, live names are apart from machine registers that are written, and nothing is written over a
  result (`MatchedRuleFaithful`). Neither the match nor the choice of temporaries looks at the first
  (`OneRegisterForTwo`); no pair stands for the second, since machine registers that are written get none
  (`MachineWriteIsLost`), nor for the last, since the generator takes nothing to be live at the end of a rule
  (`ResultIsLost`).
- When several rules apply, the one that stands last in the rule table wins: inserts go to the front of a bucket,
  and only the first one changes the number of buckets (`PeepInit`, `FirstInBucketIsLast`).
- The choice of temporaries, highest register first, can get stuck although a choice exists
  (`GreedyGetsStuck`). When it succeeds is decided by candidate sets that are known before (`SucceedsIff`); their
  sizes alone decide exactly when each exceeds the number of temporaries before (`SizesDecide`).
- A template with a bound variable again as a whole operand matches nothing, and all others match all their
  instances (`CompleteIff`, `RepeatedVariableFails`). A template matches more than its instances exactly when it
  can split a variable: by an immediate with a size that comes again, or a memory operand with an unbound variable
  twice (`SoundIff`, `RepeatedImmUnsound`, `RepeatedInMemoryUnsound`).
- Patched bytes equal the assembled ones exactly when each register bit without a pair of variants is
  without effect or already right in the template (`PatchedIsAssembled`). Where every variable has variants for
  just the registers of its tag, as the generator makes them, that holds for all registers that a match and the
  choice of temporaries give (`AllowedIsAssembled`, `RuleIsRight`); it fails for register 4 only if there are
  variants for the registers 0 to 3 alone while the variable's tag does not keep it to these (`NoPairFails`).
- The allocator's test for room is right exactly when its sum does not wrap, or is above the end of the chunk all
  the same (`HasRoomIff`, `WrapEscapes`).
- The search for a bucket count ends exactly when the minimum is positive or there are two elements
  (`SearchEndsIff`); 0 keeps it forever (`ZeroIsStuck`).

## Model

| member | source | states |
|---|---|---|
| `RbTree.RbTree.Insert` | `btmod/bt/lib/rbtree.c:169-205` | a red-black tree with right parent links stays one, and the node stands after all elements less than it and before all others |
| `RbTree.RbTree.RbInsert` | `btmod/bt/lib/rbtree.c:448-493` | from one red node too many below a red parent, recolouring and rotations restore all red-black invariants without moving anything in the order |
| `RbTree.RbTree.LeftRotate` | `btmod/bt/lib/rbtree.c:495-519` | exactly the pointers of a left turn are written |
| `RbTree.RbTree.RightRotate` | `btmod/bt/lib/rbtree.c:521-545` | exactly the pointers of a right turn are written |
| `RbTree.RbTree.Delete` | `btmod/bt/lib/rbtree.c:308-377` | deleting any node of a red-black tree leaves a red-black tree whose in-order sequence is the old one without exactly that node; of the sentinel only parent and colour are written; the deleted node loses its links if it had two children and keeps them otherwise |
| `RbTree.RbTree.RbDeleteFixup` | `btmod/bt/lib/rbtree.c:379-446` | from one black node too few above a child, the fix-up restores all invariants and keeps the order |
| `RbTree.RbTree.ElemReplace` | `btmod/bt/lib/rbtree.c:667-695` | the unlinked node takes over every link and the colour of the one it replaces |
| `RbTree.DeleteBeside` | `btmod/bt/lib/rbtree.c:326-377` | a deletion in one tree leaves another tree over the same sentinel valid and unchanged |
| `RbTree.RbTree.Find` | `btmod/bt/lib/rbtree.c:207-248` | in any tree, what the way down and the way back over equal elements give; if the key partitions the elements, null exactly when none is equivalent to it, otherwise the first one that is |
| `RbTree.RbTree.FindFirst` | `btmod/bt/lib/rbtree.c:251-273` | the first element not less than the key, null when all are less |
| `RbTree.RbTree.SuccessorOf` | `btmod/bt/lib/rbtree.c:633-648` | the next node in order, or the sentinel |
| `RbTree.RbTree.PredecessorOf` | `btmod/bt/lib/rbtree.c:650-665` | the node before in order, or the sentinel |
| `RbTree.RbTree.Walk` | `btmod/bt/lib/rbtree.c:750-801` | begin and next visit the in-order sequence, each element once |
| `RbTree.RbTree.TreeHeight` | `btmod/bt/lib/rbtree.c:603-613` | the height h of a tree of n elements, with 2^h at most (n + 1)^2 |
| `RbShape.HeightIsLogarithmic` | `btmod/bt/lib/rbtree.c:603-613` | every red-black shape of n elements has a height of at most 2 log2 (n + 1) |
| `RbShape.BlackHeightBounds` | `btmod/bt/lib/rbtree.c:603-613` | the black height bounds the height from above and the number of elements from below |
| `RbTree.SortedIsPartitioned` | `btmod/bt/lib/rbtree.c:228-273` | a tree sorted by any strict weak order can be searched for every key |
| `RbTree.InsertedIsSorted` | `btmod/bt/lib/rbtree.c:169-205` | insertion keeps a tree sorted, for any strict weak order |
| `Translation.Translate` | `btmod/bt/peep/peep.c:482-561` | the emission pass stays within what the sizing pass measured, emits every instruction's bytes at its place, fills every boundary, and writes no other byte |
| `Translation.ExactBelow64K` | `btmod/bt/peep/peep.c:508-560` | the 16-bit boundaries are exact if and only if code and guest bytes are under 65536 |
| `Translation.FullPageFails` | `btmod/bt/peep/peep.c:498-560` | one instruction with 65536 code bytes passes every assertion on the output pointers and leaves the boundaries 0 and 0 |
| `Translation.ExactIsWellFormed` | `btmod/bt/peep/peep.c:505-560` | exact boundaries are ordered, start at 0, and name the addresses of the instruction chain |
| `Translation.BoundariesIncrease` | `btmod/bt/peep/tb.c:238-246` | guest boundaries strictly increase, code boundaries exactly at instructions that emitted code |
| `Translation.ChainIsUnique` | `btmod/bt/peep/peep.c:505-551` | the instruction chain of a block is determined by its start |
| `Translation.Block.EipVirtToTcPtr` | `btmod/bt/peep/tb.c:248-265` | the code address that corresponds to a guest address inside the block |
| `Translation.Block.TcPtrToEipVirt` | `btmod/bt/peep/tb.c:84-96` | the guest address of the instruction whose code holds the byte |
| `Translation.RoundTrip` | `btmod/bt/peep/tb.c:72-97` | the code address of any instruction of a block lies in the block's code and leads back to the instruction if and only if the instruction emitted code |
| `Translation.RoundTripFails` | `btmod/bt/peep/tb.c:84-96` | a block whose first instruction emits nothing: its code address leads to the second instruction |
| `Translation.RoundTripBack` | `btmod/bt/peep/tb.c:248-265` | from a code byte to its instruction and to that instruction's code does not go forward, and comes back to the byte exactly at code boundaries |
| `Translation.InsideMapsBack` | `btmod/bt/peep/tb.c:89-94` | every byte emitted for an instruction maps back to the instruction |
| `BlockIndex.SearchableIff` | `btmod/bt/lib/rbtree.c:207-248` | for any tree of blocks in order of their starts, with the comparison of `jumptable2.c`: every lookup returns the covering block with the lowest start, or none where nothing covers the address, if and only if this tree is searchable, a condition on its shape and the ends of its blocks |
| `BlockIndex.RisingIsSearchable` | `btmod/bt/peep/jumptable2.c:7-45` | where the ends of the blocks do not fall, every tree over them is searchable |
| `BlockIndex.FallingIsSearchable` | `btmod/bt/peep/jumptable2.c:7-45` | three translations of a guest program whose ends fall, and a red-black tree of them that is searchable all the same |
| `BlockIndex.AddKeepsOrder` | `btmod/bt/bt_main.c:57-66` | adding a block whose start nothing covers keeps the index strictly ordered by start, however tails overlap |
| `BlockIndex.AlignedEndsRise` | `btmod/bt/peep/jumptable2.c:7-13` | in an aligned program overlapping blocks end at the same instruction, so ends do not fall |
| `BlockIndex.ChainsEndAlike` | `btmod/bt/peep/peep.c:505-553` | two chains that share an instruction end at the same one |
| `BlockIndex.MisalignedLookupFails` | `btmod/bt/peep/jumptable2.c:29-45` | a guest program with two overlapping translations, a red-black tree of both in order of their starts, and a lookup of an instruction address of one of them that finds nothing |
| `BlockIndex.PassesTranslateIff` | `btmod/bt/peep/peep.c:482-561` | what the two passes leave is the translation of the chain if and only if there is code and 16 bits hold its length and the guest length |
| `BlockIndex.Index.Jumptable2Find` | `btmod/bt/peep/jumptable2.c:29-45` | in any tree, the block at the place that the lookup function gives; in a searchable tree none exactly when no block covers the address, otherwise the covering block with the lowest start |
| `BlockIndex.Index.Jumptable2Add` | `btmod/bt/peep/jumptable2.c:22-27` | the block joins the index, the order by start holds, and the other tree over the same sentinel is untouched |
| `BlockIndex.Index.TbFind` | `btmod/bt/peep/tb.c:45-63` | none exactly when no block holds the code byte, otherwise the only one that does |
| `BlockIndex.Index.TbAdd` | `btmod/bt/peep/tb.c:65-70` | the block joins the code tree and the order by code address holds |
| `BlockIndex.Index.TbTcPtrToEipVirt` | `btmod/bt/peep/tb.c:72-97` | through the tree, the guest address of the instruction whose code holds the byte, 0 when none does |
| `BlockIndex.LeadsToEmitter` | `btmod/bt/peep/tb.c:84-96` | every code byte of a translation leads to an instruction that emitted code |
| `Engine.Bt.MakeBlock` | `btmod/bt/bt_main.c:59-64` | sizing, the five requests to the pools, and emission: on success exactly the ranges of the five requests are new, in order, without those of no bytes, and otherwise those before the first request that finds its pool full; the block is the translation of its chain if and only if there is code and 16 bits hold its lengths; its bytes are emitted in its ranges of the code and the edge pool, and nothing but these and the scratch pages is written |
| `Engine.Bt.GenTranslateCode` | `btmod/bt/bt_main.c:50-80` | the code address from the covering block with the lowest start, or from a new translation in code bytes of its own, which joins both indexes exactly when nothing covered the address; a block that is entered elsewhere than at its start gets that offset into its jump boundaries; what is asked of the pools and what memory is written is exactly that of the new block, or of the one offset; after any number of calls every indexed block is still in memory as emitted, in ranges handed out for it |
| `Engine.Bt.TbAddJump` | `btmod/bt/peep/tb.c:267-300` | the offset joins the block's jump boundaries unless it is there, with exactly one new range for the longer array; they stay distinct 16-bit numbers; it fails only when the pool is full |
| `Engine.Bt.EnterBlock` | `btmod/bt/bt_main.c:72-79` | a covering block is entered at the code for the address, and only an entry elsewhere than at its start, at an offset not noted before, changes its jump boundaries and asks for memory |
| `Engine.StoredStays` | `btmod/bt/bt_main.c:57-66` | writing the scratch pages and later ranges leaves the emitted bytes of every indexed block as they were |
| `Engine.NewIsSeparate` | `btmod/bt/mem/malloc.c:59-77` | a block in a range handed out later shares no code byte with an earlier one |
| `Engine.Bt.ThereAndBack` | `btmod/bt/peep/tb.c:72-97` | looking an address up and mapping the code address back through the code tree gives the address again if its instruction emits code, and only then |
| `Dispatch.PerCpu.Add` | `btmod/bt/peep/jumptable1.c:12-37` | the four-slot shift insert at the low twelve bits of the address, tied to its function on slot sequences |
| `Dispatch.InsertedKeeps` | `btmod/bt/peep/jumptable1.c:12-37` | an insert brings in nothing but the new entry and loses nothing but the last of four full slots |
| `Dispatch.Hash` | `btmod/bt/peep/jumptable1.c:16` | the bitwise mask is the remainder by 4096 |
| `Dispatch.RemembersIff` | `btmod/bt/peep/jumptable1.c:12-37` | after an insert for an address, any accesses more than three slots away and any inserts of other addresses with the same low twelve bits, an indirect jump finds the address with its code address, in the slot counted by those inserts, if and only if they were at most three |
| `Dispatch.PerCpu.JumpIndirect` | `btmod/bt/peep/peeptab_defs.h:66-121` | a hit in the first of the four slots from the low twelve bits on that has the key leaves its code address in tx_target and exchanges it with the first slot; a miss changes no slot and leaves the target |
| `Dispatch.SwapsToFront` | `btmod/bt/peep/peeptab_defs.h:79-117` | the swap sequence exchanges the first slot with the matching one, touches no other, and leaves the matching code address in tx_target |
| `Dispatch.SwapRuns` | `btmod/bt/peep/peeptab_defs.h:79-117` | the steps of the state machine after such a hit end where the assembly does |
| `Dispatch.JumpRuns` | `btmod/bt/peep/peeptab_defs.h:66-121` | every indirect jump of a CPU is a run of the state machine, probe and swap steps, that ends in the slots, the tx_target and the hit or miss that the method leaves |
| `Dispatch.PatchedJumpGoal` | `btmod/bt/bt_main.c:100-103` | a patched displacement leads to the code address it was computed from, in 32-bit arithmetic, and is 0 for the address behind it |
| `Dispatch.EnteredIff` | `btmod/bt/bt_main.c:72-79` | in any program, the address taken from a covering block is as far into the code of the instruction that holds the byte as the byte is into that instruction, so it is where code for the guest address begins if and only if the address is on the block's chain |
| `Dispatch.EnteredIsCode` | `btmod/bt/bt_main.c:72-79` | in an aligned program, the address taken from a block that covers a reachable address is where the code of the instruction there was emitted |
| `Dispatch.MisalignedEntryFails` | `btmod/bt/bt_main.c:72-79` | a guest program in which the only block covers the start of another chain, and the address taken from it is no translation of that start |
| `Dispatch.RunOk` | `btmod/bt/bt_main.c:50-105` | over every interleaving of misses, cache inserts, swap instructions and chaining on any number of CPUs: the blocks translate the guest program and share no code byte, and each non-empty slot and each patched jump leads to the code emitted for the instruction at its own guest address |
| `Dispatch.JumpsAreRight` | `btmod/bt/peep/peeptab_defs.h:66-121` | in every run an indirect jump goes to the code emitted for its target if and only if, before the probe, the first slot with its key was not an empty one; only target 0 can have such a slot |
| `Dispatch.PatchedJumpsAreRight` | `btmod/bt/bt_main.c:100-103` | in every run a jump through a patched displacement goes to the code emitted for its static target, 0 included |
| `Dispatch.ZeroTargetFails` | `btmod/bt/peep/peeptab_defs.h:66-74` | a run in which a jump to guest address 0 goes wrong |
| `Dispatch.MissIsThreeSteps` | `btmod/bt/bt_main.c:82-105` | in every state of any number of CPUs, a miss takes one of them through three steps of the state machine and leaves the others as they were |
| `Engine.Bt.MonitorEntry` | `btmod/bt/bt_main.c:82-133` | what a miss does to the indexes, the memory, the pools, the cache, the displacement and tx_target is a run of those three steps in every state of any number of CPUs in which this one missed, and the address it leaves is the code emitted for the guest address; it fails only with a request that finds a pool full |
| `Liveness.PairList.Add` | `btmod/bt/peep/nomatch_pair.c:60-86` | a pair is listed once whichever way round, and adding fails only on a full list |
| `Liveness.RegSet.Diff` | `btmod/bt/peep/regset.c:56-75` | set difference on the three parts of a register set |
| `Liveness.RegSet.Union` | `btmod/bt/peep/regset.c:77-90` | set union on the three parts |
| `Liveness.RegSet.Mark` | `btmod/bt/peep/regset.c:21-36` | just the register named by number and tag joins the set |
| `Liveness.InsnGetUsedef` | `btmod/bt/peep/insn.c:1268-1301` | the arrays of the two sets hold exactly the numbers of the registers read (register operands after the first, base and index of memory operands, byte registers as parts of the first four) and written (the first operand's register) |
| `Liveness.OutputNomatchPairs` | `btmod/bt/peep/regset.c:92-150` | the list grows by exactly the pairs of a written variable or temporary and a live register other than itself, and fails only when it is full without one of these |
| `Liveness.NomatchPairsForEntry` | `btmod/bt/peepgen.c:2792-2807` | the backward loop lists exactly the pairs of which some instruction writes one while the other is live; it fails exactly when the list of 32 is full of such pairs and another one is missing |
| `Liveness.SeparationIsEnough` | `btmod/bt/peepgen.c:2792-2807` | an assignment of registers that separates the listed pairs, live names from written machine registers, and results from what is written after them, makes every instruction read, and the code leave in its results, what it would with a cell of its own for every name, whatever instructions compute |
| `Liveness.UseDecidesReads` | `btmod/bt/peep/insn.c:1268-1301` | what the operands of an instruction take from registers is the same under two contents of the registers if and only if these agree on the use set |
| `Liveness.EveryPairIsNeeded` | `btmod/bt/peep/regset.c:92-150` | giving a listed pair one register makes some instruction read a wrong value |
| `Liveness.LateWriteIsFatal` | `btmod/bt/peepgen.c:2792-2807` | a write to the register of a result after the last write of the result makes the result wrong |
| `Liveness.PairsAreExact` | `btmod/bt/peepgen.c:2792-2807` | the assignments that always work, results included, are those that separate the listed pairs, live names from written machine registers, and results from what is written after them |
| `Liveness.PairsDecideReads` | `btmod/bt/peepgen.c:2792-2807` | when only variables are written and only reads matter, the assignments that always work are those that separate the listed pairs |
| `Liveness.ResultIsLost` | `btmod/bt/peepgen.c:2792-2807` | code that writes a variable and then a temporary has no pair, and loses the variable when both have one register |
| `Liveness.MachineWriteIsLost` | `btmod/bt/peep/regset.c:92-150` | code that writes a machine register while a variable is live has no pair, and goes wrong when the variable has that register |
| `Temporaries.ViolatesPairs` | `btmod/bt/peep/peep.c:292-340` | true exactly when a pair joins the temporary with a register, or a variable bound to the register, in question |
| `Temporaries.FindTemporaryRegs` | `btmod/bt/peep/peep.c:342-384` | chosen registers are distinct, have numbers that their tags allow and clash with no pair; they are the greedy choice from candidate sets that are known before the call; failure means that none is left for the next temporary |
| `Temporaries.TemporariesSeparated` | `btmod/bt/peep/peep.c:292-384` | the registers chosen separate every listed pair that involves a temporary, also two temporaries |
| `Temporaries.SeparationIff` | `btmod/bt/peep/peep.c:319-336` | all pairs are separate if and only if those without temporaries are |
| `Temporaries.MatchedRuleFaithful` | `btmod/bt/peep/peep.c:458-470` | with matched and chosen registers the rule's output always computes, results included, as over separate cells if and only if the pairs without temporaries are separate, live names are apart from written machine registers, and nothing is written over a result |
| `Matcher.OneRegisterForTwo` | `btmod/bt/peep/peep.c:458-470` | a template, an instruction that matches it with one register for both variables, and output code that goes wrong with them |
| `Temporaries.SucceedsIff` | `btmod/bt/peep/peep.c:350-378` | the choice succeeds if and only if no candidate set lies within the registers chosen from the sets before it |
| `Temporaries.EnoughCandidates` | `btmod/bt/peep/peep.c:350-378` | the choice succeeds if every temporary has more candidates than there are temporaries before it |
| `Temporaries.SizesDecide` | `btmod/bt/peep/peep.c:350-378` | the choice succeeds for all candidate sets of given sizes if and only if each size exceeds the number of temporaries before |
| `Temporaries.SuccessNeedsCandidates` | `btmod/bt/peep/peep.c:350-378` | after a success any temporaries have together at least as many candidates as they are |
| `Temporaries.GreedyGetsStuck` | `btmod/bt/peep/peep.c:350-378` | an input on which the choice fails although registers would do |
| `Assignments.GetvalExtends` | `btmod/bt/peep/assignments.c:30-51` | what a variable is bound to stays when more is bound |
| `Assignments.OperandsEqualIff` | `btmod/bt/peep/insn.c:920-968` | operands are found equal if and only if they are, but for the address size of memory operands |
| `Assignments.SatisfiesIff` | `btmod/bt/peep/assignments.c:323-338` | a register number passes the test of a tag if and only if it is in the tag's set of numbers |
| `LinearTemplates.LinearMatchIff` | `btmod/bt/peep/peep.c:95-290` | a template in which no operand names a variable of an earlier one matches exactly the instructions with its opcodes whose operands each are what its operand stands for: constants by value, variables by their tag's register numbers and by size, memory operands field by field |
| `LinearTemplates.ImmediateSizes` | `btmod/bt/peep/peep.c:185-199` | an immediate of size 1, 2 or 4 is below 256, 65536 or 2^32 |
| `Assignments.Assignments.GetvalOf` | `btmod/bt/peep/assignments.c:30-51` | the loop computes the lookup that the lemmas are about |
| `Unify.MatchIsSound` | `btmod/bt/peep/peep.c:272-290` | after a match of a template that cannot split a variable every operand of every instruction is the template's with the bound values put in; values satisfy tags and sizes; each register variable has one register |
| `Unify.SoundIff` | `btmod/bt/peep/peep.c:95-249` | if anything matches a template, then all matches are its instances if and only if no operand can split a variable: no immediate with a size comes again, and no memory operand names an unbound variable twice, unless its tag allows one value only |
| `Unify.SplitIsUnsound` | `btmod/bt/peep/peep.c:95-212` | any match of a template that can split a variable can be changed in one operand into a match that is an instance under no assignment |
| `Unify.FilledMatchesIff` | `btmod/bt/peep/peep.c:214-249` | instructions that are a template with coherent values put in match it if and only if no variable but an immediate with a size stands as a whole operand after it was bound |
| `Unify.CompleteIff` | `btmod/bt/peep/peep.c:214-249` | if a template has an instance, then it matches all its coherent instances under the same condition and no other |
| `Unify.RepeatNeverMatches` | `btmod/bt/peep/peep.c:227-248` | a template in which a bound variable comes again as a whole operand matches nothing |
| `Unify.OperandSound` | `btmod/bt/peep/peep.c:170-249` | an operand that cannot split a variable and matches is its template's instance, sized immediates and sub-registers included |
| `Unify.MemSound` | `btmod/bt/peep/peep.c:132-168` | the same for segment, base, index, scale and displacement of a memory operand |
| `Unify.RepeatedVariableFails` | `btmod/bt/peep/peep.c:227-248` | a template with one register variable twice has instances and matches nothing |
| `Unify.RepeatedInMemoryUnsound` | `btmod/bt/peep/peep.c:95-130` | a variable as base and index of one memory operand matches different registers |
| `Unify.RepeatedImmUnsound` | `btmod/bt/peep/peep.c:189-199` | an immediate variable with a size that comes again matches 1 and 2 |
| `Matcher.Peep.TemplMatchesInsns` | `btmod/bt/peep/peep.c:272-290` | for every template that never meets the assertions on the number of bindings, the loops compute the match that the lemmas are about, and leave its assignment |
| `Matcher.MatchForcesHash` | `btmod/bt/peep/peep.c:58-72` | what matches has an equal 32-bit hash |
| `Matcher.TypeNumbersDiffer` | `btmod/bt/peep/peep.c:58-72` | operands add the same to the hash value if and only if they have one type |
| `Matcher.HashAdds` | `btmod/bt/peep/peep.c:58-72` | the hash value of a row of instructions is the sum of those of its parts, in 32 bits |
| `Matcher.OneInsnHashIff` | `btmod/bt/peep/peep.c:58-72` | when two instructions hash alike |
| `Matcher.PeepInit` | `btmod/bt/peep/peep.c:563-579` | the table holds every entry, each as often as given, through all rehashing, and each bucket has its entries with the last one first |
| `Matcher.FindRule` | `btmod/bt/peep/peep.c:427-440` | the scan of one bucket finds a usable rule if and only if the whole table has one, and then the last usable entry of the table |
| `Matcher.FirstInBucketIsLast` | `btmod/bt/peep/peep.c:427-440` | the first usable rule of the bucket is the last usable entry that the table was filled with |
| `Matcher.PeepTranslate` | `btmod/bt/peep/peep.c:412-470` | the last usable entry, its sound match, and the greedy choice of registers for its temporaries |
| `Patching.SetField` | `btmod/bt/peepgen.c:2152-2174` | setting or clearing the bits of a field chooses or drops exactly that field |
| `Patching.RegbitCode` | `btmod/bt/peepgen.c:2112-2179` | the masks found from a pair of variants are the field of the register bit, byte by byte; without a pair there are none, and the row is empty exactly when then some byte differs between variants |
| `Patching.RegisterVariableCode` | `btmod/bt/peepgen.c:2305-2346` | the patches cover every bit of every register variable |
| `Patching.EmitEntry` | `btmod/bt/peepgen.c:2418-2438` | the two output buffers are as before with the template, just its patched fields changed, laid over them at the two pointers, which move on by its two parts |
| `Patching.PatchedIsAssembled` | `btmod/bt/peepgen.c:2181-2236` | the output is what the assembler gives for the registers if and only if every field without a pair is empty or already right |
| `Patching.NoPairFails` | `btmod/bt/peepgen.c:2112-2179` | with variants for the registers 0 to 3 only, the code for register 4 comes out as that for register 0 |
| `RuleOutput.OutputVariants` | `btmod/bt/peepgen.c:698-723` | there is a variant for a register if and only if the variable's tag allows it, and each is what the assembler makes of the text for that register |
| `RuleOutput.PairOrFixed` | `btmod/bt/peepgen.c:2112-2179` | for every tag, each bit of the register number has a pair of variants or is the same in all registers of the tag |
| `RuleOutput.AllowedIsAssembled` | `btmod/bt/peepgen.c:2181-2236` | for all registers that the tags allow, the patched bytes are what the assembler gives for them |
| `RuleOutput.RuleIsRight` | `btmod/bt/peep/peep.c:458-470` | the registers of a matched rule are allowed by its tags and its bytes are the assembled ones for them; with these registers the output always computes as over separate cells if and only if the pairs without temporaries are separate, live names are apart from written machine registers, and nothing is written over a result |
| `RuleOutput.EmitRule` | `btmod/bt/peepgen.c:2418-2438` | the rule's output, assembled for the registers that the match and the choice of temporaries gave, comes at the two pointers, and no other byte of the buffers is written |
| `RuleOutput.EmitRules` | `btmod/bt/peep/peep.c:505-551` | rules emitted one after another leave in both buffers the concatenation of their assembled parts and nothing else |
| `MyList.List.Insert` | `btmod/bt/lib/mylist.c:171-184` | the element stands just before the given one, in a list linked both ways |
| `MyList.List.Remove` | `btmod/bt/lib/mylist.c:262-269` | just that element is gone, and the one after it is returned |
| `MyList.List.Splice` | `btmod/bt/lib/mylist.c:186-210` | within one list the range moves to its new place, everything else keeps its order, and all links are right |
| `MyList.List.SpliceFrom` | `btmod/bt/lib/mylist.c:186-210` | between two lists the range leaves the one and stands before the given element of the other, and all links of both are right |
| `MyList.List.FindEndOfRun` | `btmod/bt/lib/mylist.c:369-388` | a maximal run: no descent inside, and one at its end unless the range ends there |
| `MyList.List.InplaceMerge` | `btmod/bt/lib/mylist.c:390-415` | two sorted neighbouring ranges become one sorted range, equivalent elements keep their order, nothing outside moves |
| `MyList.List.Pass` | `btmod/bt/lib/mylist.c:435-452` | a pass that counts more than one run leaves strictly fewer descents, and one that counts at most one leaves none |
| `MyList.List.Sort` | `btmod/bt/lib/mylist.c:418-457` | the sort ends, and leaves a well-linked list of the same elements, sorted, each class of equivalent elements in its old order |
| `MyList.MoveKeepsClasses` | `btmod/bt/lib/mylist.c:410-413` | moving an element forward over larger ones is stable |
| `HashTable.IdealBucketCount` | `btmod/bt/lib/hash.c:427-434` | the search ends at the greatest power of two that is not above the greater of half the elements and the minimum |
| `HashTable.TurnsOffLowBit` | `btmod/bt/lib/hash.c:389-401` | x and x - 1 bitwise: the lowest bit goes |
| `HashTable.MaskIsRemainder` | `btmod/bt/lib/hash.c:343-349` | for a power of two the bucket index is the hash modulo the bucket count |
| `HashTable.IsGreatest` | `btmod/bt/lib/hash.c:427-434` | a power of two that is at most m and more than half of it is the greatest one up to m |
| `HashTable.SearchEndsIff` | `btmod/bt/lib/hash.c:427-434` | the search comes to a power of two after some number of rounds if and only if the minimum is positive or there are two elements |
| `HashTable.ZeroIsStuck` | `btmod/bt/lib/hash.c:430-434` | from 0 every number of rounds leaves 0 |
| `HashTable.Table.Rehash` | `btmod/bt/lib/hash.c:412-475` | the same elements, each in the bucket of its hash, in the ideal number of buckets; if that number changes, all elements are pushed to the front of their new buckets in the order of the old ones |
| `HashTable.Table.Insert` | `btmod/bt/lib/hash.c:119-135` | adds the element, in front of its bucket, if and only if no equal one is there, else returns an equal one |
| `HashTable.Table.Replace` | `btmod/bt/lib/hash.c:137-153` | the first equal element of the bucket goes and is returned, and the new one comes in front |
| `HashTable.Table.Delete` | `btmod/bt/lib/hash.c:176-193` | removes and returns the first equal element of the bucket, or finds that there is none in the table |
| `HashTable.FirstIsLast` | `btmod/bt/lib/hash.c:478-483` | of the elements pushed to the front of a bucket the first with any property is the one pushed last |
| `HashTable.Table.Find` | `btmod/bt/lib/hash.c:155-160` | looks at one bucket only and still finds an equal element whenever the table has one |
| `HashTable.StaysDistinct` | `btmod/bt/lib/hash.c:119-193` | under an equivalence, insert, replace and delete keep elements pairwise unequal |
| `HashTable.AtMostOne` | `btmod/bt/lib/hash.c:176-193` | after a delete no element is equal to the key |
| `HashTable.HashIterator.Next` | `btmod/bt/lib/hash.c:257-274` | the elements come in one fixed order, each once, and null comes after all of them |
| `Pools.MallocInfo.MallocFromPool` | `btmod/bt/mem/malloc.c:59-77` | the range follows those before it in the first chunk of the pool that passes the test, and only that chunk's pointer moves on, by the size; none only when no chunk passes; everything handed out stays apart and inside its chunk if and only if the sum of that test did not wrap |
| `Pools.PoolsShareChunks` | `btmod/bt/mem/malloc.c:134-143` | every chunk belongs to exactly one pool, 24, 16 and 20 of them |
| `Pools.MallocInfo.AddrToPool` | `btmod/bt/mem/malloc.c:99-122` | every byte handed out is classified right: code, edge, or neither |
| `Pools.MallocInfo.Init` | `btmod/bt/mem/malloc.c:79-97` | chunks set up over separate pages without their last 16 bytes, or failure when a page range is missing |
| `Pools.HasRoomIff` | `btmod/bt/mem/malloc.c:66-68` | the 32-bit test for room says whether the size fits if and only if the sum does not wrap or is above the end in any case; what passes it fits if and only if the sum does not wrap |
| `Pools.WrapEscapes` | `btmod/bt/mem/malloc.c:66-68` | a size with which a wrapped sum passes the test and leaves the chunk |

## Left out

- The disassembler, the rules' output code and the assembler: a `Decoder` gives length, end of block and emitted bytes of each guest instruction, with a number of bytes that does not depend on where they go; a `Layout` gives the assembler's encoding.
- Guest ranges and code ranges that wrap at 2^32, and guest code that changes after it was translated.
- The counting prologues of INSCOUNT and PROFILING, with which the first code boundary is not 0.
- The memory instrumentation and the exception table entries that `translate` may add for an instruction.
- The window between `popfl` and the indirect jump after a cache hit, in which an interrupt could change tx_target: a hit and its jump are one step.
- The reentrancy test on `lock_owner` and the spinlock itself: the critical section of a miss is one atomic step.
- Resuming on other CPUs, interrupts, ioctls and the set-up of the kernel module.
- The jump boundaries of a block are kept beside the memory bytes, not in the range that they take from a pool.
- The displacement words that the monitor patches into emitted jumps are kept beside the memory bytes, not in them.
- `Engine.Bt.GenTranslateCode`: a program is translatable when every reachable chain passes the C assertions and fits 16 bits; a failed assertion stops the kernel, and `Engine.Bt.MakeBlock` says what a chain that does not fit leaves. A full pool is a result where the source stops the kernel.
- `Engine.Bt.constructor`: the chunks of the pools end at least 128 KB below 4 GB and apart from the scratch pages, as the kernel's address space has them.
- `Dispatch.PerCpu.Add`: the 64-bit stores of one insert are one step, since the table is per CPU and interrupts are off.
- `Liveness.SeparationIsEnough`: an instruction that also reads its first operand, or writes a second register or the flags into one, is not covered, since `insn_get_usedef` takes the first operand as written only.
- `Dispatch.MisalignedEntryFails` and `BlockIndex.MisalignedLookupFails` name the state that goes wrong, not a whole run of the system that reaches it.
- `Liveness.PairList.Add`: the list is a sequence of at most 32 pairs; a full list is reported where the source asserts.
- `Unify.MatchIsSound`: constant immediates of templates have no size, and the assertion of `assignments_getval` on the size of a repeated register is not modelled. An immediate variable that comes in different sizes, or as a displacement, counts as one variable for each, so nothing is said of the agreement of their values.
- `Matcher.Peep.TemplMatchesInsns`: a template that meets an assertion on the number of bindings stops the source.
- `RuleOutput.AllowedIsAssembled`: the assembler accepts the text for every register that the tags allow; variants for segment registers are left out.
- `Unify.SoundIff`: a register variable that stands in base and index of one memory operand has one tag there, as `read_constraint` gives each variable one tag.
- `Matcher.PeepTranslate`: is for rules whose templates cannot split a variable; ends before the generated code is called; when no register is left for a temporary the source logs it and goes on with undefined registers. CPU constraints are a given predicate on rules.
- Byte registers 4 to 7, which are parts of the first four registers: the pairs compare register numbers, as the source does.
- `Patching.EmitEntry`: relocations, edge offsets and segment prefixes, which the generator patches apart from register bits, are not modelled; patches are data instead of printed statements.
- `LinearTemplates.LinearMatchIff`: segment registers are numbered 0 to 7, as the disassembler gives them.
- `HashTable.Table.Rehash`: buckets are sequences instead of linked lists, and the allocation of the new buckets does not fail; the lists themselves are in `MyList`.
- `MyList.List.Splice`: the place is outside the range that moves; a place inside the range would break the source's list.
- `mylist_insert_ordered`, `mylist_unique`, minimum and maximum, `rbtree_prev` and the other walks backwards: they would add easy members only.
- `strtol`, string utilities, opcode tables, ELF and symbol handling, printing and logging.
