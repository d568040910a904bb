# Proofs about the native run-time engine

A Dafny 4.11 model of the C++ under the emulator's JIT, which the repository's Lean theorems take as obligations
(Bap/Jit.lean:1-93), with proofs of what those ask for. `dafny verify dfyconfig.toml` checks all of it. Code that changes
things step by step is methods and classes here, proved against functions on values; what is promised of those is lemmas.

- `Basics`: words of 64 bits, and values that may not be there.
- `BlockGraph`, `DepthSearch`, `Programs`, `BudgetSplit`, `BudgetSteps`, `BudgetCases`: the pass over a control-flow
  graph that drops the budget checks of a fast copy and guards it instead. The main result, `SplitIsInvisible`, is a
  simulation in both directions, for every graph, every meaning of its blocks and every start state. What the blocks
  do is any function that keeps the contract of the budget slot: a check that goes on lets one be spent, by that block
  or by a later one before the next check, and nothing else lowers the budget. The search in depth is a loop with a
  stack and marks, and what it gives is a certificate, which the proof about paths needs and no more. `BudgetSteps`
  says what both programs do at each place, apart from how a step of them is worked out. `BudgetCases` proves that
  contract of blocks of operations that take from the slot behind checks.
- `Operations`, `Promotion`, `PromotedSteps`: the 18 operations, and optimized code that works on copies of the slots.
  `RunsAlike` holds for every list of operations, whatever the operations that compute do; `Operations` proves what
  they do, and `EveryStepIsPromised` says what every operation does in every run of optimized code.
- `PageTable`, `PagedRace`, `PagedProgress`: the four-level table, and threads that race on it, as a transition system
  with a step for each access to shared memory, and for each instruction that compiled code runs on a page itself.
  `EveryRunTells` says that every interleaving is as if accesses came one after another, and `AccessEnds` that a
  thread that runs alone ends its access.
- `Bytes`, `StepLog`, `PageWalk`, `PagedMemory`: the same table as a class of one thread, which refines a total map
  from 64-bit addresses to bytes, and the log by which a step is taken back.
- `Endian`, `StoreLog`, `MemoryFilter`, `RunSpec`, `RunAccess`, `RunSites`, `Cells`: the accesses and code sites of a
  run, of one range or of a chain. `RunSpec` is a run with no cache and no page at hand, `RunAccess` says which bytes
  its loads and stores are of and what each access and site tells, and `RunSites` what observers know when; `Cells` is
  the class that has the caches, and each of its methods is proved to come to what `RunSpec` says.
- `ChainSpec`, `ChainSteps`, `ChainReuse`, `ChainCounts`, `Chain`, `ChainCases`: running compiled ranges one after
  another. `ChainSpec` runs them one at a time, with every target looked up, from slots that are used again or made
  anew, and `ChainSteps` says what each of them leaves in variables, slots and counts, and when a run goes on. `Chain`
  is the class with the caches, whose `Run` comes to the first for any ranges at all; `ChainReuse` proves the two the
  same for ranges that depend on just what they may read; `ChainCounts` keeps the accounts; and `ChainCases` has
  ranges that meet that and runs that do not.
- `Sha`, `ShaFacts`: the instruction sequences of the x86 model against FIPS 180-4, and its functions and constants by
  what they are.
- `Division`: division of 64 bits by shifting and subtracting.

Where what one would expect is not so, the model keeps what the code does, and a lemma says exactly when it is so:

- Two variables with one register in a chain. If one is written, another that is read after the run can be lost, be it
  written too (`Promotion.SharedHomesLose`) or not (`Promotion.UnwrittenLoses`); and none is, whatever a run leaves, just if
  no slot that is left shares its home with one that is read (`Promotion.LeftJustIfApart`). The code takes any pairs.
- A slot of a chain's layout whose variables are not bound holds what another range left (`ChainReuse.StaleSlot`), which a
  range that reads it can tell (`ChainCases.StaleSlotIsSeen`). Ranges that read only those of variables they need cannot
  (`ChainReuse.ReuseIsInvisible`). Of outputs, that asks for agreement only on those that were reached where the range went,
  and on their slots only if the variables are there.
- A chain run that fails gives back the executions it counted, unless they began again at 0 in 64 bits
  (`ChainCases.ExecutionsAreLost`, `ChainCounts.FailedRunsCountNothing`).
- What a run says that it wrote does not have what its observers wrote (`RunSpec.ObserverIsNotSaid`). It is the whole
  difference just if what they wrote last is that already (`RunSpec.EveryRunOverlays`).
- A site that waits at the end of a range of a chain is dropped there, and the code observer may then not know it when the
  memory observer is called for an access after it (`RunSites.DroppedIsNotTold`), just if that is the first access that is not
  let through and the next range passed no site before it (`RunSites.LostIfDropped`).
- The least value divided by -1 (`Division.Recompose`).

The comment at native/bap_jit.cpp:2095 says that nothing reads the slots that are left as the last range had them. Those of the
layout whose variables are not bound are left so too; the model follows the code.

## Model

| member | source | states |
|---|---|---|
| DepthSearch.FindTargets | native/bap_jit.cpp:1135-1156 | The search ends for every graph, and its targets with the order it was done with blocks are a certificate: every edge that it reached goes to a target or to a block that was done with before, and every block but the first was reached from one done with after it. There is no target but those of jumps back in that order. |
| BlockGraph.SegmentsAreSimple | native/bap_jit.cpp:1072-1076 | Of all paths over what was reached with no target on the way, each goes strictly down in that order, so it enters no block twice. |
| BlockGraph.CyclesMeetTargets | native/bap_jit.cpp:1072-1076 | Every way round, of any length, goes through a target of a jump back. |
| BudgetSplit.CountChecks | native/bap_jit.cpp:1098-1101 | The number the guards compare with is the number of blocks that check the budget. |
| BudgetSplit.SplitBudget | native/bap_jit.cpp:1095-1188 | The pass: with an order of the blocks in which each jump goes to one of its targets or to what is before, and a jump from no later goes to each target, what comes out is the split of the graph just if there is a check and no target merges values, and otherwise the graph as it was. |
| BudgetSplit.AssembleIsSplit | native/bap_jit.cpp:1103-1184 | The places of what comes out are the original blocks, a copy of each without its check, a guard before each target of a jump back and one at the start, and no others, and each leads where it is to. |
| BudgetSplit.CreditHasCheck | native/bap_jit.cpp:1072-1076 | A block that may spend what an earlier check let through has such a check behind it that no segment from the block comes to again. |
| BudgetSplit.GuardSuffices | native/bap_jit.cpp:1163-1169 | A budget of as many as there are checks is enough, at any block reached, for every check that the segment from it can pass and for what the block may still spend. |
| BudgetSplit.FastPays | native/bap_jit.cpp:1128-1134 | In the fast copy with enough in the budget, a check that was dropped would have gone on, and what is left is enough for the next block unless a guard is there. |
| BudgetSplit.FastArrives | native/bap_jit.cpp:1103-1134 | From the fast copy of a block, in step with the original, a check that was dropped had something left in the budget, and wherever the block goes the two are in step again, at a guard or with enough in the budget. |
| BudgetSplit.BlockTogether | native/bap_jit.cpp:1106-1184 | A block does the same from the same state in both programs, and goes to the same block of one copy or the other, or returns the same value. |
| BudgetSplit.RelationSimulates | native/bap_jit.cpp:1072-1187 | The original blocks and what the pass made of them go together, block by block, with at most one guard before each. |
| Programs.Forward | native/bap_jit.cpp:1072-1187 | Two programs that go together block by block: however far the first runs, the second runs as far and shows the same, in at most twice as many nodes. |
| Programs.Backward | native/bap_jit.cpp:1072-1187 | And the other way round: all that the second does in any number of nodes the first does too. |
| BudgetSplit.SplitIsInvisible | native/bap_jit.cpp:1072-1187 | For every graph, every meaning of its blocks that keeps the contract of the budget slot, and every start state: the split program does the same blocks in the same order with the same states, and ends just if the original does, with the same value. |
| BudgetSplit.EitherWayTheSame | native/bap_jit.cpp:1072-1187 | The same of whatever `SplitBudget` gives, split or not. |
| BudgetSteps.BlockDoes | native/bap_jit.cpp:1072-1076 | What a graph does at each block, of either copy before it is told apart: it ends there with the value of its return, or goes to the block that its jump, its branch by the state that it left, or its check by whether there is any budget, says. |
| BudgetSteps.SlowDoes | native/bap_jit.cpp:1103-1184 | The blocks that a split has as they were do that, and stay among those. |
| BudgetSteps.FastDoes | native/bap_jit.cpp:1103-1134 | No block of the fast copy ends with a check; it does what the block does and goes to the fast copies of where that goes, by a guard just if there is one, and where there was a check it goes on whatever the budget. |
| BudgetSteps.GuardDoes | native/bap_jit.cpp:1163-1184 | There is a guard at the start and one at each target; it goes to the fast copy just if the budget is at least the number of blocks that end with a check, and otherwise to the block as it was, and does nothing. |
| BudgetSteps.OneNode | native/bap_jit.cpp:1072-1187 | A run of no node shows nothing and is where it was, and one of one node shows and comes to what that node does. |
| BudgetSteps.RunsOn | native/bap_jit.cpp:1072-1187 | A run goes on from where it got, and shows what it does in that order, after what it had shown; one that ended stays so. |
| BudgetCases.TakesNoMore | Bap/Primus/Lifted.lean:998-1016 | Whatever the operations of a block do, with accesses and code sites, the budget slot has no less after them but for one for each time that they take one from it, in 64 bits. |
| BudgetCases.TakesAll | Bap/Primus/Lifted.lean:998-1016 | A block that goes through all of its operations leaves in the budget slot exactly what was there less the times that they take one from it, in 64 bits. |
| BudgetCases.BlocksKeepAccounts | Bap/Primus/Lifted.lean:998-1016 | Blocks of operations that write the budget slot only to take one from it, at most once and behind a check, as ranges are lowered to, keep the contract of that slot. |
| BudgetCases.BlocksSplitTheSame | native/bap_jit.cpp:1072-1187 | So what the pass makes of such blocks does what they do and no more, for every graph of them, every host and every start state. |
| BudgetCases.LoopIsSplit | native/bap_jit.cpp:1072-1187 | There are splits: a loop of a check, a block that takes one and a return has all that the proof asks of one. |
| Operations.SignedQuotientIsRight | native/bap_jit.cpp:794-808 | For all words: the code of a signed division gives the quotient cut towards zero, 1 or all ones for a divisor of 0 by the sign of what is divided, and the least value itself for it by -1, though the code works out both sides of each choice. |
| Operations.SignedRemainderIsRight | native/bap_jit.cpp:794-808 | For all words: what the signed remainder gives is what the quotient of the same code leaves, what is divided for a divisor of 0, and 0 for the least value by -1. |
| Operations.ShiftsAreRight | native/bap_jit.cpp:751-760 | For all words and every amount, 64 and more too: a shift up is the product with that power of 2, in 64 bits, and one down the quotient rounded down. |
| Operations.BitsAt | Bap/Proofs/Primus.lean:6574-6576 | Each bit of two words combined is that of their bits, for every bit there is. |
| Operations.BinIsRight | native/bap_jit.cpp:731-815 | For every operation of two slots and all words, what the code gives is what the Lean model of it is to mean: sums and products congruent in 64 bits, bits, floors, quotients and remainders with their values for 0 and overflow, and comparisons. |
| Operations.ComparisonsTie | native/bap_jit.cpp:761-782 | The comparisons of all words fit together, unsigned and signed: one is less just if it is not at least the other, greater just if the other is less, and at most just if it is less or equal; equal just if not unequal. |
| Operations.SignedIs | native/bap_jit.cpp:778-781 | The signed number of a word differs from it by nothing or by 2^64, and is within 63 bits and a sign. |
| Operations.ComputeIsRight | Bap/Jit.lean:8-12 | For every operation that computes and all slots, the code gives what is promised of it. |
| Operations.ExtensionIsRight | native/bap_jit.cpp:828-844 | For all words and widths: a shift up and an arithmetic shift down give the low bits read as a signed number of that width. |
| Promotion.RunsAlike | native/bap_jit.cpp:1192-1289 | For every list of operations and any number of steps, the code on copies goes on while the code on slots does, with the same copies and world, has left its slots at the same sites, and returns the same value with just the slots that it is to leave written back. |
| Promotion.StepsAlike | native/bap_jit.cpp:1192-1289 | The same of one step, from any two states that are alike. |
| Promotion.KeptSlotsAreLeft | Bap/Jit.lean:8-12 | What is promised of optimized code: after every run that returns, each slot that is read afterwards is where it is between runs as the unoptimized code would leave it, if no other slot is left in that place; and a place that no slot is left in is as it was. |
| Promotion.LeftJustIfApart | native/bap_jit.cpp:1222-1233 | The exact condition: whatever the code leaves in the slots that it writes, every slot that is read after a run is at its home as it is, if and only if no other slot is left in the home of one of those, be it written or not. |
| Promotion.UnwrittenLoses | native/bap_jit.cpp:1222-1233 | A second counterexample without that condition: a variable that is kept and never written shares a register with one that is, and an accepted program leaves the other value there. |
| PromotedSteps.EveryStepIsPromised | native/bap_jit.cpp:688-1043 | In every run of optimized code, whatever the host, each operation that it comes to does what is said of it: one that computes leaves in its slot what is promised of what its slots have then; a branch goes on at its first label if the slot is not 0 and otherwise at its second; a goto at its label; a jump ends with its target, and one by a slot with what that has, with all that is read afterwards left at home; a load puts what the host loads in its slot; a store is of what its slots have; and a site is passed, or its Lean code looks at what it is to see and goes on, or stops with 3 in the slot of its effect and returns its pc. No other slot changes. |
| Promotion.SharedHomesLose | native/bap_jit.cpp:1222-1233 | A counterexample without that condition: an accepted program sets two variables that were given one register to 1 and 2, and the register holds 2 for both. |
| Promotion.LastIsLeft | native/bap_jit.cpp:1286-1288 | Of slots that are left in one place, what is there is the last. |
| Promotion.LeftAt | native/bap_jit.cpp:1286-1288 | After slots are left in their homes, each home has what was left there last, and otherwise what it had. |
| Promotion.LeftAgain | native/bap_jit.cpp:1258-1267 | What was left at a site on the way is no more after slots are left again: the places are as if it had never been. |
| Promotion.LooksTheSame | native/bap_jit.cpp:1237-1267 | What the Lean code of a flushed site can look at is the current value of every slot that is read after a run. |
| Promotion.StepTouches | native/bap_jit.cpp:1203-1219 | A step leaves slots that no operation writes as they were. |
| Promotion.MakePlan | native/bap_jit.cpp:1203-1251 | The plan knows of all that any operation writes and of nothing else, keeps just the slots that are said to be read afterwards or all, and takes the last register that was given for a slot. |
| Promotion.MarkWritten | native/bap_jit.cpp:1203-1219 | A slot is marked as written just if an operation writes it. |
| Promotion.MarkRead | native/bap_jit.cpp:1245-1251 | A slot is marked as read afterwards just if it is in the list, or if there is no list. |
| Promotion.FindHomes | native/bap_jit.cpp:1222-1233 | The home of a slot is the register of the last pair for it, if there is a chain, and otherwise its place in the state. |
| Promotion.Check | native/bap_jit.cpp:664-1046 | What is compiled is accepted just if its operations and labels are in range, no label is there twice, and blocks end with the one operation that goes elsewhere. |
| Promotion.LabelsOf | native/bap_jit.cpp:664-677 | Labels are found, or one that is there twice. |
| Promotion.StaysInside | native/bap_jit.cpp:664-686 | A step of an accepted program is never stuck and stays among its operations. |
| Promotion.RunStaysInside | native/bap_jit.cpp:664-1050 | Nor does any run of one get stuck. |
| PageTable.PrefixGrows | native/paged_memory.h:64-66 | The entry that a level has of an address, with the bits above it, is the bits that the next level is under: four levels of 13 bits over 12 hold all 64. |
| PageTable.FindServes | native/paged_memory.h:183-192 | In every table that is right, what is found at an address is the page of its page number, so that no page serves two. |
| PageTable.FindByNumber | native/paged_memory.h:183-192 | Addresses of one page are found at one page. |
| PageTable.FindStays | native/paged_memory.h:3-6 | What is found stays found where it is, whatever entries come. |
| PageTable.LinkNode | native/paged_memory.h:194-208 | A new node in a null entry keeps the table right and changes nothing that is found anywhere. |
| PageTable.LinkPage | native/paged_memory.h:209-219 | A new page in a null entry is found at just the addresses of its number, and nothing else changes. |
| PageTable.NothingUnder | native/paged_memory.h:183-192 | Under a null entry of any level there is no page. |
| PageTable.PutByte | native/paged_memory.h:137-146 | Bytes put in the page of an address change the memory at just their own addresses. |
| PagedRace.StepKeeps | native/paged_memory.h:91-219 | Whatever thread takes the next step and whatever chance does, the table stays right, an installed page serves one number, each page not installed is zeros and is no one's or one thread's, and no page is given out twice. |
| PagedRace.StepTakesEffect | native/paged_memory.h:141-171 | An access takes effect at the one step that ends it, which changes just the bytes of a store to those, and gives a load all bytes of its word at that moment; an instruction does at its own; no other step changes any byte. |
| PagedRace.ExchangeWordTakesEffect | native/paged_memory.h:165-170 | The weak exchange of a word puts the bytes of the store and loses no neighbour's update, however often it fails for nothing. |
| PagedProgress.ExchangeGoesThrough | native/paged_memory.h:165-170 | An exchange of a word that still has what was loaded of it, and does not fail for nothing, ends the store, with its bytes in the common order after all that was there. |
| PagedProgress.ExchangeLooksAgain | native/paged_memory.h:165-170 | And one that fails, for nothing or as the word is another now, tries again with what the word has at that moment. |
| PagedProgress.AccessEnds | native/paged_memory.h:141-219 | From every state that is right: a thread that runs alone ends its access within 16 steps, with its event in the common order, and if it only looks for a page, with one there if it was to make one. |
| PagedProgress.EndsAlone | native/paged_memory.h:141-219 | The same from wherever in its access the thread is, within a number of steps that falls with each. |
| PagedProgress.MakesOnlyNeeded | native/paged_memory.h:194-219 | A step changes the table or takes a page only for an access that stores something other than zeros or asks for the page, and the system gives a new page only where none that was given back is left. |
| PagedRace.LoadEntryTakesEffect | native/paged_memory.h:149-158 | A load, or a store of zeros, that finds no page is one of the zeros that are there. |
| PagedRace.TryExchangeKeeps | native/paged_memory.h:194-219 | Of two threads that make a node or a page, the one that comes second goes on with that of the first, and the memory reads as before. |
| PagedRace.ReturnPageKeeps | native/paged_memory.h:105-109 | A page that lost a race goes back as one that no one has and that is all zeros. |
| PagedRace.ObtainKeeps | native/paged_memory.h:91-103 | A page that is taken, given back before or new, is taken by one thread, and nothing can be seen of it. |
| PagedRace.StepGrows | native/paged_memory.h:3-6 | A step leaves every page where it is. |
| PagedRace.FreshIsSound | native/paged_memory.h:173-176 | All of this holds of a memory that nothing was written to. |
| PagedRace.InstructTakesEffect | native/bap_jit.cpp:925-995 | An instruction of compiled code stores or loads its 1, 2, 4 or 8 aligned bytes at once, in the page that is there, whatever exchange of the word another thread is in. |
| PagedRace.EveryRunTells | native/paged_memory_stress.cpp:38-237 | In every interleaving of any number of threads, of accesses word by word and instructions of compiled code, the memory at each address is the byte of the last store there in one common order, and each load gave all at once what was last stored before it in that order. |
| PagedRace.EveryRunKeepsPages | native/paged_memory_stress.cpp:38-237 | In every interleaving an installed page never moves, no page serves two page numbers, and what isn't installed is zeros. |
| Bytes.StoreBytesAt | Bap/Jit.lean:32-33 | Bytes from an address on change just their own addresses. |
| Bytes.StoreBytesSplit | native/paged_memory.h:235-244 | To store bytes is to store some, and the rest from where those end, over the end of the addresses too. |
| Bytes.WriteRun | native/paged_memory.h:254-267 | Pairs that go on from each other come to bytes from the first on. |
| Bytes.OnWraps | native/paged_memory.h:221-244 | An address some way on is the sum modulo 2^64. |
| StepLog.StepRemembers | native/paged_memory.h:290-302 | A step has all its notes up to 2^22, and from the first over that none, and says so, until another begins. |
| StepLog.UndoIsExact | native/paged_memory.h:304-315 | To write back, at just what was noted, the bytes from before a step gives the memory from before it, for any mix of writes. |
| StepLog.NotingKeeps | native/paged_memory.h:269-302 | What could be taken back still can after anything that notes what it changes. |
| StepLog.NotedAddresses | native/paged_memory.h:304-315 | The list of what was noted is strictly ascending and has just the addresses of the notes. |
| PageWalk.AllPages | native/paged_memory.h:123-135 | The walk gives every page there is, by ascending address and each once, with the first address of each. |
| PageWalk.Visit | native/paged_memory.h:123-135 | The same of the pages under one node. |
| PageWalk.NoPageBetween | native/paged_memory.h:380-381 | Between the pages of the list, and before and after them, there is none. |
| PagedMemory.PagedMemory.constructor | native/paged_memory.h:172-176 | A new memory is 0 everywhere and has no page. |
| PagedMemory.PagedMemory.Ensure | native/paged_memory.h:194-219 | The page of an address is there, pages stay where they are, and the memory reads the same. |
| PagedMemory.PagedMemory.StoreInWord | native/paged_memory.h:149-171 | The memory after is that before with the bytes written one at a time, and zeros make no entry in the table. |
| PagedMemory.PagedMemory.Load | native/paged_memory.h:221-232 | What is loaded a word at a time is each byte at its address, in 64 bits, with zeros where there is no page. |
| PagedMemory.PagedMemory.Store | native/paged_memory.h:235-244 | What is stored a word at a time comes to the same as a byte at a time, over the end of the addresses too. |
| PagedMemory.PagedMemory.WriteAll | native/paged_memory.h:254-267 | Pairs that are written together come to each pair written in order, later over earlier; all of it is noted, so that the step can still be taken back. |
| PagedMemory.PagedMemory.RunFrom | native/paged_memory.h:258-262 | What is taken together goes on from address to address within one word. |
| PagedMemory.PagedMemory.Fill | native/paged_memory.h:317-334 | Bytes in bulk come to those before the end of the addresses written one at a time, though what is all zeros makes no page. |
| PagedMemory.PagedMemory.ZeroRange | native/paged_memory.h:336-378 | The memory is zeros from the first address to the last, the very last of all included, and as it was elsewhere; no page is made, and every change is noted, so that the step can still be taken back. |
| PagedMemory.PagedMemory.ZeroByNumber | native/paged_memory.h:365-374 | The same by one page number after another. |
| PagedMemory.PagedMemory.ZeroByWalk | native/paged_memory.h:375-377 | And by all pages that there are. |
| PagedMemory.PagedMemory.ZeroWords | native/paged_memory.h:342-364 | Within a page, the same a word at a time, noting just what was not zeros. |
| PagedMemory.PagedMemory.Clone | native/paged_memory.h:383-391 | A copy is another memory that reads the same everywhere. |
| PagedMemory.PagedMemory.BeginStep | native/paged_memory.h:269-279 | A step begins with no notes, from the memory as it is then, and can be taken back. |
| PagedMemory.PagedMemory.EndStep | native/paged_memory.h:281-286 | A step that ends leaves no notes, and what is written after it is not noted. |
| PagedMemory.PagedMemory.NoteStep | native/paged_memory.h:290-302 | A write is noted, dropped with all others over the limit, or ignored where no step is open. |
| PagedMemory.PagedMemory.StepAddresses | native/paged_memory.h:304-315 | Nothing just where there were too many or no step is open; otherwise a strictly ascending list such that all other bytes are as the step found them, and writing back just those bytes gives the memory from before the step. |
| Endian.StoreThenLoad | native/bap_jit.cpp:374-406 | What is stored of a value in either byte order is loaded as its low bytes. |
| Endian.SwapIsBig | native/bap_jit.cpp:645-649 | A word of the host, swapped, is the value of its bytes in the other order. |
| Endian.StoreOfSwap | native/bap_jit.cpp:645-649 | A swapped value, stored as a word of the host, is its bytes in the other order. |
| StoreLog.StoreLog.Note | native/bap_jit.cpp:77-104 | The aligned way by one mask and one copy and the way byte by byte come to the same: each byte over what was written there, in either order and over the end of the addresses, and the count is the number of different bytes written. |
| StoreLog.StoreLog.PageOf | native/bap_jit.cpp:65-74 | The page that was last is the one that is found. |
| StoreLog.Pages.MarkTells | native/bap_jit.cpp:79-92 | To set bits and copy bytes within one word of the bitmap is to write just those bytes. |
| StoreLog.Pages.MarkCounts | native/bap_jit.cpp:83-86 | The bits of a mask that were not set are as many as the bytes that were not written. |
| StoreLog.StoreLog.Report | native/bap_jit.cpp:106-116 | Each byte that was written is reported, once, with the last value written there, and there are as many as the count says. |
| StoreLog.OverlayStores | native/bap_jit.cpp:53-55 | Over any memory: noting bytes over what was noted comes to storing them over the memory with that on it. |
| StoreLog.ReportOverlays | Bap/Jit.lean:28-29 | To write the pairs of a report, in any order they come in, is to lay what was noted over the memory. |
| MemoryFilter.MemoryFilter.QuietRange | native/bap_jit.cpp:140-152 | A range is found if and only if some range of the filter has all bytes of the access, which does not wrap and is not empty, and lets its kind through; and then that one. |
| MemoryFilter.MemoryFilter.UpperBound | native/bap_jit.cpp:147-147 | The place splits the ranges into those that start no later than the address and those that start after it. |
| MemoryFilter.ApartShareNone | native/bap_jit.cpp:128-138 | Ranges that have addresses are apart just if no address is in both. |
| MemoryFilter.QuietInOne | native/bap_jit.cpp:128-138 | No access is quiet in two ranges. |
| MemoryFilter.MemoryFilter.Insert | native/bap_jit.cpp:154-165 | A range goes in just if it has addresses and shares none with any that is there, and then the ranges are those and it, in order and apart. |
| MemoryFilter.MemoryFilter.Erase | native/bap_jit.cpp:1741-1742 | The range that starts at an address goes, and no other. |
| MemoryFilter.MemoryFilter.Update | native/bap_jit.cpp:1735-1754 | True just if the ranges that are given are apart from each other and from those that stay; then the filter has those and these; and whatever comes of it the ranges are in order and apart. |
| RunAccess.LoadHasBytes | native/bap_jit.cpp:372-387 | Whatever its observers do, a load that does not fail gives a value below 256 to the power of its size whose byte at each place, counted up in little-endian order and down in big-endian, is that of the memory so far on from its address; one that fails gives 0. |
| RunAccess.StoreHasBytes | native/bap_jit.cpp:394-406 | After a store that does not fail each of its addresses has the byte of the value at that place in its order, over the end of the addresses too, and every other has what it had once the observer was told. |
| RunAccess.StoreThenLoadRun | native/bap_jit.cpp:372-406 | A run that stores a value and loads it from there loads its low bytes, in either order, where nothing observes the memory. |
| RunAccess.EachLoadHasBytes | native/bap_jit.cpp:925-961 | After any operations that a run goes through, one more load adds one value to what was loaded, of the bytes that the memory has at that point. |
| RunAccess.AccessIsTold | native/bap_jit.cpp:253-290 | What comes of an access: nothing is told of one that a range of the filter lets through whole, that nothing observes, or after a failure; otherwise the site that waited is told first and fails the run if it stops or throws, and then the observer is told of what the access is, and its writes are in the memory. |
| RunAccess.EachAccessIsTold | native/bap_jit.cpp:925-995 | Every load and store of a run is told so before it is made, and changes nothing but the memory and what the run says it wrote. |
| RunAccess.EachSiteIsTold | native/bap_jit.cpp:343-352 | What comes of a code site: it stops a run that failed, is passed where nothing observes code, waits where sites are quiet and no Lean code ran, and is told otherwise, and stops the run just if its observer says so or throws. |
| RunAccess.StoredAt | Bap/Jit.lean:32-33 | Bytes that are stored from any address on are at their addresses, over the end too, and no other byte changes. |
| RunAccess.LastPairStays | native/paged_memory.h:254-267 | Of pairs that are written in order, each address has the value of the last pair for it, and every other what it had. |
| RunSites.EveryRunIsSane | Bap/Jit.lean:51-59 | In every run, of one range or of a chain of them, whatever its observers do: whenever the memory observer is called, the last site that the code observer was told, if any, is the last that the run passed; all of them are told so but where the first call is for a site that was dropped at the end of a range; nothing waits once Lean code ran; and with quiet sites none is called before. |
| RunSites.LostIfDropped | native/bap_jit.cpp:2046-2048 | The exact condition: with observers of both and quiet sites, the memory observer is called before the code observer was told the last site if and only if the first access that no range lets through comes with the last site passed in an earlier range of the chain, which the operations alone tell. |
| RunSites.DroppedIsNotTold | native/bap_jit.cpp:2046-2048 | A counterexample without that: a site, the next range, and a load, whose observer is called for a site that no one was told. |
| RunSites.StopIsLast | Bap/Jit.lean:51-59 | In every run, once the code observer asks to stop, told at its site or of one that waited, or any observer throws, no observer is called again, so that a waiting site that stops keeps the memory observer from its access. |
| RunSites.FromItsStart | Bap/Jit.lean:51-59 | All of this of every run from its start: the code observer knows the last site at every access if and only if no site was dropped so, and no call comes after one that stops. |
| RunSpec.FailedRunsDoNothing | Bap/Jit.lean:22-24 | Once a run has failed, no operation of the rest of it changes the memory, what it says it wrote or the calls of its observers. |
| RunSpec.EveryRunOverlays | Bap/Jit.lean:28-29 | In every run, whatever its observers write: what it says that it wrote, over the memory before it, is the memory after it if and only if what observers wrote last is that already, and at every other address it is. |
| RunSpec.OverlaysElsewhere | Bap/Jit.lean:28-29 | The same, of each address that no reply that the run used writes. |
| RunSpec.ObserverIsNotSaid | Bap/Jit.lean:28-29 | A counterexample without that: an observer writes a byte at a load, and the run says that it wrote nothing. |
| Cells.Cells.Perform | native/bap_jit.cpp:168-419 | Every run through the cells, with the pages, the quiet ranges and the waiting site that it has at hand, comes to the run that has none of them: the same memory, notes, failure, calls of observers in the same order with the same memories, and the same values loaded. |
| Cells.Cells.constructor | native/bap_jit.cpp:168-206 | The cells of a new run have nothing at hand. |
| Cells.Cells.NotifyMemory | native/bap_jit.cpp:253-290 | The observer of an access: let through, told after the site that waited, or not at all, as the run without caches has it. |
| Cells.Cells.NotifyAccess | native/bap_jit.cpp:626-644 | The test in compiled code skips an access only if the filter as it is now would let it through. |
| Cells.Cells.LetsThrough | native/bap_jit.cpp:258-264 | A range is at hand only while the filter has it. |
| Cells.Cells.DeliverSite | native/bap_jit.cpp:265-278 | The site that waited is told first, and fails the run if it would have stopped it. |
| Cells.Cells.CallLean | native/bap_jit.cpp:234-251 | Whatever the Lean code writes and makes of the filter, nothing quiet is at hand after it, and all pages at hand are still right. |
| Cells.Cells.Fail | native/bap_jit.cpp:226-232 | A run fails, with nothing at hand, and with everything else as it was. |
| Cells.Cells.NotifyCode | native/bap_jit.cpp:343-352 | A site waits, is told, or does nothing, as the run without caches has it. |
| Cells.Cells.CodeSite | native/bap_jit.cpp:1003-1037 | The code of a site in compiled code takes the same transition as the call it saves. |
| Cells.Cells.MemoryPage | native/bap_jit.cpp:408-419 | The page that is remembered is the one that is found; a store always has one, only a store makes one, and none is had once the run has failed. |
| Cells.Cells.PageForAccess | native/bap_jit.cpp:594-624 | A page that is had at the entry of its number is where the access is found, and has all of it. |
| Cells.Cells.MemLoad | native/bap_jit.cpp:925-961 | A load gives the value of its bytes in its order, after its observer, on whichever way it goes, and 0 once the run has failed. |
| Cells.Cells.MemStore | native/bap_jit.cpp:962-995 | A store writes and notes the bytes of its value in its order, after its observer, on whichever way it goes, and nothing once the run has failed. |
| Cells.Cells.StoreBytesOf | native/bap_jit.cpp:394-406 | The way of what no instruction does stores and notes the same. |
| Cells.Cells.LoadBytesOf | native/bap_jit.cpp:372-387 | And loads the same. |
| Cells.Cells.NextRange | native/bap_jit.cpp:2046-2048 | The next range of a chain begins as in the run without caches: the site that waits is dropped, and the pages, the quiet ranges and the log go on. |
| Cells.Cells.Finish | native/bap_jit.cpp:1779-1784 | After a run, of one range or of a chain of them, failed or not, all it wrote is noted with its step, so that the step can be taken back. |
| ChainReuse.ReuseIsInvisible | Bap/Jit.lean:60-71 | For all ranges that depend on just what they may read, and every run: using again the slots that other ranges left, and leaving registers of unbound variables as they are, comes to the same end as making both anew, with the same next place, world, variables, accounts and everything that is told of the slots. |
| ChainReuse.StepAgrees | Bap/Jit.lean:60-71 | The same of one range, from any slots, as many as it has, and registers that are alike as far as it may read them, with an output counted only if it was reached, and in its slot only if it is there. |
| ChainReuse.BuildAgrees | native/bap_jit.cpp:2095-2103 | Slots made over any that were there have what a range may read as slots made over zeros have, once what it needs is bound. |
| ChainReuse.StaleSlot | native/bap_jit.cpp:2095-2103 | The exact condition: a slot of the layout that is nothing else has what another range left there if and only if no variable of it is bound. |
| ChainReuse.SayAlike | native/bap_jit.cpp:2023-2041 | What two ranges say of slots and registers that are told alike leaves variables that are alike wherever they are bound. |
| ChainCases.StaleSlotIsSeen | native/bap_jit.cpp:2095-2103 | A counterexample without that condition: a range that reads the slot of a variable it does not need ends a run one range earlier than with slots made anew. |
| ChainCases.AddsRespects | native/bap_jit.cpp:2047-2053 | A range with registers, an output and a slot for it that is never written meets what is asked of ranges. |
| ChainCases.SkipsRespects | native/bap_jit.cpp:2029-2031 | So does a range that leaves an output with a flag unreached and something else in its slot. |
| ChainCases.WritesRespects | native/bap_jit.cpp:2029-2037 | And so does one that reads nothing and writes its output in its slot. |
| ChainSpec.SayFlagged | native/bap_jit.cpp:2021-2041 | Once what a range always writes was said in a run, to say just the outputs with a flag leaves the same variables, bound and listed, as to say all of them. |
| ChainSpec.SaySaid | native/bap_jit.cpp:2021-2041 | After all outputs are said, every one without a flag is written. |
| ChainSpec.SayKeeps | native/bap_jit.cpp:2029-2041 | What is bound stays bound, and what is written stays so. |
| ChainSpec.SayLists | native/bap_jit.cpp:2038-2039 | The list of what was written has each variable that was, once, and no other. |
| ChainCounts.RunIsKept | native/bap_jit.cpp:2054-2094 | In every run, of any ranges: what is chained is the sum of what is counted of each range that ran, within the budget; executions are those before and what was counted, in 64 bits; and ranges that ran, and variables that were written, are listed once each. |
| ChainCounts.CountSums | native/bap_jit.cpp:2058-2062 | Counting a range once more adds just that to the sum of what is counted, whether it ran before or not. |
| ChainCounts.FailedRunsCountNothing | native/bap_jit.cpp:2109-2118 | A run that fails leaves the executions of a range as before it if and only if they and what it counted are less than 2^64, which they are if they and the budget are. |
| ChainCases.ExecutionsAreLost | native/bap_jit.cpp:2109-2118 | A counterexample without that: a range that was executed 2^64 - 1 times is executed once more in a run that fails, and is left with 0. |
| ChainSteps.SayOneIs | native/bap_jit.cpp:2029-2040 | To say an output that was reached leaves its variable written, with the low bits of its slot of its width, below that power of 2 and differing from the slot by a multiple of it, or the whole slot at 64; every other variable is as it was, and one that was not reached changes nothing. |
| ChainSteps.SayHas | native/bap_jit.cpp:2021-2041 | To say the outputs of a range, one for each variable, leaves those low bits in the variable of each that was reached, and every other variable as it was. |
| ChainSteps.ForNextHas | native/bap_jit.cpp:2077-2080 | What the next range has of a range without registers is that, of all that the range says it wrote, or only of what it does at the place it went to, if that is said apart. |
| ChainSteps.AfterRangeHas | native/bap_jit.cpp:2052-2053 | And of one with registers, what it left in them, with its outputs written. |
| ChainSteps.BuildHas | native/bap_jit.cpp:2095-2103 | Every slot of a range at its start has the budget, 0 for what it observes or what is to be zero, the register of the last variable of it in the layout that is bound, or what was there. |
| ChainSteps.CountedIs | native/bap_jit.cpp:2058-2062 | A range that ran is counted once more, with what it executed in 64 bits and in this run, and listed if it was not; no other is. |
| ChainSteps.StepIs | native/bap_jit.cpp:2047-2105 | What becomes of a run after each range: it goes on just if the range says so, no Lean code ran, there is budget left, there is a range where it went that is not to be optimized first and all that needs is bound; then it is at that range, with the budget less what was entered and one, or what is left until it is optimized, and with its slots, variables and counts as they are to be; and otherwise it ends there. |
| ChainCases.NarrowIsCut | native/bap_jit.cpp:2034-2036 | A chain with an output of 8 bits, whose slot has 0x107: the variable and the slot of the next range have 7, from slots that are used again or made anew. |
| ChainCases.NarrowRunEnds | native/bap_jit.cpp:2034-2036 | And that run, of any budget, ends where that says. |
| Chain.Chain.Run | native/bap_jit.cpp:1965-2148 | A run of a chain, of any ranges, with all that it has at hand, gives back exactly what running its ranges one at a time comes to, the slots, the variables and the runs of each range included; and, if they depend on just what they may read, what that comes to from slots and registers made anew. What it chained is the sum of what it reports, within its budget, no variable is reported twice, and a run that fails takes back what it counted. |
| Chain.GivesBackAnew | Bap/Jit.lean:60-71 | What is given back of a run that uses slots again is what is given back of one that makes them anew, but for slots that are not told. |
| Chain.Chain.Advance | native/bap_jit.cpp:2047-2105 | One range of a run and what comes after it is the step of that. |
| Chain.Chain.Loop | native/bap_jit.cpp:2046-2106 | The ranges of a run come to an end, as the budget falls, and to that end. |
| Chain.Chain.SayWritten | native/bap_jit.cpp:2021-2041 | To say what was written only once a run leaves the variables as to say it each time, and what is at hand right. |
| Chain.Chain.TargetOf | native/bap_jit.cpp:2066-2074 | What is at hand of where a range went last is what is found there now, whatever was added, replaced or taken out since. |
| Chain.Chain.IsReady | native/bap_jit.cpp:2081-2088 | What is at hand of what a range needs says so just if all of it is bound now. |
| Chain.Chain.Count | native/bap_jit.cpp:2054-2062 | What a range ran is counted for it and for no other, and it is listed once. |
| Chain.Chain.GoOn | native/bap_jit.cpp:2064-2105 | Where the run goes from a range, or that it stops there, is as without anything at hand. |
| Chain.Chain.ArriveAt | native/bap_jit.cpp:2081-2105 | A range is gone on to just if what it needs is bound, with its slots, budget and count right. |
| Chain.Chain.GiveBack | native/bap_jit.cpp:2109-2148 | At the end the report has the runs and executions of each range that ran, in order, or the run failed and they are taken back. |
| Chain.Chain.Given | native/bap_jit.cpp:1980-1994 | The variables at the start are those that are given, the last value of each, with none written. |
| Chain.Chain.Add | native/bap_jit.cpp:1897-1963 | A range is put in just if all that it says of slots is of slots it has, with widths that there are; it has the executions and the count that are given, every other range stays as it is, and what is at hand of others stays right. |
| Chain.Chain.Clear | native/bap_jit.cpp:1847-1875 | No range is there, and nothing at hand goes to one that was. |
| Chain.Chain.Optimizing | native/bap_jit.cpp:1884-1892 | The range at a pc, if there is one, comes back after so many executions more, in 64 bits, and no other changes. |
| Chain.Chain.Rest | native/bap_jit.cpp:2109-2118 | At the end of a run nothing is counted any more, and executions are as they are, or, if it failed, less what it counted. |
| Chain.ReportSums | native/bap_jit.cpp:2133-2146 | What is reported of the ranges sums up to what was counted of them. |
| Sha.Sha1Block | tools/x86_model.py:366-385 | For every block of sixteen words and every chaining state, the sequence for SHA-1 computes what section 6.1.2 of FIPS 180-4 says. |
| Sha.Sha256Block | tools/x86_model.py:386-406 | For every block and every chaining state, the sequence for SHA-256 computes what section 6.2.2 of FIPS 180-4 says. |
| Sha.Sha1Rnds4 | tools/x86_model.py:307-315 | Four rounds of the standard with one function and constant, one for each word, and nothing in E. |
| Sha.Sha256Rnds2 | tools/x86_model.py:357-363 | Two rounds, each with its constant and word added up. |
| Sha.NextWords1 | tools/x86_model.py:322-332 | The instructions of the SHA-1 schedule give its next four words. |
| Sha.NextWords2 | tools/x86_model.py:335-354 | The instructions of the SHA-256 schedule give its next four words. |
| Sha.FourByOne | tools/x86_model.py:377-383 | Four rounds of a block are one instruction with E added to its first word, and E after them is A before them, rotated. |
| Sha.TwoRounds | tools/x86_model.py:401-403 | Two rounds of a block are one instruction, whose other register is what the first was. |
| Sha.FoldK | tools/x86_model.py:401-403 | A round with its constant and word added up beforehand is the round of the standard. |
| Sha.FoldE | tools/x86_model.py:318-319 | What is added to the word of a round for E is as if it were in E. |
| ShaFacts.K256Roots | tools/x86_model.py:388-391 | The constants of SHA-256 are the first 32 bits after the point of the cube roots of 2, 3, 5 and so on to 311, in turn, by cubes of integers. |
| ShaFacts.K1Roots | tools/x86_model.py:310-310 | Those of SHA-1 are the first 32 bits of the square roots of 2, 3, 5 and 10, by squares. |
| ShaFacts.TurnDoubles | tools/x86_model.py:299-300 | A rotation by one to the left doubles a word, and puts what is carried out in at the bottom. |
| ShaFacts.TurnsAreTurns | tools/x86_model.py:299-300 | That by five is five of those, and that by thirty all but two of them. |
| ShaFacts.OneBitGoes | tools/x86_model.py:335-340 | The sums of rotations take the last bit to the places that the standard has. |
| ShaFacts.TopBitGoes | tools/x86_model.py:335-340 | And those with a shift take the first bit to one place for that, where it is not put in again at the end. |
| ShaFacts.ChChooses | tools/x86_model.py:361-361 | What chooses has the bits of the second word where the first has ones, and of the third where it has none. |
| ShaFacts.MajIsMost | tools/x86_model.py:361-361 | What takes the most has the bits of two words wherever they are the same. |
| ShaFacts.MajTurns | tools/x86_model.py:361-361 | Whichever of the three comes first. |
| ShaFacts.F1Is | tools/x86_model.py:308-309 | The functions of SHA-1 for the first and the third twenty rounds are those two. |
| ShaFacts.F1IsOdd | tools/x86_model.py:308-309 | And for the second and the fourth it is whether there is an odd number of ones. |
| Division.UDivMod | testsuite/musl/builtins.c:13-20 | For all 64-bit words the loops end, with q * d <= n < q * d + d and the remainder stored where one is asked for; for a divisor of 0 it is 0 and nothing is stored. |
| Division.ShiftUp | testsuite/musl/builtins.c:16-16 | No bit of the divisor or of the bit of the quotient is lost as they are shifted up, and what is divided is less than twice the divisor then. |
| Division.OrAdds | testsuite/musl/builtins.c:17-17 | A bit below all of the quotient is added to it by setting it. |
| Division.UDiv | testsuite/musl/builtins.c:21-21 | The unsigned quotient, 0 for a divisor of 0. |
| Division.UMod | testsuite/musl/builtins.c:22-22 | The unsigned remainder, 0 for a divisor of 0. |
| Division.Div | testsuite/musl/builtins.c:23-23 | The quotient is cut towards zero, but for the least value by -1, where it is the least value and is not. |
| Division.Mod | testsuite/musl/builtins.c:24-24 | What remains of the quotient that is cut towards zero, for all values. |
| Division.CutIsUnique | testsuite/musl/builtins.c:23-24 | There is one quotient that is cut towards zero. |
| Division.Recompose | testsuite/musl/builtins.c:23-24 | Quotient and remainder give back what was divided if and only if it is not the least value by -1. |

## Left out

- LLVM: building, verifying and optimizing IR, and generating code. Compiled code is its list of operations, or a control-flow graph, and the passes of LLVM change nothing.
- Lean objects, their reference counts, the marshalling of arrays and errors, and the lifetime of C++ containers and of the pointers into them.
- Orders of memory weaker than sequential consistency: each access to an entry or a word is a step of its own, and steps come one after another.
- Several accesses at once as one: a load or store across words is one access for each word in `PagedRace`, as in the source.
- The lock around a step's notes, and threads that write during a step or a run: `PagedMemory` and `Cells` are of one thread.
- Pages and nodes are numbers, with the pages a sequence of values, and ranges of a chain are numbers of items; an item that was replaced stays in the sequence. Aliasing of pointers is not modelled.
- A word of the store log's bitmap is the set of its bits, and counting its bits is the size of the set.
- A 128-bit register of the x86 model is its four words, and taking it apart and joining it are left out.
- `std::map`, `upper_bound`, `sort` and `unique` are by what they give. `StepLog.NotedAddresses` puts each address in its place, where the source sorts a list.
- An observer is any sequence of replies: what it throws, whether it stops, what it writes and the ranges that are quiet after it. What it does to a chain during a run is not modelled.
- Memory as a list of cells, for runs without pages (native/bap_jit.cpp:354-369), and what is said of live slots at a site (native/bap_jit.cpp:303-341). `flushedPc` and `slots` are only for that.
- In `Chain` the world is any value. What `Cells` and `RunSites` say of the ranges of a chain, as a run with the ends of ranges in it, is not put together with that.
- `Chain.Chain.Run`: takes a range for what its number says, and does not compare the compiled program that the caller has with that of the range.
- `Chain.Chain.Add`: takes a range as a value, where the source reads it out of an array of numbers and finds the flag of an output by its slot. The slots that its compiled code uses are not compared with those it says it has.
- `Division.Div`: negation is in two's complement, where C leaves that of the least value undefined.
- `BudgetSplit.SplitIsInvisible`: the budget is any number that the state has, under the contract of its slot. That it is a word of a slot is in `BudgetCases`.
- `BudgetSplit.SplitBudget`: the order that comes with the targets is of a search, and that it is one in depth is not said, as no more is needed.
- The number of a chain's run, and the numbers of nodes, are not bounded by 64 bits.
- Entries into the middle of compiled code, and `compileEntries`.
- Giving zero pages back to the host (`trim`), dumping a memory, its size, and the byte-array functions: they change nothing that can be read, or are easy.
- bap_llvm.cpp, bap_z3.cpp, the build scripts, smoke.py, and the formulas of x86_model.py other than SHA: wrappers and tables with little to prove.
