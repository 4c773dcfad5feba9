# Proofs about a student operating-systems repository

The repository holds a skip-list prototype with its random generator, a probing hash table, a
system-call sandbox in two versions with the hook that consults it, the return-to-user path it runs on,
a mailbox store, a small shell and the boot argument tables of a kernel. This project models those
algorithms and proves what they are for. `dafny verify dfyconfig.toml` checks everything.

Code that changes state is modelled as classes and in-place loops, each proved against a specification on
plain values; the long-run properties are lemmas about those specifications.

| files | what they model |
|---|---|
| `Errno.dfy`, `Memory.dfy` | the kernel's error numbers; the character that ends a C string |
| `Arithmetic.dfy`, `Generator.dfy` | divisibility by powers of two, counting with sets; the linear congruential generator and `upHeight` |
| `SkipLayout.dfy`, `SkipList.dfy` | the levels of the skip list, its descent and search step by step; the linked nodes on the heap |
| `ProbeTable.dfy` | the linear-probing table and its refinement of a map from keys to queues |
| `Sandbox.dfy` | the intended blocked map, from (uid, system call) to a count |
| `DirectTable.dfy`, `DirectHistory.dfy` | the direct-mapped table of `proj2.c`, against the map and against its own history |
| `ChainedTable.dfy`, `SandboxAgreement.dfy` | the bucket lists of `proj2_copy.c`; the two tables side by side |
| `Interleaving.dfy`, `FindderRace.dfy` | threads inside `proj2.c`, one memory access at a time, around its mutex; `findder` racing with them outside it |
| `ExitPath.dfy`, `Kernel.dfy`, `DirectKernel.dfy` | the return-to-user loop with an environment that raises flags; `do_syscall_64` with the hook, over the chained table and over the direct-mapped one that is built |
| `Mailbox.dfy`, `MailServer.dfy` | the mailbox system calls as a store, and on mailbox objects |
| `Shell.dfy` | the line buffer, `strtok` and the tokeniser |
| `BootOptions.dfy`, `BootTables.dfy` | `argv_init` and `envp_init` over a sequence of boot options; the in-place repair of an option |

## Where the code differs from its intent

Much of the C does not compile, and several lines contradict their comments. Each such place is either
modelled as written, with the failure proved, or read as follows.

Skip list (`project1/prototype/skipList.c`)
- `x->start->next` is read as `x->next`, `curr` starts at `maxHeight - 1`, and `temp > 0` on line 173 is
  `curr > 0`. Insertion is proved for every height from 1 to `maxHeight`, linking the levels below the
  height.
- As written `upHeight` never uses the number it draws: `HeightIgnoresDraw`, `OnlyPromotedAreRaised`.
- An equal key matches no branch of `insertKey`, so the loop ends exactly for absent keys:
  `DescentEndsExactly`.
- With one level `skipSearch` starts its level counter below the value it tests for: `SingleLevelSearch`
  says exactly when it ends.

Hash table (`project 2/proj2/misc/hash.h`)
- `table` is read as `hashTable`, `item` on line 73 as the new entry, and `=` on line 85 as `==`.
- The global `temp` that `remove` stores is never assigned. The main results read it as a dummy entry
  whose key matches nothing; `NullFillerKeepsInvExactly`, `NullFillerAnswersExactly`, `NullFillerLosesEntry` and,
  for whole runs, `NullRunKeepsInvExactly` and `CleanRunRefinesQueues` treat the NULL it is.

Sandbox (`project 2/proj2/kernel`)
- `proj2.c` is modelled as written: a second block adds one to `call` (line 57), an unblock marks the whole
  row unused (line 110), the count belongs to the row, a uid evicts another of its slot, and uid 0 looks
  like an empty slot. `RunExact` and `RunCountExact` give the exact condition under which a run still
  behaves as the map does; `RefusedExactly` and `RootRefusedExactly` say after any run at all who is refused;
  `SecondBlockLifts`, `CollisionEvicts` and `BlockRefusesRoot` are concrete failures. The reading `OwnSlot` changes the first two of these lines.
- `proj2_copy.c`: a successful block falls through to the last line and returns -EPERM, and a failed
  allocation returns with the lock held; both are in the contract of `ChainedTables.Block`. `findder` there
  compares the call number with `procHash->call`, a header word of the row that no function assigns, and
  never counts; the `proc` in its loop is undeclared and is read as `uid`. `WrittenFindderExact` states what
  it answers for whatever those words hold, while the refinement reads it as looking for its own uid and
  counting. `initalizeHash` writes through pointers that are never set; the tables it is meant to make are taken as given. `count` reads `check->count` after it has
  released the lock (line 188). `HeldForEver` says what the lock that is kept does to later calls.
- `findder` of `proj2.c` adds one to the count outside the lock: `RaceIsSerialExactly` says after which finished
  requests between its load and its store, other calls of `findder` among them, the outcome is that of some
  sequential run; `LostIncrement` and `FindderIsNotSerial` are races that are not. It calls `getHash`, which
  `proj2.c` does not define, read as `getHashs`.
- Both tables index without checking `nr`, and `proj2.c` indexes with a negative remainder when root
  passes a negative uid. `Indexable` and `InTable` keep to the requests that stay inside the arrays.

System call hook (`project 2/common.c`)
- The blocked branch has no `return`. `DoSyscall64` reads it as ending the call; `DoSyscall64AsWritten`
  proves what the text does instead.
- `project 2/proj2/kernel/Makefile` builds `proj2.c` only, so the hook consults the direct-mapped table.
  `DirectKernel` is that system: `HookRightExactly` says on which runs it refuses the right users, and
  `TwiceBlockedRuns` is a run on which a blocked entry runs. `Kernel` is the same hook over the chained table.
- The hook looks at the number asked for, and a tracer may change it afterwards: `DispatchesExactly` says when a
  blocked entry runs that way, `BlockedEntryRuns` gives such a run.

Mailboxes (`project1/prototype/project1.c`)
- `init` joins four inequalities with "or" and can never succeed: `InitNeverSucceeds`.
- The range test rejects every id below `MAXID`, hence every uid: `RangeTestExcludesUsers`. The model
  accepts ids from 1 to `MAXID`.
- `recv` never takes the counter down; both readings are proved: `CountExactly`, `DestroyedExactly`. A positive
  counter over an empty queue makes it unlink the list head: `RunDefinedExactly` says which runs avoid that,
  `SecondReceiveUndefined` gives one that does not, and the results about runs ask for it.
- `shutdown` unlinks entries, and finally the list head, inside a `list_for_each` that then follows the unlinked
  entry, which fails with any mailbox present; the model empties the list.
- `create` tests the wrong pointer after its allocation, which is NULL exactly on an empty list, so as written no
  mailbox can ever be made: `NoMailboxEver`. The model tests the new mailbox.

Shell (`project 0/simple_shell.c`)
- At the end of the input the loop of `main` goes round for ever with empty lines: `LoopEndsExactly`.
- After `realloc` line 94 writes through the old pointer at the old start value; the model leaves the new
  part of the line unspecified, which is all that the rest of the loop needs.

Boot options (`project 2/main.c`)
- `repair_env_string` moves a quoted value, but its callers keep the old pointer, so the comparison of
  names also covers the first character of the value: `EnvironmentExactly`, `QuotedKeepsNamesExactly`,
  `QuotedNameTwice`.
- `init=` clears the slots below the limit only, so the last of a full list of arguments survives it:
  `ArgumentsExactly`, `LastArgumentStays`.
- A counter that reaches the limit sets `panic_later` even when the name is then found in that slot.

## What is a parameter

Allocation results (`granted`, `grants`), the table sizes and the boot table limit, the kernel's hash of a
uid, the header words that the chained table never assigns, what a tracer leaves in `nr`, what a called system call returns, which flags the environment raises and
when, whether `obsolete_checksetup` takes an option, and the characters the shell reads.

## Model

| member | source | states |
|---|---|---|
| RandomGenerator.AfterClosedForm | project1/prototype/skipList.c:11-14 | n calls move the 32-bit state by a geometric sum times one number that depends on the start only |
| RandomGenerator.WeightDivisible | project1/prototype/skipList.c:11-14 | that geometric sum is divisible by a power of two exactly when n is |
| RandomGenerator.StatePeriod | project1/prototype/skipList.c:11-14 | from every seed the state comes back exactly after the multiples of 2^32 |
| RandomGenerator.SameStateExactly | project1/prototype/skipList.c:11-14 | two calls leave the same state exactly when they are a multiple of 2^32 apart |
| RandomGenerator.ReturnedPeriods | project1/prototype/skipList.c:11-14 | the periods of the stream of returned numbers are exactly the multiples of 2^31 |
| RandomGenerator.EveryStateVisited | project1/prototype/skipList.c:11-14 | one full cycle visits every 32-bit state |
| RandomGenerator.ReturnedEquallyOften | project1/prototype/skipList.c:8-14 | one full cycle returns the numbers of any interval in proportion to its length |
| RandomGenerator.EachNumberReturned | project1/prototype/skipList.c:8-14 | one full cycle returns each of 0..32767 exactly 2^17 times |
| RandomGenerator.PromotedOneIn | project1/prototype/skipList.c:125-139 | for each chance the promote side of the threshold test is taken for exactly one call in chance |
| RandomGenerator.HeightIgnoresDraw | project1/prototype/skipList.c:120-149 | as written the height is maxHeight (or 1) whatever was drawn |
| RandomGenerator.OnlyPromotedAreRaised | project1/prototype/skipList.c:135-146 | "only the promote side raises a node" holds exactly for lists of at most one level |
| RandomGenerator.Generator.SeedRandom | project1/prototype/skipList.c:19-21 | the state is the seed |
| RandomGenerator.Generator.GetRandomInt | project1/prototype/skipList.c:11-14 | multiplies by 1103515245 and adds 12345 modulo 2^32, and returns bits 16 to 30 of the new state |
| RandomGenerator.Generator.UpHeight | project1/prototype/skipList.c:120-149 | draws once and returns the written height, also for an unknown chance with its unset bound |
| SkipLayout.ChainMembers | project1/prototype/skipList.c:50-66 | following level a meets a node exactly when its height exceeds a |
| SkipLayout.ChainIncreases | project1/prototype/skipList.c:154-227 | every level is a strictly increasing chain, so it has no cycle |
| SkipLayout.HigherLevelIsSublist | project1/prototype/skipList.c:154-227 | level a+1 is a sublist of level a |
| SkipLayout.SplicedBefore | project1/prototype/skipList.c:190-192 | an earlier node is redirected on level a exactly when it is the last one below the key and a is below the new height |
| SkipLayout.SplicedAt | project1/prototype/skipList.c:182-188 | the new node takes over the pointers of its predecessors |
| SkipLayout.SplicedAfter | project1/prototype/skipList.c:182-192 | the pointers behind the new node stay |
| SkipLayout.BottomEndIsEveryEnd | project1/prototype/skipList.c:183-185 | a node without a successor on level 0 has none on any level, which the next[0] shortcut relies on |
| SkipLayout.DescentEndsExactly | project1/prototype/skipList.c:171-224 | insertKey reaches a splice exactly when its key is absent, and then within n + maxHeight iterations |
| SkipLayout.DescentStuck | project1/prototype/skipList.c:171-224 | with a present key the descent stands in front of it for ever |
| SkipLayout.SearchEnds | project1/prototype/skipList.c:93-115 | with two or more levels the search ends within n + maxHeight iterations and finds exactly the present keys |
| SkipLayout.SingleLevelSearch | project1/prototype/skipList.c:95-105 | with one level it ends exactly when the key is present or greater than all keys |
| SkipList.Node.constructor | project1/prototype/skipList.c:50-66 | a new node has the given fields and only null pointers |
| SkipList.SkipList.constructor | project1/prototype/skipList.c:37-45 | the new list satisfies the invariant and stores nothing |
| SkipList.SkipList.SkipSearch | project1/prototype/skipList.c:93-115 | returns a node with the key exactly when there is one, within n + maxHeight iterations, also on a single level whenever the loop ends there |
| SkipList.Descend | project1/prototype/skipList.c:171-223 | for every level last[] ends up with the last node below the key, as a plain scan would find it |
| SkipList.TakeOver | project1/prototype/skipList.c:182-188 | the first linking loop gives the new node its predecessors' successors |
| SkipList.Redirect | project1/prototype/skipList.c:190-192 | the second linking loop changes exactly one pointer on each level below the height |
| SkipList.Link | project1/prototype/skipList.c:182-192 | after both loops every pointer of the longer list leads to the next node of its level |
| SkipList.SkipList.Splice | project1/prototype/skipList.c:203-216 | the list invariant holds with the new node in its place and all others unchanged |
| SkipList.SkipList.InsertKey | project1/prototype/skipList.c:154-227 | keeps the invariant for every height and adds exactly the new key-uid pair, within n + maxHeight iterations |
| SkipList.SkipList.Insert | project1/prototype/skipList.c:154-227 | the same with the height from upHeight, which draws one number |
| SkipList.InsertRun | project1/prototype/skipList.c:154-227 | any run of insertions of distinct keys keeps the invariant and stores exactly their pairs |
| SkipList.PairsOfSpliced | project1/prototype/skipList.c:154-227 | putting a node into the sorted list adds its pair to the map and nothing else |
| SkipList.SkipList.DeleteSkip | project1/prototype/skipList.c:71-88 | frees the pointer array and the memory of every node and then the list, in order and each once, and reads nothing freed |
| SkipList.SkipList.WalksStayInList | project1/prototype/skipList.c:71-88 | no node reachable along pointers of any levels lies outside the nodes that deleteSkip frees |
| SkipList.SkipList.LevelWalk | project1/prototype/skipList.c:93-115 | the heap pointers of level a pass through the nodes of that level and end in null |
| SkipList.LevelNodesAreChain | project1/prototype/skipList.c:50-66 | those nodes are the ones whose height exceeds a, in bottom-level order |
| SkipList.InsertRunThenSearch | project1/prototype/skipList.c:93-227 | after any run of insertions of distinct keys a search finds a node exactly when its key was inserted, with its uid |
| ProbeTable.InsertAppends | project 2/proj2/misc/hash.h:55-75 | insert appends to its key's queue and leaves all other queues alone |
| ProbeTable.InsertKeepsInv | project 2/proj2/misc/hash.h:66-73 | no null slot comes to lie between a live entry and its home slot |
| ProbeTable.StopIsOldest | project 2/proj2/misc/hash.h:36-50 | the search stops at the oldest live entry of its key, or at a null slot when there is none |
| ProbeTable.RemoveTakesOldest | project 2/proj2/misc/hash.h:80-96 | remove takes the oldest entry of its key and leaves all other queues alone |
| ProbeTable.RemoveKeepsInv | project 2/proj2/misc/hash.h:85-89 | storing the dummy keeps every other entry reachable |
| ProbeTable.NullFillerKeepsInvExactly | project 2/proj2/misc/hash.h:87 | with the unassigned NULL every entry stays reachable exactly when no live entry was probed past the freed slot |
| ProbeTable.NullFillerAnswersExactly | project 2/proj2/misc/hash.h:85-89 | after that NULL every search still returns the oldest entry of its key exactly when no key's oldest remaining entry was probed past the slot |
| ProbeTable.NullFillerLosesEntry | project 2/proj2/misc/hash.h:87 | for every size, two colliding keys on which the NULL hides a stored entry |
| ProbeTable.NullStepKeepsInvExactly | project 2/proj2/misc/hash.h:36-96 | with NULL stored one operation keeps every entry reachable exactly when it frees no slot past which another entry was probed |
| ProbeTable.NullRunKeepsInvExactly | project 2/proj2/misc/hash.h:36-96 | a whole run keeps every entry reachable throughout exactly when all its removals do |
| ProbeTable.CleanRunRefinesQueues | project 2/proj2/misc/hash.h:36-96 | such a run gives the answers of the queues |
| ProbeTable.SlotsConserved | project 2/proj2/misc/hash.h:22 | live, dummy and null slots add up to the size |
| ProbeTable.SearchEndsExactly | project 2/proj2/misc/hash.h:39-46 | the loops of find and remove end exactly when a null slot or an entry of the key exists |
| ProbeTable.InsertEndsExactly | project 2/proj2/misc/hash.h:68-71 | the loop of insert ends exactly when a null slot exists |
| ProbeTable.StepRefines | project 2/proj2/misc/hash.h:36-96 | every operation answers as a map from keys to queues, and only a granted insert uses a null slot, exactly one |
| ProbeTable.RunRefinesQueues | project 2/proj2/misc/hash.h:36-96 | every run that ends gives the answers of the queues and ends with matching queues |
| ProbeTable.RunEndsWithinBudget | project 2/proj2/misc/hash.h:36-96 | a run that inserts fewer entries than there are null slots always ends |
| ProbeTable.BudgetSpent | project 2/proj2/misc/hash.h:68-93 | once all null slots are used no insert ends again, and a search ends exactly for stored keys |
| ProbeTable.EmptyTable | project 2/proj2/misc/hash.h:22 | the zeroed table satisfies the invariant and stores no queue |
| ProbeTable.HashTable.constructor | project 2/proj2/misc/hash.h:15-22 | a table of any size starts with all queues empty and all slots null |
| ProbeTable.HashTable.GetHash | project 2/proj2/misc/hash.h:29-31 | the home slot is the key modulo the table size |
| ProbeTable.HashTable.Find | project 2/proj2/misc/hash.h:36-50 | returns the oldest entry of the key or null, and ends |
| ProbeTable.HashTable.Insert | project 2/proj2/misc/hash.h:55-75 | appends to one queue, uses one null slot, returns 1 without change when allocation fails |
| ProbeTable.HashTable.Remove | project 2/proj2/misc/hash.h:80-96 | takes the oldest entry of the key and uses no null slot |
| Sandbox.IntendedExactly | project 2/proj2/kernel/proj2.c:43-196 | the intended map has exactly the pairs blocked by their own uid or root and not unblocked since, each with the number of its refusals since then modulo 2^64 |
| DirectTable.BlockRowExact | project 2/proj2/kernel/proj2.c:51-85 | a block leaves a row right exactly when it is harmless, and otherwise some blocked uid is no longer refused |
| DirectTable.UnblockRowExact | project 2/proj2/kernel/proj2.c:104-136 | the same for an unblock, which as written frees the whole row |
| DirectTable.StepExact | project 2/proj2/kernel/proj2.c:43-196 | one request keeps the table equal to the map exactly when it is harmless; otherwise findder is wrong at once |
| DirectTable.RunExact | project 2/proj2/kernel/proj2.c:43-196 | throughout a run findder answers for every non-root uid as the map does, exactly when every request is harmless |
| DirectTable.RootLooksBlocked | project 2/proj2/kernel/proj2.c:188 | when others are blocked, root is refused exactly when none of them uses slot 0 |
| DirectTable.RootBlockedAtLoad | project 2/proj2/kernel/proj2.c:184-196 | before initialisation findder refuses call 0 to root and nothing else |
| DirectTable.StepCountExact | project 2/proj2/kernel/proj2.c:43-196 | one request keeps answers and counts right exactly under a condition on the map |
| DirectTable.RunCountExact | project 2/proj2/kernel/proj2.c:43-196 | the same exactness for whole runs with the shared count of a row |
| DirectTable.AnswersMatch | project 2/proj2/kernel/proj2.c:43-179 | on a right table every return code about a non-root uid is the one that the map calls for, in numbers; if the counts are right, count returns the pair's count below 2^31 and else the int congruent to it modulo 2^32 |
| DirectTable.AsIntExactly | project 2/proj2/kernel/proj2.c:161-163 | the int that count returns lies between -2^31 and 2^31 - 1, is congruent to the stored count modulo 2^32, is the count itself below 2^31, and is determined by that |
| DirectTable.SlotExactly | project 2/proj2/kernel/proj2.c:214-216 | two uids share a slot exactly when they are congruent modulo 32 |
| DirectTable.RunAnswersExact | project 2/proj2/kernel/proj2.c:43-196 | throughout a run every request about a non-root uid would get the return code that the map calls for, numbers from count apart, exactly when every request of the run is harmless |
| DirectTable.BlockThenUnblockExact | project 2/proj2/kernel/proj2.c:51-112 | as written, block and unblock of a pair leave the answers as they were exactly when nobody else is blocked for the call |
| DirectHistory.RefusedExactly | project 2/proj2/kernel/proj2.c:43-196 | after any run a uid is refused exactly when the last successful write of its slot was its block and the last touch of its row a successful block |
| DirectHistory.RootRefusedExactly | project 2/proj2/kernel/proj2.c:43-196 | after any run root is refused exactly when the last touch of the row was a successful block and slot 0 holds no user, or, before any initialisation, for call 0 |
| DirectHistory.HistoryWords | project 2/proj2/kernel/proj2.c:43-196 | after any run the call word of every row and its count follow from which requests succeeded and which blocks were duplicates |
| DirectHistory.CodesByHistory | project 2/proj2/kernel/proj2.c:43-196 | in every run each return code, in numbers, is what the codes returned before it call for |
| DirectHistory.StartedExactly | project 2/proj2/kernel/proj2.c:44-49 | the table is initialised exactly when some block, unblock or count was made |
| DirectHistory.RefusalWasRequested | project 2/proj2/kernel/proj2.c:51-85 | every refusal goes back to a block of that uid by itself or root that no later write of the slot undid |
| DirectHistory.NoWriteSince | project 2/proj2/kernel/proj2.c:62-110 | nothing wrote the slot after the write that is called the last |
| DirectHistory.NoTouchSince | project 2/proj2/kernel/proj2.c:57-110 | nothing touched the row after the touch that is called the last |
| DirectHistory.SecondBlockLifts | project 2/proj2/kernel/proj2.c:55-60 | blocking the same pair twice lifts the block |
| DirectHistory.CollisionEvicts | project 2/proj2/kernel/proj2.c:62-64 | blocking a uid 32 higher unblocks the first one |
| DirectHistory.BlockRefusesRoot | project 2/proj2/kernel/proj2.c:188 | blocking one user refuses the call to root |
| DirectHistory.SysTables.constructor | project 2/proj2/kernel/proj2.c:30-31 | zeroed rows, not started, lock free |
| DirectHistory.SysTables.InitalizeHash | project 2/proj2/kernel/proj2.c:201-210 | all 437 rows become 999, the mark of an unused row, with count 0, and keep their slots |
| DirectHistory.SysTables.Start | project 2/proj2/kernel/proj2.c:44-49 | the rows are initialised on the first call only |
| DirectHistory.SysTables.Block | project 2/proj2/kernel/proj2.c:43-91 | the in-place code is the block of the model, lock free on every return |
| DirectHistory.SysTables.Unblock | project 2/proj2/kernel/proj2.c:96-142 | the in-place code is the unblock of the model, lock free on every return |
| DirectHistory.SysTables.Count | project 2/proj2/kernel/proj2.c:147-179 | the in-place code is the count of the model, and for a blocked pair returns the stored count itself below 2^31, lock free on every return |
| DirectHistory.SysTables.Findder | project 2/proj2/kernel/proj2.c:184-196 | answers 1 exactly for a matching slot and counts it |
| DirectHistory.SysTables.Run | project 2/proj2/kernel/proj2.c:43-196 | any run on the object returns the codes that the history of codes calls for and leaves rows that refuse exactly the uids that the history says |
| ChainedTable.AddedRefines | project 2/proj2/kernel/proj2_copy.c:68-71 | hash_add adds exactly one pair and never a second entry for it |
| ChainedTable.DeletedRefines | project 2/proj2/kernel/proj2_copy.c:128-137 | hash_del removes exactly one pair and keeps all others of the bucket |
| ChainedTable.BumpedRefines | project 2/proj2/kernel/proj2_copy.c:211-230 | counting, as meant, adds one to exactly one pair |
| ChainedTable.PutRefines | project 2/proj2/kernel/proj2_copy.c:41-167 | a change of one bucket leaves every other pair alone, across collisions |
| ChainedTable.StepRefines | project 2/proj2/kernel/proj2_copy.c:41-230 | every request keeps the tables equal to the map and gets the intended answer |
| ChainedTable.CodesExactly | project 2/proj2/kernel/proj2_copy.c:41-230 | on tables that stand for a map every return code is the number that the map calls for, negative uids included; a successful block returns -1 |
| ChainedTable.After | project 2/proj2/kernel/proj2_copy.c:41-230 | the tables after any run stand for the intended map of that run |
| ChainedTable.RunRefines | project 2/proj2/kernel/proj2_copy.c:41-230 | after any run a pair is listed exactly when the map has it, with its count, and never twice |
| ChainedTable.WrittenFindderExact | project 2/proj2/kernel/proj2_copy.c:211-230 | as written a uid is refused exactly when the row's header word is the call number and some blocked uid shares its bucket; and exactly when that is the right answer |
| ChainedTable.ChainedTables.FindderAsWritten | project 2/proj2/kernel/proj2_copy.c:211-230 | the bucket loop with the header test gives that answer and counts nothing |
| ChainedTable.BlockThenUnblock | project 2/proj2/kernel/proj2_copy.c:41-167 | unblocking right after a successful block restores the bucket lists themselves, whatever they hold |
| ChainedTable.ChainedTables.Search | project 2/proj2/kernel/proj2_copy.c:52-58 | the bucket loop finds the pair exactly when it is blocked |
| ChainedTable.ChainedTables.Block | project 2/proj2/kernel/proj2_copy.c:41-111 | blocks as intended, but returns -EPERM on success and keeps the lock when allocation fails |
| ChainedTable.ChainedTables.Unblock | project 2/proj2/kernel/proj2_copy.c:116-167 | unblocks as intended and frees the lock on every return |
| ChainedTable.ChainedTables.Count | project 2/proj2/kernel/proj2_copy.c:172-206 | returns the count of the pair for root, with the lock free on every return |
| ChainedTable.ChainedTables.Findder | project 2/proj2/kernel/proj2_copy.c:211-230 | as meant, refuses exactly the blocked pairs and counts the refusal |
| ChainedTable.HeldForEver | project 2/proj2/kernel/proj2_copy.c:63-66 | after a failed allocation, whatever follows, exactly the calls that take the lock wait for ever: block and unblock by the uid itself or root, and a count of another uid by root; the others return, and the set of blocked pairs is frozen |
| SandboxAgreement.TablesAgreeExactly | project 2/proj2/kernel/proj2.c:43-196 | both tables refuse the same non-root uids throughout a run exactly when every request is harmless to the direct one |
| SandboxAgreement.SameAnswersExactly | project 2/proj2/kernel/proj2_copy.c:41-230 | both tables would answer every request about a non-root uid alike throughout a run, numbers from count apart, exactly when every request is harmless to the direct one |
| SandboxAgreement.SameCounts | project 2/proj2/kernel/proj2.c:147-179 | after requests that are harmless to the counts both tables return for a blocked pair the number of its refusals since it was blocked, while that is below 2^31 |
| SandboxAgreement.HarmlessToCountsAlike | project 2/proj2/kernel/proj2.c:147-196 | after such requests both tables would return the right code for every request about a non-root uid, the number from count included |
| SandboxAgreement.OwnSlotAgreesWithoutCollisions | project 2/proj2/kernel/proj2.c:104-136 | with unblock clearing its own slot only, the tables agree exactly on the runs without slot collisions |
| Interleaving.MidwayStep | project 2/proj2/kernel/proj2.c:53-85 | one memory access inside the lock leads from one stage of the request to the next |
| Interleaving.MicroKeepsInv | project 2/proj2/kernel/proj2.c:51-142 | every step of every thread keeps mutual exclusion and the serial account |
| Interleaving.Play | project 2/proj2/kernel/proj2.c:43-179 | every schedule of any number of threads reaches only states with mutual exclusion and the serial account |
| Interleaving.InterleavingIsSerial | project 2/proj2/kernel/proj2.c:43-179 | every interleaving has the results and rows of the sequential run in lock order, each returned request in a turn of its own, with at most one holder and no holder among returned threads |
| Interleaving.TurnsFollow | project 2/proj2/kernel/proj2.c:43-179 | along every schedule turns and results are only added, and a thread that is idle now gets later turns only |
| Interleaving.EarlierReturnsFirst | project 2/proj2/kernel/proj2.c:43-179 | a request that has returned has an earlier turn than every request made afterwards |
| Interleaving.EarlyIsAlone | project 2/proj2/kernel/proj2.c:86-89 | a request refused before the lock behaves the same alone and changes nothing |
| Interleaving.MicroProgress | project 2/proj2/kernel/proj2.c:51-142 | a step of a thread that does not wait for a held lock brings it closer to returning from the request it made, and moves no other thread |
| Interleaving.EveryRequestCanReturn | project 2/proj2/kernel/proj2.c:43-179 | from every state that any interleaving reaches, seven steps for each thread are enough to let every request under way return |
| Interleaving.PlayOne | project 2/proj2/kernel/proj2.c:43-179 | an idle thread makes the request it is given, and one that has returned becomes idle |
| Interleaving.MadeRequestCanReturn | project 2/proj2/kernel/proj2.c:43-179 | whatever an idle thread asks for, it can return from that request within seven steps for each thread |
| FindderRace.RaceIsSerialExactly | project 2/proj2/kernel/proj2.c:184-196 | whatever finished requests lie between findder's load and its store, calls of findder included, rows and results are those of findder at some place among them exactly when: without a reset of the row they refuse it 0 times; with one, they refuse it after the last reset once more than the loaded count, or as often and the pair is blocked right after that reset |
| FindderRace.OutcomeIsSerial | project 2/proj2/kernel/proj2.c:43-179 | on requests that take the lock those sequential runs are the ones that interleavings amount to |
| FindderRace.LostIncrement | project 2/proj2/kernel/proj2.c:188-189 | one other refusal of the row in between is lost: no place fits, for any count and any blocked uid |
| FindderRace.FindderIsNotSerial | project 2/proj2/kernel/proj2.c:184-196 | with an unblock and a block of the pair in between, no place fits for any count but 0 and the greatest |
| FindderRace.WholeIsStep | project 2/proj2/kernel/proj2.c:188-195 | findder in one piece is the step of the table's model |
| ExitPath.LogEvent | project 2/common.c:146-189 | no event loses a raised flag: it is still set or was handled afterwards |
| ExitPath.PassedPending | project 2/common.c:156-184 | a pass in which nothing was raised clears exactly the loop flags |
| ExitPath.LoopEndArrives | project 2/common.c:146-189 | the loop uses up a beginning of what the environment raises, and outside the loop flags exactly those flags are added |
| ExitPath.PassedUses | project 2/common.c:150-184 | a pass gives the environment seven moments to raise flags |
| ExitPath.LeftExactly | project 2/common.c:192-232 | on the way out the flags become those set and those raised meanwhile without the six loop flags; without any of these at the start nothing happens at all |
| ExitPath.Thread.Interrupts | project 2/common.c:150-153 | a moment with interrupts on takes the next entry of the environment and adds exactly its flags; the raises recorded and what the environment still holds stay together what it held |
| ExitPath.Thread.WorkOn | project 2/common.c:159-179 | the handler runs exactly if its flag was set when the pass began, and clears its own flag |
| ExitPath.Thread.WorkPass | project 2/common.c:156-184 | a pass runs the handlers of exactly the flags set at its start, each once and in the order of the code, and leaves interrupts off |
| ExitPath.Thread.ExitToUsermodeLoop | project 2/common.c:146-189 | leaves with interrupts off and none of the six loop flags set, after at most k + 1 passes for k raises, and every other flag raised meanwhile is set |
| ExitPath.Thread.PrepareExitToUsermode | project 2/common.c:192-232 | ends with interrupts off, no loop flag, the two compat bits cleared, prepared exactly once |
| ExitPath.Thread.SyscallReturnSlowpath | project 2/common.c:264-286 | the same from interrupts on, with the exit work done exactly once if asked for |
| ExitPath.Thread.EveryRaiseWasHandled | project 2/common.c:146-189 | at the exit every loop flag in every used-up entry of the environment was handled after it was raised, and the raises are those entries in order |
| Kernel.MaskKeepsCalls | project 2/common.c:320 | the x32 mask does not change the number of a table entry |
| Kernel.MaskedExactly | project 2/common.c:320 | the mask takes 2^30 away or nothing, and leaves bit 30 clear |
| Kernel.NumberUsedExactly | project 2/common.c:312-320 | entry n is used exactly when the number asked for, or with entry work the traced one, is n or n + 2^30 |
| Kernel.EntriesExactly | project 2/common.c:303-324 | a call runs no entry if it is refused or its number names none, and otherwise exactly the entry that the number names |
| Kernel.OutsideRunsNothing | project 2/common.c:321 | a number with bit 30 clear from 437 on, such as a tracer may leave, runs no entry |
| Kernel.WorkAfterExactly | project 2/common.c:309-326 | around a call the environment has a moment at the entry, one while an entry runs and one on the way out, and whatever it raises meanwhile is set at the end, apart from the six loop flags |
| Kernel.Cpu.Enter | project 2/common.c:309-326 | entry n runs, and its result is returned, exactly when n is below 437 and the number asked for or, with entry work, the traced one is n or n + 2^30; with any other number no entry runs; the return is prepared once with interrupts off |
| Kernel.Cpu.Hook | project 2/common.c:303-326 | a refused call yields -EACCES, runs nothing and prepares the return once; another runs its entry |
| Kernel.Cpu.HookAsWritten | project 2/common.c:303-326 | without the return a refused call runs its entry with the flags its first return left, and prepares the return twice |
| Kernel.Kernel.DoSyscall64 | project 2/common.c:292-327 | over the chained table a blocked call yields -EACCES, counts, runs nothing and prepares the return once; another runs its entry |
| Kernel.Kernel.DoSyscall64AsWritten | project 2/common.c:303-326 | over the chained table, without the return, a blocked call is counted and runs its entry all the same |
| Kernel.DispatchesExactly | project 2/common.c:301-324 | over every run, every entry that runs belongs to a call of an unblocked number, and none is blocked exactly when no tracer turns an unblocked call into a blocked one |
| Kernel.BlockedEntryRuns | project 2/common.c:312-324 | for all numbers, a run in which a tracer makes a blocked entry run |
| Kernel.Kernel.Run | project 2/common.c:292-327 | over the chained table, on every run the blocked set and its counts are the intended ones and the entries that ran are exactly those of DispatchesExactly |
| DirectKernel.RefusedByHistory | project 2/common.c:300-303 | the hook over the table that is built refuses a call exactly when the history of the requests says so, root included |
| DirectKernel.HookRightExactly | project 2/common.c:300-307 | throughout a run it refuses exactly the blocked users, whatever is called next, exactly when every request of the run is harmless to the direct-mapped table |
| DirectKernel.RightMeansRuns | project 2/common.c:303-324 | refusing the right calls is the same as running the entries of the unblocked ones and of no others |
| DirectKernel.TwiceBlockedRuns | project 2/proj2/kernel/proj2.c:55-60 | for every user and call, two equal blocks and then the call: the blocked entry runs |
| DirectKernel.DirectKernel.DoSyscall64 | project 2/common.c:292-327 | a call that the history refuses yields -EACCES, runs nothing and prepares the return once; another runs its entry |
| DirectKernel.DirectKernel.DoSyscall64AsWritten | project 2/common.c:303-326 | without the return both run their entry |
| DirectKernel.DirectKernel.Run | project 2/common.c:292-327 | on every run the entries that ran are exactly those of the calls that the history leaves unrefused |
| Mailbox.OthersUntouched | project1/prototype/project1.c:219-622 | a call leaves every mailbox that it is not about exactly as it was |
| Mailbox.WhoMayChange | project1/prototype/project1.c:68-622 | a mailbox that changes, appears or goes does so by send or recv of its own uid or by another call of root, and only root starts or stops the system |
| Mailbox.OwnerOnly | project1/prototype/project1.c:410-481 | on a started store and for a valid id send and recv answer -1 exactly for a caller other than the owner, and then change nothing |
| Mailbox.RunningExactly | project1/prototype/project1.c:68-217 | the system is started exactly if its latest successful init or shutdown was an init |
| Mailbox.AliveExactly | project1/prototype/project1.c:144-375 | a mailbox exists exactly if its id was created and neither destroyed nor shut down since |
| Mailbox.HistoryMoves | project1/prototype/project1.c:398-622 | the return code of a call alone tells how the history of a mailbox moves: a send adds its bytes and length, a recv takes the oldest message not yet received |
| Mailbox.CodesByHistory | project1/prototype/project1.c:68-622 | every call returns the number that the history of the calls before it calls for; a recv the length given with the oldest message not yet received |
| Mailbox.CallAccounts | project1/prototype/project1.c:219-622 | a call moves its own mailbox as its history says |
| Mailbox.RunAccounts | project1/prototype/project1.c:219-622 | on every defined run ids stay distinct, everything sent since creation is everything received followed by the queue, and the access list is who was let in and not put out |
| Mailbox.CountExactly | project1/prototype/project1.c:429-499 | the counter is the queue length exactly when no send failed half-way and, as written, nothing was received |
| Mailbox.DefinedExactly | project1/prototype/project1.c:486-498 | recv finds a message behind a positive counter exactly under that condition, or when the queue is not empty |
| Mailbox.RunDefinedExactly | project1/prototype/project1.c:459-505 | a whole run is defined exactly when every recv that reaches its mailbox meets that condition |
| Mailbox.GrantedRunsAreDefined | project1/prototype/project1.c:425-499 | as meant, every run whose sends get their memory is defined |
| Mailbox.SecondReceiveUndefined | project1/prototype/project1.c:482-499 | as written, a second recv after a single send is not |
| Mailbox.DestroyedExactly | project1/prototype/project1.c:327-336 | destroy succeeds exactly when everything sent was received, no send failed half-way and, as written, nothing was ever received |
| Mailbox.PermittedLists | project1/prototype/project1.c:556-574 | an accepted process is added once, a refused one changes nothing |
| Mailbox.RevokedLists | project1/prototype/project1.c:601-615 | exactly one process leaves the list |
| Mailbox.InitNeverSucceeds | project1/prototype/project1.c:84-87 | as written no sequence of init calls ever starts the system |
| Mailbox.WrittenExactly | project1/prototype/project1.c:68-305 | as written create does what is meant with an allocation that succeeds exactly on a list that is not empty, and init what is meant for a wrong prob |
| Mailbox.NoMailboxEver | project1/prototype/project1.c:248-254 | as written no run of calls ever has a mailbox and every create fails, even with init and the test of the id as meant |
| Mailbox.RangeTestExcludesUsers | project1/prototype/project1.c:410-418 | as written no uid can be a valid id, though as meant every non-root uid is |
| MailServer.Server.Init | project1/prototype/project1.c:68-94 | the call on the server is the step of the store, as meant |
| MailServer.Server.Shutdown | project1/prototype/project1.c:144-217 | the store is empty and not started, for root only |
| MailServer.Server.Create | project1/prototype/project1.c:219-305 | appends a fresh empty mailbox exactly when the id is new and valid |
| MailServer.Server.Destroy | project1/prototype/project1.c:307-375 | takes one mailbox out of the list unless its counter is positive |
| MailServer.Server.Walk | project1/prototype/project1.c:240-246 | the list walk finds the mailbox exactly when it exists |
| MailServer.Server.Send | project1/prototype/project1.c:398-457 | delivers to one mailbox object and changes no other, for its owner only: any other caller gets -1; the counter moves even when allocation fails |
| MailServer.Server.Recv | project1/prototype/project1.c:459-505 | takes the first message of one mailbox object and changes no other, for its owner only: any other caller gets -1 |
| MailServer.Server.AclAdd | project1/prototype/project1.c:539-582 | adds a process once to one access list |
| MailServer.Server.AclRemove | project1/prototype/project1.c:584-622 | removes a process from one access list |
| MailServer.Server.Run | project1/prototype/project1.c:68-622 | any defined run on the mailbox objects returns the codes that the history of the calls calls for and leaves distinct ids, queues that hold what was sent and not received, and the right access lists |
| Shell.TokensAreWords | project 0/simple_shell.c:19-31 | every token is non-empty and has no space |
| Shell.TokensFit | project 0/simple_shell.c:23-29 | the tokens of a line need at most half its length, rounded up |
| Shell.TokensKeepText | project 0/simple_shell.c:19-31 | the tokens together are the line without its spaces |
| Shell.TokensOfJoin | project 0/simple_shell.c:19-31 | tokenising words joined by single spaces gives the words back |
| Shell.SameTokens | project 0/simple_shell.c:19-31 | tokens depend on the text alone, wherever it lies in memory |
| Shell.CutsFirstToken | project 0/simple_shell.c:23-27 | one strtok call cuts off the first word in place and leaves exactly the others |
| Shell.Strtok | project 0/simple_shell.c:23-27 | the loops of strtok (section 7.24.5.8 of C11) make that cut |
| Shell.Process | project 0/simple_shell.c:19-31 | the argument array lists the words in order, each a string inside the cut line, closed by a null pointer |
| Shell.ExitTest | project 0/simple_shell.c:111 | the comparison first succeeds when exactly "exit" has been read |
| Shell.IsExit | project 0/simple_shell.c:111 | the same for the buffer, whatever lies behind its end |
| Shell.EnsureRoom | project 0/simple_shell.c:83-107 | doubling keeps all characters read, leaves room for the closing NUL, and keeps every argument a null pointer |
| Shell.CapacityExactly | project 0/simple_shell.c:58-89 | after n doublings the buffer has 1024 times 2^n characters |
| Shell.ReadLine | project 0/simple_shell.c:58-116 | a line of any length is kept whole with count below the buffer size; the program stops exactly when the line starts with "exit" |
| Shell.ReadCommand | project 0/simple_shell.c:57-118 | the arguments are the words of the line and always fit the array |
| Shell.Session | project 0/simple_shell.c:57-130 | over a whole input each round runs the words of its own line, until a line starts with exit or does not fit into memory |
| Shell.LoopEndsExactly | project 0/simple_shell.c:57-118 | the loop ends exactly when one of the lines of the input stops it; behind the end of the input it runs empty lines for ever |
| BootOptions.StepTerminated | project 2/main.c:295-388 | every option keeps the last slots null until one sets panic_later |
| BootOptions.ScansStayInside | project 2/main.c:305-357 | over every sequence of options all scans stop inside the tables, and only the call that sets panic_later fills a last slot |
| BootOptions.ModuleParameterExactly | project 2/main.c:330 | an option looks like a module parameter exactly when its name has a dot or it is quoted and its value starts with one |
| BootOptions.InitArgExactly | project 2/main.c:295-314 | set_init_arg puts the option as written into the first empty slot, and panics exactly when slots 0 to the limit are full |
| BootOptions.UnknownArgExactly | project 2/main.c:348-358 | an option without value or dot goes into the first empty argument slot, and panic_later is set exactly when slots 0 to the limit were full |
| BootOptions.UnknownEnvExactly | project 2/main.c:336-347 | one with a value goes into the first slot that is empty or starts like it up to the value, and exactly when panic_later is set |
| BootOptions.NothingElseExactly | project 2/main.c:320-388 | an option with a dot in its name or taken by a setup function changes nothing, nor does any but init= and rdinit= once panic_later is set |
| BootOptions.EnoughRoom | project 2/main.c:295-388 | a command line with at most as many options for init as the limit and fewer with values never sets panic_later |
| BootOptions.After | project 2/main.c:200-388 | after every sequence of options from the initial tables the last slots are null unless panic_later is set |
| BootOptions.ArgumentsExactly | project 2/main.c:295-388 | while nothing overflows, init gets throughout the arguments given since the last init=, in order, exactly when no init= came after as many of them as the limit allows |
| BootOptions.SetupForgetsExactly | project 2/main.c:367-374 | init= forgets all earlier arguments exactly when the slot at the limit is empty |
| BootOptions.LastArgumentStays | project 2/main.c:373-374 | for every limit a command line on which an argument given before init= survives it |
| BootOptions.PlainFindsName | project 2/main.c:344 | for an unquoted value the comparison finds exactly the entries of the same name |
| BootOptions.QuotedFindsNameAndInitial | project 2/main.c:344 | for a quoted value it finds those whose values also start alike |
| BootOptions.OtherNameDiffers | project 2/main.c:344 | an entry of another name is never found |
| BootOptions.AddEnvShows | project 2/main.c:336-347 | an option whose quoted value, if any, starts as its name's entries do replaces the entry of its name or is appended |
| BootOptions.EnvironmentExactly | project 2/main.c:320-360 | while nothing overflows, the environment holds throughout every name once with its latest value exactly when every quoted value starts as the latest one of its name |
| BootOptions.EnvironmentIsLatest | project 2/main.c:320-360 | in particular with unquoted values only |
| BootOptions.QuotedKeepsNamesExactly | project 2/main.c:284-347 | a quoted option leaves the names distinct exactly when no entry of its name has a value that starts differently |
| BootOptions.QuotedNameTwice | project 2/main.c:284-347 | two quoted options of one name whose values start differently are both kept |
| BootTables.RepairEnvString | project 2/main.c:277-292 | the memory holds name=value as one string, quoted or not, and nothing else changes |
| BootTables.InitTables.SetInitArg | project 2/main.c:295-314 | the scan and store on the arrays are the step of the model |
| BootTables.InitTables.AddEnvironment | project 2/main.c:336-347 | the environment branch on the arrays is the step of the model |
| BootTables.InitTables.AddArgument | project 2/main.c:348-358 | the argument branch on the arrays is the step of the model |
| BootTables.InitTables.UnknownBootoption | project 2/main.c:320-360 | the whole call is the step of the model: taken options and dotted names change nothing, and otherwise the name, or name=value, is in its table afterwards |
| BootTables.InitTables.InitSetup | project 2/main.c:362-388 | init= and rdinit= empty the slots 1 to limit - 1 and no other |
| BootTables.InitTables.Run | project 2/main.c:295-388 | a whole command line on the arrays leaves the right arguments and environment under those conditions, and the last slots null unless panic_later is set |

## Left out

- The rest of `project 2/main.c`: boot order, memory, scheduler and the start of init call code that is not shown.
- seccomp, audit, ptrace, context tracking, FPU, vDSO and SYSRET in `project 2/common.c`: only the flags, the interrupt bit and the dispatch decision are kept.
- fork, exec, wait and prompts in the shell: operating-system calls.
- Copying from user space, messages to the log and the kernel list macros: replaced by sequences and return codes.
- The commented-out skip-list blocks of `project1.c`, `deleteKey`, and `mbx421_count` and `mbx421_length`, which only print.
- `project 2/proj2/testing/hash.h` (a copy), Makefiles and the user programs.
- ProbeTable.HashTable.Find: returns the entry as a value, so a caller writing through the returned pointer is not captured.
- ProbeTable.HashTable.Remove: negative keys, which give a negative index in C, are not modelled; nor is the memory of removed entries.
- SkipList.SkipList.InsertKey: node allocation is taken to succeed, as the code never tests it.
- RandomGenerator.Generator.UpHeight: the overflow of its counter at a maxHeight of INT_MAX is not modelled.
- DirectHistory.SysTables.Findder: is one step there; its unprotected load and store are taken apart in `RaceIsSerialExactly`.
- FindderRace.RaceIsSerialExactly: findder's test and its load are one step, and the other requests between load and store, other calls of findder among them, are whole ones.
- SandboxAgreement.SameCounts: goes one way, because the int that count returns can hide a difference of 2^32; `RunCountExact` is exact about the stored counts.
- Interleaving.EveryRequestCanReturn: which waiting thread gets the lock next is left to the scheduler, so that a given one gets it in the end is not stated.
- Interleaving.InterleavingIsSerial: the table is initialised before the threads start, because `started` is tested outside the lock.
- Kernel.Kernel.DoSyscall64: system call numbers beyond the table make findder read outside permList and are excluded.
- Kernel.Kernel.Run: runs over the chained table with findder as meant, which is not what is built; `DirectKernel` is.
- DirectTable.RootLooksBlocked: is about tables that mirror the map; `RootRefusedExactly` is about every run.
- MailServer.Server.Recv: a positive counter over an empty list makes the code unlink the list head; that call is excluded, and `RunDefinedExactly` says when it cannot happen.
- MailServer.Server.Shutdown: unlinking the list head itself and the memory of mailboxes are not modelled.
- Shell.EnsureRoom: the write of line 94 through the old pointer is not modelled; the byte sizes passed to malloc are eight times what the text needs, and the buffer size is a 32-bit int; the model has exactly the text size and no overflow.
- Shell.ReadLine: after a failed realloc the code writes through the null result before it tests it; the model goes straight to the exit.
- BootTables.InitTables.UnknownBootoption: table entries are texts, not pointers into the command line.
