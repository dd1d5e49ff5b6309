# A verified model of CryptoMiniSat's oracle, stream parser, implicit subsumer and search counters

This project models four parts of CryptoMiniSat in Dafny and proves properties of them:

- **the `Oracle` SAT solver** (`src/oracle/oracle.cpp`). This is a small incremental CDCL solver that the rest of the system queries many times under different assumptions. It keeps:
  - an arena of clauses, each followed by a terminating 0;
  - two-watched-literal lists;
  - the assignment and its trail, a propagation queue and per-variable state;
  - an activity tournament tree, from which it picks decision variables;
  - a Luby restart counter;
  - metadata of learned clauses, which periodically drive a database reduction;
  - a cache of earlier solutions, which can answer a query without search.
- **`StreamBuffer`** (`src/streambuffer.h`). This is the chunked character reader of the DIMACS front end, with its whitespace, line and end-of-line skippers and its integer, decimal and word parsers.
- **`SubsumeImplicit`** (`src/subsumeimplicit.cpp`). This pass removes duplicate binary clauses from the watch lists, with its time budget and its statistics.
- **`SearchStats`** (`src/searchstats.cpp`). This is the counter record of the search, with `+=`, `-=` and `-`.

The model follows the source's own form:

- Each class that updates its fields in place is a Dafny `class`. Its methods carry `modifies` clauses and their loops carry invariants.
- Most methods are proved against specification functions on the old and new state: `ClauseAt`, `FilterFrom`, `Units`, `ClausesFrom`, `LowPow`, `ParseIntOf`, `Scan` and others. The meaning of those functions is proved in lemmas.
- Some methods of the oracle's search state only keep invariants and promise part of what the source does. "## Left out" names each of them, starting with the member's name, and says what is missing.

| file | module | models |
|---|---|---|
| `oraclebase.dfy` | `OracleBase` | literals, the clause arena (`ClauseAt`), `SwapDel`, the clause filter of clause ingestion |
| `oracleluby.dfy` | `OracleLuby` | the binary counter behind `NextLuby` and its largest-power-of-two result |
| `oracleheap.dfy` | `OracleHeap` | the activity tournament tree: its invariant, repair and construction |
| `oraclesort.dfy` | `OracleSort` | the three orders the oracle sorts by, with an insertion-sort specification |
| `oracle.dfy` | `Oracle` | class `Oracle` and the specification functions and lemmas of its operations |
| `streambuffer.dfy` | `StreamBuffer` | class `StreamBuffer` over the in-memory reader `CH` |
| `subsumeimplicit.dfy` | `SubsumeImplicit` | class `SubsumeImplicit` over a table of watch lists |
| `searchstats.dfy` | `SearchStats` | class `SearchStats` and the counter arithmetic |

Oracle invariants:

- `Oracle.Oracle.Valid()` is the object invariant. It has three parts:
  - `ArenaPart`: the arena is well formed and the watches, reasons and learned-clause metadata point into it;
  - `AssignPart`: the value tables, the trail and the queues;
  - `OtherPart`: the heap, the cache, the Luby stack and the stamps.
- `HeapCovers()` says that every unassigned variable is active in the heap. `HardSolve` relies on it to conclude that every variable is assigned once the heap is empty.

## Model

| member | source | states |
|---|---|---|
| OracleBase.Neg | src/oracle/oracle.cpp:331-343 | the opposite literal belongs to the same variable and has the other polarity |
| OracleBase.MkLit | src/oracle/oracle.cpp:481 | the literal of `v` with polarity `phase` is positive exactly when `phase` is 1 |
| OracleBase.ClauseAt | src/oracle/oracle.cpp:906-914 | the clause at an offset is the run of non-zero arena entries up to its terminator |
| OracleBase.SwapDel | src/oracle/oracle.cpp:716 | deleting slot `i` by moving the last element into it removes exactly one occurrence of `s[i]` and keeps every other slot |
| OracleBase.FilterFromSat | src/oracle/oracle.cpp:712-719 | the ingestion filter reports a satisfied clause exactly when some literal is true |
| OracleBase.FilterMeaning | src/oracle/oracle.cpp:712-720 | the filter reports satisfied iff a literal is true; otherwise what remains is the clause's open literals with their multiplicities, the false ones dropped |
| OracleLuby.LowPow | src/oracle/oracle.cpp:219-226 | the largest power of two dividing `n`, with `n` equal to it times an odd number |
| OracleLuby.BitsSum | src/oracle/oracle.cpp:219-226 | the entries of the counter's stack add up to the number of pushes |
| OracleLuby.BitsDecreasing | src/oracle/oracle.cpp:221-224 | the entries of the stack strictly decrease from bottom to top, so no two adjacent ones are equal after the carries |
| OracleLuby.BitsTopIsLowPow | src/oracle/oracle.cpp:225 | the top of the stack after `n` pushes is the largest power of two dividing `n` |
| OracleLuby.CarryStep | src/oracle/oracle.cpp:221-224 | one carry merges the two equal entries on top into one of twice the size |
| OracleLuby.CarryDone | src/oracle/oracle.cpp:220-221 | without equal entries on top, pushing a 1 is the stack of the next count |
| OracleHeap.RepairStep | src/oracle/oracle.cpp:244-246 | recomputing a node as the maximum of its children moves the disturbed path one level up |
| OracleHeap.LeafChange | src/oracle/oracle.cpp:253-255 | changing a leaf of a valid tree leaves only the path above it to repair |
| OracleHeap.LowerNegativeLeaf | src/oracle/oracle.cpp:261-262 | lowering a negative leaf keeps the tree valid without any repair |
| OracleHeap.BelowRoot | src/oracle/oracle.cpp:228-240 | no slot of a valid tree exceeds the root |
| OracleHeap.DescendStep | src/oracle/oracle.cpp:233-239 | below a positive node one child carries the node's value, so the descent of `PopVarHeap` finds the maximum |
| OracleHeap.BuildStep | src/oracle/oracle.cpp:781-783 | building node `i` from its children extends the valid part of the tree down to `i` |
| OracleSort.Sort | src/oracle/oracle.cpp:502-509 | the result is a sorted permutation of the input |
| OracleSort.InfoKeyMatches | src/oracle/oracle.cpp:84-88 | the key order used for the metadata is exactly the comparator that `ResizeClauseDb` passes to `std::sort` |
| OracleSort.LearntKeyMatches | src/oracle/oracle.cpp:502-509 | the key order used for learned literals is exactly the comparator of `LearnUip`: level descending, then literal id |
| Oracle.ClashStep | src/oracle/oracle.cpp:791-799 | deciding the assumptions in order clashes iff the next one is false, or deciding it leads to a clash later |
| Oracle.SetLitKeeps | src/oracle/oracle.cpp:796-797 | deciding an unassigned assumption keeps every true literal true |
| Oracle.ClausesFromListed | src/oracle/oracle.cpp:906-914 | every clause that starts in the learned region after a terminator is among the clauses `GetLearnedClauses` lists |
| Oracle.ClausesFromRun | src/oracle/oracle.cpp:906-914 | the listing of the learned region is the first run of literals, followed by the listing after its terminator |
| Oracle.UnitsTrue | src/oracle/oracle.cpp:918-925 | each unit listed is one true literal of a problem variable |
| Oracle.UnitsComplete | src/oracle/oracle.cpp:918-925 | every assigned variable contributes the unit of its true literal |
| Oracle.SplitSorted | src/oracle/oracle.cpp:904-916 | splitting the learned region at its terminators gives, in order, each clause sorted by literal id and as a permutation of its literals |
| Oracle.HeapSize | src/oracle/oracle.cpp:775-776 | `heap_N` is the least power of two above `vars` |
| Oracle.BuildHeap | src/oracle/oracle.cpp:777-783 | the leaves hold `var_inc` times the initial activities, the leaves of non-variables are 0, and every internal node is the maximum of its children |
| Oracle.CoversPop | src/oracle/oracle.cpp:228-248 | after popping `r`, every unassigned variable other than `r` is still active |
| Oracle.CoversAllAssigned | src/oracle/oracle.cpp:700-704 | when no leaf is active, every variable is assigned |
| Oracle.CoversUndone | src/oracle/oracle.cpp:345-358 | backtracking reactivates every variable it unassigns, so coverage is kept |
| Oracle.RoundDecreases | src/oracle/oracle.cpp:664-707 | a round of the main loop lowers the termination measure: the budget spent, or the propagation queue |
| Oracle.ActiveShrinks | src/oracle/oracle.cpp:699-702 | popping an assigned variable lowers the number of active leaves |
| Oracle.TotalUpdate | src/oracle/oracle.cpp:579-582 | replacing one watch list changes the total number of records by the difference in its size |
| Oracle.AssignCounts | src/oracle/oracle.cpp:331-343 | assigning an unassigned variable lowers the number of unassigned variables by one |
| Oracle.SecondLevel | src/oracle/oracle.cpp:599-608 | sorted by level, a learned clause of three or more literals has its second literal above level 1 |
| Oracle.LearntValid | src/oracle/oracle.cpp:440-514 | a permutation of a learned clause holds only literals of the problem |
| Oracle.GlueOfDescents | src/oracle/oracle.cpp:367-377 | the glue computed is 2 plus the number of strict level descents after the first literal |
| Oracle.GlueCountsLevels | src/oracle/oracle.cpp:365-377 | on a clause sorted by level, the glue is one more than the number of distinct levels after the first literal |
| Oracle.DescentsCount | src/oracle/oracle.cpp:371-376 | on a non-increasing sequence of levels, the strict descents are one fewer than its distinct values |
| Oracle.ClauseAtAppend | src/oracle/oracle.cpp:383-384 | after appending a clause and a terminator, the clause read from inside the appended clause is the rest of it |
| Oracle.LevelSetMembers | src/oracle/oracle.cpp:203-208 | the levels stamped are exactly the levels of the clause's literals |
| Oracle.StampCounts | src/oracle/oracle.cpp:414-417 | stamping an unstamped literal lowers the number of unstamped literals by one |
| Oracle.ClosedKeeps | src/oracle/oracle.cpp:404-406 | permuting a reason clause and adding stamps keeps a literal's redundancy proof |
| Oracle.SearchDone | src/oracle/oracle.cpp:396-426 | once the redundancy search stack runs empty, every stamped literal is implied by the learned clause |
| Oracle.ClosedStep | src/oracle/oracle.cpp:407-421 | a literal whose reason literals are all in the clause, at level 1 or stamped is closed |
| Oracle.Oriented | src/oracle/oracle.cpp:110-114 | the clause copied by the reduction has its first two literals swapped when the second one is implied by it |
| Oracle.FrozenSnoc | src/oracle/oracle.cpp:125-132 | one more literal makes a clause satisfied at level 1 iff it already was or that literal is true at level 1 |
| Oracle.Tally | src/oracle/oracle.cpp:118-139 | the reduction counts one memory access per entry and one forgotten clause per dropped entry, and nothing else |
| Oracle.RemapListIn | src/oracle/oracle.cpp:153-163 | re-pointed watch lists point at clauses of the new arena |
| Oracle.PermutedInfo | src/oracle/oracle.cpp:84-88 | the sorted metadata still describes the learned clauses of the arena |
| Oracle.RebuiltAll | src/oracle/oracle.cpp:101-151 | after the reduction loop, every learned clause is forwarded, dropped or kept at its new offset as decided, and the new arena and metadata are well formed |
| Oracle.Verdicts | src/oracle/oracle.cpp:137-142 | each sorted entry is kept unless it is satisfied at level 1, or implies nothing, is not added, has glue above 2 and comes after the first 10000 plus the glue-2 entries |
| Oracle.RebuildDb | src/oracle/oracle.cpp:89-151 | the loop that builds the new arena: the forwarding map, the verdicts, the new original size, the two counters and the statistics |
| Oracle.ResizeDb | src/oracle/oracle.cpp:83-165 | the whole reduction on values: the sorted order, the new arena, the re-pointed reasons and watch lists, and the new metadata |
| Oracle.Carry | src/oracle/oracle.cpp:220-224 | the carry loop turns the stack for `n - 1` with a 1 pushed into the stack for `n` |
| Oracle.RemapOneList | src/oracle/oracle.cpp:154-162 | in order, a record of the original region stays, a record of a moved clause follows it and a record of a forgotten clause is dropped |
| Oracle.Oracle.constructor | src/oracle/oracle.cpp:753-784 | fresh oracle over `n` variables: the invariant and heap coverage hold, `heap_N` is the least power of two above `vars`, the leaves hold `var_inc` times the initial activities, and every input clause is added |
| Oracle.Oracle.AddInputs | src/oracle/oracle.cpp:768-770 | each input clause goes through `AddOrigClause`; afterwards every clause is still in the original region, no learned metadata exists and the cache is cleared |
| Oracle.Oracle.AddLearnedInputs | src/oracle/oracle.cpp:746-751 | the second constructor: each given learned clause goes through `AddClauseIfNeededAndStr` as entailed. The ghost log has one entry per clause, and the entries chain from the old arena and values to the new ones. A call that added something found the clause not satisfied, and added a sub-multiset of its open literals. That clause was in force right after the call: some literal of it true, or it appended at the end of the arena, unless the oracle had become unsatisfiable, in which case it stays so to the end. A call that added nothing left the arena's shape unchanged. The invariant and coverage hold afterwards |
| Oracle.Oracle.AddSolToCache | src/oracle/oracle.cpp:49-55 | every variable's column gains its current phase and `cache_added` rises by one |
| Oracle.Oracle.ClearSolCache | src/oracle/oracle.cpp:57-60 | every column ends up empty |
| Oracle.Oracle.SatByCache | src/oracle/oracle.cpp:62-81 | true iff some cache line agrees with every assumption |
| Oracle.Oracle.InitLuby | src/oracle/oracle.cpp:215-217 | the Luby stack is empty and the count is 0 |
| Oracle.Oracle.NextLuby | src/oracle/oracle.cpp:219-226 | the result is the largest power of two dividing the number of calls so far, which is the next term of the restart sequence |
| Oracle.Oracle.RepairFrom | src/oracle/oracle.cpp:244-246 | the repair walk to the root restores the tree invariant and leaves the leaves alone |
| Oracle.Oracle.PopVarHeap | src/oracle/oracle.cpp:228-248 | 0 iff the root is not positive; otherwise it returns a variable whose leaf holds the maximum activity, negates that leaf only, and keeps the tree valid |
| Oracle.Oracle.ActivateActivity | src/oracle/oracle.cpp:250-257 | the leaf becomes its absolute value, nothing changes for a positive leaf, and other leaves are unchanged |
| Oracle.Oracle.BumpVar | src/oracle/oracle.cpp:259-269 | the leaf moves `var_inc` away from zero, no leaf changes sign, other leaves are unchanged, and one memory access is counted |
| Oracle.Oracle.Assign | src/oracle/oracle.cpp:331-343 | `dec` true and its negation false; the reason is 0 at levels up to 1; the phase is saved; the variable is pushed on the trail and the negation on the queue |
| Oracle.Oracle.Decide | src/oracle/oracle.cpp:331-343 | `Assign` without a reason |
| Oracle.Oracle.UnDecide | src/oracle/oracle.cpp:345-358 | pops exactly the trail entries from the top with level at least `level`, clears them and reactivates them; one memory access per entry |
| Oracle.Oracle.FindNonFalse | src/oracle/oracle.cpp:558-565 | the first literal past the watches that is not false, or 0 when every one of them is false |
| Oracle.Oracle.Settle | src/oracle/oracle.cpp:574-584 | a clause with every other literal false is a conflict when its first literal is assigned, and otherwise implies it |
| Oracle.Oracle.MoveWatch | src/oracle/oracle.cpp:555-573 | `other` goes to the first slot; when a literal past the watches is not false, it is swapped into the second slot, `ff` takes its place, every literal skipped over is false, and the clause is pushed on the new literal's list; otherwise `ff` stays second and every later literal is false |
| Oracle.Oracle.VisitLong | src/oracle/oracle.cpp:540-584 | one long-clause watch: kept with a new blocker, moved to another list, or settled; a conflict is this clause, and when `ff` was false every literal of it is false |
| Oracle.Oracle.StepWatch | src/oracle/oracle.cpp:528-585 | one watch record: a true blocker keeps it; a binary clause is a conflict when its other literal is false and a unit otherwise; a long one goes to `VisitLong` unless a conflict was already found, which stops the scan and leaves the arena as it is; with `ff` false, a conflict reported is a clause whose literals are all false |
| Oracle.Oracle.ScanList | src/oracle/oracle.cpp:525-591 | the records of one list in order: the records handed back and those now in the lists together number as many as before; a conflict is the start of a clause, and with `ff` false every literal of it is false |
| Oracle.Oracle.Propagate | src/oracle/oracle.cpp:518-593 | the queue is emptied; a non-zero result is a clause start, and when every queued literal was false it is a clause whose literals are all false; no assigned literal changes; the trail only grows; binary clauses keep their literals; the number of watch records is kept; an empty queue gives no conflict |
| Oracle.Oracle.CountGlue | src/oracle/oracle.cpp:365-377 | the glue of a clause sorted by level: 2 plus the strict level descents after the first literal |
| Oracle.Oracle.AddLearnedClause | src/oracle/oracle.cpp:360-387 | the clause and a terminator are appended at `pt`, watched by its first two literals, with metadata `(pt, glue, 1, 0)`; the learned counters rise |
| Oracle.Oracle.FindInfo | src/oracle/oracle.cpp:189-195 | the galloping search finds the metadata index whose offset is `cls` |
| Oracle.Oracle.CountLevels | src/oracle/oracle.cpp:201-208 | the number of distinct decision levels among the clause's literals |
| Oracle.Oracle.BumpClause | src/oracle/oracle.cpp:186-213 | an original or added clause leaves the metadata alone; otherwise exactly its entry gets the glue counted, `used` = 1 and `total_used` + 1 |
| Oracle.Oracle.ReduSearch | src/oracle/oracle.cpp:393-422 | the stack search ends with a proof that the literal is redundant, or stuck at a literal above level 1 without a reason |
| Oracle.Oracle.ScanLits | src/oracle/oracle.cpp:409-421 | each literal of a reason clause after the first is passed over, stamped and pushed, or blocks the search |
| Oracle.Oracle.LitReduntant | src/oracle/oracle.cpp:390-427 | true: the literal and every literal stamped are implied by the learned clause through level-1 literals and reasons; false: the search reached a decision above level 1; the arena keeps its shape, and `nontriv_redu` rises iff true after two rounds or more |
| Oracle.Oracle.CollectConflict | src/oracle/oracle.cpp:441-458 | the literals collected for the learned clause are literals of the problem above level 1 and none is at the conflict's level; no activity changes sign; memory accesses are counted and nothing else in the statistics changes |
| Oracle.Oracle.WalkTrail | src/oracle/oracle.cpp:460-484 | ends on a valid UIP literal; every literal collected stays a problem literal above level 1 and off the conflict's level; only memory accesses are counted |
| Oracle.Oracle.ExpandReason | src/oracle/oracle.cpp:466-479 | the open count never falls, and every literal collected from the reason is a problem literal above level 1 and off the conflict's level |
| Oracle.ApartSwapDel | src/oracle/oracle.cpp:497 | deleting a slot after the first by `SwapDel` keeps every later literal off the conflict's level |
| Oracle.Oracle.Minimize | src/oracle/oracle.cpp:490-501 | removes only redundant literals: a sub-multiset of the clause, still a learned clause, with the UIP kept first and no later literal at the conflict's level |
| Oracle.Oracle.LearnUip | src/oracle/oracle.cpp:429-515 | the learned clause: a problem literal first (the UIP), then literals above level 1 none of which is at the conflict's level; the result is that clause sorted by level descending, as a permutation, with its marks cleared |
| Oracle.Oracle.SavedDecisions | src/oracle/oracle.cpp:621-630 | the trail entries above the assertion level, as (literal of the saved phase, level) pairs, bottom first |
| Oracle.Oracle.Replay | src/oracle/oracle.cpp:635-652 | ends at `min_level - 1` or at least `min_level`; in the latter case every saved decision holds again; the queue is empty and the arena keeps its shape |
| Oracle.Oracle.BacktrackUnit | src/oracle/oracle.cpp:599-605 | back to level 2, the unit is assigned without a reason and recorded as a learned unit; returns 2 |
| Oracle.Oracle.BacktrackAssert | src/oracle/oracle.cpp:611-616 | back to the assertion level, the clause is added and its first literal asserted by it at that level |
| Oracle.Oracle.BacktrackReplay | src/oracle/oracle.cpp:617-653 | below the minimum level: the clause is added and the saved decisions are replayed; the result is at least `min_level - 1` and one more learned clause is counted |
| Oracle.Oracle.CDCLBT | src/oracle/oracle.cpp:595-655 | one conflict analysed and backjumped over: the unit, assert and replay cases as stated by `Backjumped`; `conflicts` rises by one |
| Oracle.Oracle.PickFromHeap | src/oracle/oracle.cpp:699-702 | pops until an unassigned variable comes up, or returns 0, and then every variable is assigned |
| Oracle.Oracle.ScanFree | src/oracle/oracle.cpp:696-697 | the lowest unassigned variable at or after `nv`, or `vars + 1` |
| Oracle.Oracle.Restart | src/oracle/oracle.cpp:675-693 | one more restart is counted; the database is reduced, and the clean mark moved, exactly when more than 10000 conflicts passed since the last reduction; the invariant and heap coverage are kept |
| Oracle.Oracle.HardSolve | src/oracle/oracle.cpp:657-708 | `True`: every variable assigned with nothing to propagate; `Unknown`: more than `max_mems` accesses spent; `False`: within budget; the invariant and coverage are kept |
| Oracle.Oracle.FreezeUnit | src/oracle/oracle.cpp:830-849 | already unsat gives false; a false unit sets unsat; a true unit gives true and changes nothing; otherwise the unit is decided at level 1 and propagated, one learned unit is counted, and a result of true means the unit holds |
| Oracle.Oracle.StripClause | src/oracle/oracle.cpp:712-719 | the filter loop on a copy: whether a literal is true, and otherwise the clause without its false literals |
| Oracle.Oracle.AddOrigClause | src/oracle/oracle.cpp:710-744 | a satisfied clause changes nothing; otherwise the cache is cleared unless entailed; then an empty clause sets unsat, a unit is frozen, and a longer clause is appended and watched, in the original region or as an added clause with metadata `(pt, -1, -1, 0)` |
| Oracle.Oracle.ProbeAll | src/oracle/oracle.cpp:871-898 | the probes, literal by literal: every probe before index `i` found its literal true with no conflict, and the one at `i` found `res` (dropped iff a conflict or the literal false, needed iff no conflict and the literal unassigned); all implied means every literal was probed; with an empty queue and no complementary literals, each probe saw all other literals false and a conflict on a clause whose literals are all false; the arena keeps its shape |
| Oracle.Oracle.ProbeLiteral | src/oracle/oracle.cpp:874-891 | one probe before it is undone: the outcome is dropped iff propagation found a conflict or left the literal false, implied iff no conflict and the literal true, needed otherwise; with an empty queue and no complementary literals, every other literal is false and a conflict is a clause whose literals are all false |
| Oracle.Classify | src/oracle/oracle.cpp:880-892 | the three-way branch after a probe: dropped iff a conflict was found or the probed literal is false, implied iff no conflict and the literal is true, needed iff no conflict and the literal is unassigned |
| Oracle.Oracle.TryLiteral | src/oracle/oracle.cpp:872-893 | one probe and its undoing: the outcome has the meaning `ProbeLiteral` gives it, stated on what the probe saw before `UnDecide(2)`; the queue ends empty |
| Oracle.DecideKeepsFalse | src/oracle/oracle.cpp:874-878 | deciding the negation of a literal of a clause without complementary literals makes it false and keeps false the clause's literals already false |
| Oracle.Oracle.DecideAllBut | src/oracle/oracle.cpp:874-878 | the negation of every literal other than the probed one is decided: the queue and the trail grow by exactly those, and in a clause without complementary literals they are then all false |
| Oracle.Oracle.AddKept | src/oracle/oracle.cpp:863-865 | `AddOrigClause` places the clause, a sub-multiset of it, and that clause is then in force. When no literal was true, what it places is exactly the clause without its false literals |
| Oracle.Oracle.AddDropped | src/oracle/oracle.cpp:880-883 | dropping the literal and recursing adds, when anything, a sub-multiset of the clause that is in force |
| Oracle.OpenSub | src/oracle/oracle.cpp:856-862 | the filtered clause uses each literal at most as often as the clause |
| Oracle.Oracle.AddClauseIfNeededAndStr | src/oracle/oracle.cpp:853-900 | unsat or a satisfied clause gives false and adds nothing; a true result means the oracle was not unsat, the clause was not satisfied, and the clause added uses the filtered clause's literals at most as often as it does and is in force: unsat, one of its literals true, or appended at the old arena end; a false result keeps the arena's shape, the original size, the metadata and the unsat flag |
| Oracle.Oracle.Solve | src/oracle/oracle.cpp:786-828 | unsat gives `False` and changes nothing; a cache hit gives `True` with `cache_useful` + 1; a false assumption gives `False` without search; unsat afterwards gives `False`; without a search the cache is unchanged |
| Oracle.Oracle.Record | src/oracle/oracle.cpp:816-826 | `True` is cached when the cache is used; `False` under a single assumption freezes its negation |
| Oracle.Oracle.FreezeLearned | src/oracle/oracle.cpp:805-815 | every learned unit is assigned afterwards, the list of learned units is emptied, and the result is true iff the oracle is not unsat |
| Oracle.Oracle.GetLearnedClauses | src/oracle/oracle.cpp:902-927 | each learned clause of the arena in order, sorted by literal id and a permutation of its literals, followed by one unit per assigned variable |
| Oracle.Oracle.UnitClauses | src/oracle/oracle.cpp:918-925 | one unit per assigned variable, in variable order |
| Oracle.Oracle.LearnedListed | src/oracle/oracle.cpp:906-914 | every clause that the metadata names is among those `GetLearnedClauses` lists |
| Oracle.Oracle.SetAssumpLit | src/oracle/oracle.cpp:292-329 | the negated literal's watch list is emptied, each of its clauses being moved to a free literal; the literal is assigned at level 1 or 2 with no reason; the trail and queue are unchanged; one access counted per record of both lists |
| Oracle.Oracle.ReleaseWatch | src/oracle/oracle.cpp:298-316 | the watch on the assumption's literal is moved to the last unassigned literal of the clause |
| Oracle.Oracle.LastFree | src/oracle/oracle.cpp:307-312 | the last unassigned literal past the two watches, or 0 |
| Oracle.Oracle.ResizeClauseDb | src/oracle/oracle.cpp:83-184 | the metadata is sorted by the comparator (a permutation); entries are kept or forgotten as `Verdicts` says; kept clauses are copied oriented; reasons and watches are re-pointed; the metadata is renewed with `used` - 1; the counters and statistics are tallied |
| StreamBuffer.AsInt | src/streambuffer.h:105-107 | a byte read through a signed `char`: negative above 127, EOF exactly for 0xFF, and back to the byte by `AsChar` |
| StreamBuffer.CString | src/streambuffer.h:55-70 | the source string from a position: bytes up to the first NUL |
| StreamBuffer.ChRead | src/streambuffer.h:55-70 | copies up to `num * count` bytes of the source until its NUL; the copied bytes are the start of the rest and the pointer advances by their number |
| StreamBuffer.StreamBuffer.constructor | src/streambuffer.h:96-103 | a fresh buffer whose input still to be read is the source string up to its first NUL |
| StreamBuffer.StreamBuffer.AssureLookahead | src/streambuffer.h:76-81 | refills from position 0 only when the chunk is used up |
| StreamBuffer.StreamBuffer.Peek | src/streambuffer.h:105-107 | EOF on empty input, else the next byte as a signed `char` |
| StreamBuffer.StreamBuffer.Advance | src/streambuffer.h:108-111 | the rest loses its first byte |
| StreamBuffer.BlankRunMeaning | src/streambuffer.h:113-120 | `skipWhitespace` consumes tabs, carriage returns and spaces only, and all of them |
| StreamBuffer.StreamBuffer.SkipWhitespace | src/streambuffer.h:113-120 | consumes the blank run; what follows is not blank |
| StreamBuffer.LineSkipMeaning | src/streambuffer.h:122-132 | `skipLine` consumes through the first newline, stopping before EOF or NUL |
| StreamBuffer.StreamBuffer.SkipLine | src/streambuffer.h:122-132 | consumes exactly `LineSkip` bytes |
| StreamBuffer.EolSkipMeaning | src/streambuffer.h:134-159 | `skipEOL` consumes carriage returns, succeeds at EOF, NUL or a newline (consuming it), and fails before any other byte |
| StreamBuffer.StreamBuffer.SkipEol | src/streambuffer.h:134-159 | result and bytes consumed as `EolSkip` says |
| StreamBuffer.WordRunMeaning | src/streambuffer.h:224-232 | a word holds no space, newline or EOF, and stops at the first one |
| StreamBuffer.StreamBuffer.ParseString | src/streambuffer.h:224-232 | skips blanks, then returns and consumes the word |
| StreamBuffer.AccumulateIsDecimal | src/streambuffer.h:203-218 | the corrected accumulation yields the decimal value of the digits exactly when the type can hold it, and fails otherwise |
| StreamBuffer.DigitLoopRun | src/streambuffer.h:203-218 | the digit loop gives the corrected accumulation of the whole digit run, and consumes exactly the run when it succeeds |
| StreamBuffer.ParseIntMeaning | src/streambuffer.h:184-222 | with the corrected overflow test: succeeds iff, after blanks and an optional sign, a digit run follows that fits the type; the value is the signed decimal value, `*len` grows by the run's length, and the run is consumed |
| StreamBuffer.IntNotation | src/streambuffer.h:184-222 | an optional minus and `n` digits parse to their signed decimal value |
| StreamBuffer.StreamBuffer.ReadDigits | src/streambuffer.h:203-218 | the digit loop with the corrected overflow test: success, value, digit count and bytes consumed are those of `DigitLoop` on the remaining input |
| StreamBuffer.StreamBuffer.ParseInt | src/streambuffer.h:184-222 | as `ParseIntOf`, with the corrected overflow test: success, value (or the caller's on failure), digit count added to `*len`, bytes consumed |
| StreamBuffer.DecimalNotation | src/streambuffer.h:161-182 | head digits, '.', tail digits parse to head plus tail / 10^digits |
| StreamBuffer.NegativeHeadAddsFraction | src/streambuffer.h:161-182 | "-1.5" parses to -0.5: the fraction is added to the negative head |
| StreamBuffer.StreamBuffer.ParseDouble | src/streambuffer.h:161-182 | as `ParseDoubleOf`: success, value (or the caller's on failure), bytes consumed |
| StreamBuffer.AsWrittenMissesOverflow | src/streambuffer.h:209-215 | with the overflow test as written, "10000000000" is accepted and yields 1410065408 |
| SubsumeImplicit.ScanSizes | src/subsumeimplicit.cpp:79-118 | what the scan keeps and what it removes add up to the list, and only binaries are removed |
| SubsumeImplicit.ScanKeepsOrder | src/subsumeimplicit.cpp:96-115 | the kept watches are the list's watches at strictly increasing positions |
| SubsumeImplicit.ScanKeepsNonBinaries | src/subsumeimplicit.cpp:103-107 | every clause and BNN watch is kept, in order |
| SubsumeImplicit.ScanMultiset | src/subsumeimplicit.cpp:96-115 | each watch goes to exactly one of kept and removed |
| SubsumeImplicit.ScanDistinct | src/subsumeimplicit.cpp:49-76 | on a list sorted by the bin-tri-long order, no two binaries kept share their other literal |
| SubsumeImplicit.ScanRemovedHasTwin | src/subsumeimplicit.cpp:49-76 | nothing is lost: every binary the scan removes has a kept binary with the same other literal, and so has the `lastLit2` it ends with |
| SubsumeImplicit.ScanLast | src/subsumeimplicit.cpp:70-72 | `lastLit2` ends as the other literal of the list's last binary |
| SubsumeImplicit.LastRedBefore | src/subsumeimplicit.cpp:51-53 | on a sorted list a duplicate of a redundant binary is redundant: irredundant copies come first |
| SubsumeImplicit.PartneredMultiset | src/subsumeimplicit.cpp:58 | the partner removals take from each list exactly one `Binary(lit, red, id)` per removed `Binary(l, red, id)` |
| SubsumeImplicit.AfterWatchMultiset | src/subsumeimplicit.cpp:79-118 | the scanned list loses exactly the removed binaries and every other list exactly their partners |
| SubsumeImplicit.AfterWatchOnlyBinaries | src/subsumeimplicit.cpp:79-118 | only binary watches are removed; clause and BNN watches all survive |
| SubsumeImplicit.AtWatchValid | src/subsumeimplicit.cpp:79-118 | the table stays well formed, and symmetric: each binary is watched from both of its literals |
| SubsumeImplicit.StopPointMeaning | src/subsumeimplicit.cpp:96-100 | the scan stops scanning exactly at the first position where the budget is negative |
| SubsumeImplicit.SubsumeImplicit.constructor | src/subsumeimplicit.cpp:37-40 | a subsumer over a well-formed, symmetric table with cleared statistics |
| SubsumeImplicit.SubsumeImplicit.TrySubsumeBin | src/subsumeimplicit.cpp:42-77 | a binary equal in `lit2` to the last one kept is removed with its partner, costing 30 plus the partner list's size, and counted in `remBins` and the red or irred count; otherwise it is written at `j` and becomes the last one |
| SubsumeImplicit.SubsumeImplicit.SubsumeAtWatch | src/subsumeimplicit.cpp:79-118 | charges the sort, scans up to the stop point, removes the duplicates found, returns their number, and leaves the whole list deduplicated when the budget lasted. Every binary removed still has a binary with the same other literal in the list |
| SubsumeImplicit.SubsumeImplicit.Compact | src/subsumeimplicit.cpp:92-117 | the array is compacted in place into the kept watches followed by those copied after the budget ran out |
| SubsumeImplicit.SubsumeImplicit.VisitAll | src/subsumeimplicit.cpp:134-141 | visits the lists `(rnd_start + k) % n` in turn, all distinct, until all are done or the budget is spent |
| SubsumeImplicit.SubsumeImplicit.SubsumeImplicitRun | src/subsumeimplicit.cpp:120-171 | only binaries are removed; the table stays valid; the lists are visited cyclically without repeats; stopping early means the budget ran out; the clause counts fall by the removals; the run statistics are added to the global ones |
| SubsumeImplicit.CyclicDistinct | src/subsumeimplicit.cpp:138-141 | rounds below `n` visit distinct lists |
| SearchStats.DifferenceUndoesSum | src/searchstats.cpp:27-140 | subtracting what was added restores the record |
| SearchStats.WrapCancels | src/searchstats.cpp:27-140 | on one 64-bit unsigned counter, adding then subtracting the same amount gives the start value back |
| SearchStats.WrappedDifferenceUndoesSum | src/searchstats.cpp:27-140 | `(a += b) -= b` restores every counter of `a` under 64-bit wrap-around |
| SearchStats.SearchStats.AddAssign | src/searchstats.cpp:27-83 | each counter of `other` is added to the same-named counter, also when `other` is `this` |
| SearchStats.SearchStats.SubtractAssign | src/searchstats.cpp:85-140 | each counter of `other` is subtracted from the same-named counter, also when `other` is `this` |
| SearchStats.SearchStats.Subtract | src/searchstats.cpp:142-147 | a fresh record holding `this - other`; `this` is unchanged |
| SearchStats.AddThenSubtract | src/searchstats.cpp:27-140 | `(a += b) -= b` restores `a` when `b` is another record; with `b == a` both steps read the already-updated record, so the result is the doubled record minus itself |

## Left out

- Floating-point activities: activities and `var_inc` are integers. `BumpVar`'s growth of `var_inc` by `var_fact` and the rescaling by 10000 (oracle.cpp:270-289) are not modelled, because they need floating point.
- Oracle.Oracle.BumpVar: the rescale branch and the `var_inc` update are left out, as above. The contract covers only the leaf update and its repair.
- The random initial activities: `RandInt(95, 105)` becomes the constructor parameter `acts`, each entry between 95 and 105. `var_inc`, whose initial value is declared in a header that is not part of this model, is the parameter `inc`.
- Header values: `lvl_it` and `redu_it` start at 1; the level stamps start empty (`lvl_seen` is a map); `min_level` in `HardSolve`'s call of `CDCLBT` is 0. These are taken as their defaults because the header that declares them is not part of this model.
- `CInfo::Keep` is declared in that header and is taken as "glue at most 2".
- Oracle.Oracle.constructor: the activity heap is built before the input clauses are added, not after. Adding clauses does not read the heap, so the final state is the same.
- Oracle.Oracle.SetAssumpLit: a clause with no unassigned literal past its watches is left alone; the source asserts that this cannot happen. Only the negated literal's list is promised to be empty afterwards, because an earlier move may push records onto the positive literal's list.
- `PopVarHeap` descends to the left child on a tie, as the code does. Watch records live in the list of the watched literal itself, as the code does.
- The heap invariant is relaxed: an internal node is at least the maximum of its children, and equal to it when positive. `BumpVar` on a negative leaf does not repair its ancestors, so the exact invariant does not survive it.
- Oracle.Oracle.CDCLBT: the returned level is proved at least `min_level - 1`, and at least 2 except when the learned clause has two literals and its second is unassigned. The source's assertion that it is always at least 2 rests on whole-solver invariants that are not modelled.
- Oracle.Oracle.ResizeClauseDb: a learned reason that the `impll` test misses is set to 0, where the source asserts that this cannot happen. The source's final checks (oracle.cpp:172-183) are not restated.
- Oracle.Oracle.HardSolve: `False` is promised only to stay within the budget. That the formula is unsatisfiable under the assumptions is not proved, because the model states no clause-level semantics of learning.
- Oracle.Oracle.Solve: a `True` answer is not proved to satisfy the clauses, for the same reason.
- Oracle.Oracle.Propagate: no invariant of the model places a clause's watched literal in its first two slots, so that the two slots hold the literals of the list a record is in is not proved for clauses of three or more literals. As a result, such a clause is not proved to keep its literals as a multiset: each move is stated slot by slot (`MoveWatch`), and only binary clauses are proved to keep their pair. A result of 0 is not proved to mean that no clause is falsified. A non-zero result is proved to be a falsified clause only when every queued literal was false on entry; the source assumes this without checking it.
- Oracle.Oracle.ScanList: the falsified-conflict clause holds only when `ff` was false on entry. The contents of long clauses are not proved to be kept, as for `Propagate`.
- Oracle.Oracle.StepWatch: as for `ScanList`.
- Oracle.Oracle.VisitLong: as for `ScanList`.
- Oracle.Oracle.MoveWatch: that `ff` and `other` were the clause's two watched literals before the move is not proved, as for `Propagate`. So the move is not proved to permute the clause, although each slot written is stated.
- Oracle.Oracle.LearnUip: the literals of the learned clause are not proved false, and those after the first are not proved to be below the conflict's level. Both need the invariant that every reason clause had all other literals false when it implied its literal, which the model does not state. They are proved to be above level 1 and not at the conflict's level. That the first literal is at the conflict's level needs the `seen` marks to be clear on entry; the model does not keep that as an invariant, so it is not proved.
- Oracle.Oracle.CollectConflict: for the same reason, the literals collected are not proved false or below the conflict's level.
- Oracle.Oracle.ExpandReason: as for `CollectConflict`.
- Oracle.Oracle.WalkTrail: the loop also stops when the trail runs out (`i >= 0`), and the UIP then defaults to the conflict clause's first literal. The source has no such guard: it relies on an open variable always being found on the trail, which the model does not prove. The guard keeps the index in range and makes the walk terminate.
- Oracle.Oracle.AddClauseIfNeededAndStr: `UnDecide(2)` is not proved to restore the level-1 assignment, because the model does not keep the invariant that the trail below the probe holds only levels up to 1. So `AddOrigClause` is only proved to add a sub-multiset of the filtered clause, and not that clause exactly.
- Oracle.Oracle.ProbeAll: the meaning of each probe is stated on what it saw before it was undone. Its refutation part is stated for a clause without complementary literals, when the queue was empty; the source assumes both.
- Oracle.Oracle.TryLiteral: as for `ProbeAll`.
- Oracle.Oracle.ProbeLiteral: as for `ProbeAll`.
- Oracle.Oracle.AddLearnedInputs: the log states what each call added in the state right after it, not at the end. A later call can unset values through `UnDecide(2)`, or append clauses after an earlier one. So the model does not prove that every learned clause is still in force at the end. Each entry also inherits the gap of `AddClauseIfNeededAndStr` above: it is a sub-multiset of the open literals, not exactly them.
- StreamBuffer.StreamBuffer.ParseInt: for `int32_t` it uses the corrected overflow test, which fails when `val*10 + digit` exceeds `INT32_MAX`. The source computes that value with wrap-around and fails only when it is smaller than `val` (streambuffer.h:209-210). The discrepancy is stated under "## Findings" and exhibited by `AsWrittenMissesOverflow` on `AccumulateAsWritten`. `IntType.Unbounded` stands for an instantiation with a wider type: it has no overflow test, so the wrap-around of a 64-bit instantiation is not modelled.
- StreamBuffer.StreamBuffer.ReadDigits: as for `ParseInt`.
- StreamBuffer.ParseIntMeaning: as for `ParseInt`.
- StreamBuffer.Step: as for `ParseInt`.
- `Stats::Print`, the verbose `oclv` logging, prefetching, `SLOW_DEBUG` checks and `exit` on errors are left out: they are output or hints only.
- StreamBuffer: the reader callback is the in-memory `CH::read` over a C string; file readers and gzip streams are not modelled. `parseDouble`'s value is a real number, not a `double`: rounding is not modelled.
- SubsumeImplicit: `std::sort` with `WatchSorterBinTriLong` becomes the parameter `sortBy`, required to return a permutation that groups equal binaries with irredundant ones first.
- SubsumeImplicit: the random start is a parameter. The time limit is a parameter; the original computes it from configuration in floating point.
- SubsumeImplicit.SubsumeImplicit.VisitAll: the loop condition's `solver->must_interrupt_asap()` (subsumeimplicit.cpp:137) is not modelled. It reads a flag set from outside the pass; the model's loop stops only when every list was visited or the budget is spent.
- SubsumeImplicit: CPU time, the FRAT proof output, the `touched` list and SQL statistics are not modelled.
- SubsumeImplicit: `Stats::print`, `print_short`, `get_stats` and `mem_used` are output only.
- SubsumeImplicit.SortCost: the sort's charge `size * ceil(log(size)) + 20` is computed in floating point. So the whole product `size * ceil(log(size))` is the parameter `sizeLog`, and `SortCost` charges `sizeLog + 20`. At the top level `sizeLog` is a function of the list size that the model leaves unconstrained.
- SearchStats: `printCommon`, `print_short` and `print` are output only. `cpu_time`, a `double` added by `+=` and subtracted by `-=` (searchstats.cpp:80 and 137), is not a field of the model, because it is floating point. The counters are modelled as unbounded integers with separate lemmas for 64-bit wrap-around.

## Findings

| source | as written | input that shows it | evidently intended | confidence | as-written member | corrected member |
|---|---|---|---|---|---|---|
| src/streambuffer.h:209-215 | the overflow test of `parseInt<int32_t>` computes `val * 10 + digit` with wrap-around and reports overflow only when the new value is smaller than the old one | "10000000000": ten to the tenth wraps to 1410065408, which exceeds 1000000000, so the input is accepted as 1410065408 | fail whenever the value no longer fits in an `int32_t` | not executed | StreamBuffer.AsWrittenMissesOverflow | StreamBuffer.AccumulateIsDecimal |
