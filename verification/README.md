# Algorithms of the normalising engine and its base library

A model, in Dafny, of the data structures and matchers that this repository is
built on, with proofs that they do what they are for. There are five parts; each
has its own family of files.

**The Aho-Corasick engine** (`Ac*`, for `normalize_engine/ne/acsmx2.c`). Patterns
are upper-cased and put into a keyword trie (`AcBuild`), failure links and merged
match lists are built breadth first, and the transition lists are completed in
place to a deterministic automaton. Each list is then written as a full, sparse,
banded or sparse-band row, or with narrowed states, and a search reads rows.
`AcTheory` says what the automaton is: its states are the prefixes of the
patterns, and it is always in the state of the longest prefix that the text ends
with. `AcRows` proves that every encoding reads back as the list it was made
from, `AcCalls` that the calls of a search are the occurrences that a naive scan
would find, `AcMatchQueue` says which calls a search with a queue makes and in
which order, and `AcEngine` puts the stages together: `AcEngine.Scan` goes from
patterns to calls, in every format.

**The red-black tree** (`Rb*`, for `MBase/base_struct/M_rbtree.c`), with parent
links and without a sentinel, on nodes in the heap. `RbShape` holds trees and
trees with a hole as values; `RbLinks` says when the links of a set of nodes form
such a tree; `RbSteps` and `RbShrink` prove each step of insertion and removal on
values; `RbOrder` is about order; `RbTree` has the procedures.

**The radix tree** (`Rt*`, for `MBase/base_struct/M_radix_tree.c`, and the same
code over elements in the first part of `M_radix_mata.c`). A tree stands for a
set of strings; each operation is proved to change that set as it should, and to
keep the tree compressed. Inside a node the branches are a map from first elements
to children; `RtBranches` proves that this is what the red-black tree of branches
amounts to. `RtFree` is about freeing both levels of the structure with queues made
of parent links; a freed node is not touched again.

**The wildcard matcher** (`Rm*`, for `MBase/base_struct/M_radix_mata.c`). The
radix tree is first rewritten so that each wildcard has a node of its own
(`RmSplit`, `RmTree`). Then all rules are matched against one input at once with
a list of live states. `RmRun` says what the matcher does, for any input, as functions
of the tree, and `RmMatch` has the procedures that do it. `RmItems` says what is to be
found, both as stretches of the input and by substitution; `RmStates`, `RmLoop` and
`RmEnds` prove that single steps keep live states and partial matches in one-to-one
correspondence, and `RmExact` that the whole run does, for an input without the
wildcard. `RmWildcards` shows that this condition cannot be left out. A caller may give
a judge that is asked before a branch is taken; `RmJudge` proves that matching is then
matching in the tree without the refused branches. `RmRules` goes all the way from rules
to matches (`RmRules.MatchAll`).

**Lists, queue, exchanger and locks** (`Ls*`, `Cc*`, for `M_list.c`,
`M_lqueue.c`, `M_data_exchanger.c` and `M_atomic.c`). Reversal in place, and the
queue as one thread sees it, are procedures on heap nodes. What any number of
threads do at once is a state machine whose steps are the single reads, writes,
and compare-and-exchange operations of the code; the claims hold after every
step of every interleaving. The semaphore and the reader-writer lock are treated
in the same way.

Results worth knowing before changing the code, each with the member that states it:

- The `nocase` flag of a pattern is stored and never read. Pattern and text always
  go through `xlatcase`, so matching is always in upper case
  (`AcCalls.OccursInUpperCase`).
- A complete banded search hands back the state of its caller, so a stream cannot be
  continued with it (`AcEngine.Acsm.SearchBanded`).
- A state copies the list of its failure state in the opposite order, in front of its
  own entries. The entry that the sparse, banded and queued formats name is therefore
  never one of its own when the failure state has any (`AcBuild.Builder.BuildNfa`).
- The queued search answers 0 when it is stopped in its last flush
  (`AcEngine.Acsm.SearchFullQ`).
- The full search looks at the state before a byte, so continuing a stream repeats
  the matches that end at the boundary: exactly those
  (`AcEngine.Acsm.SearchInPieces`).
- The test that would drop the wildcard above a finished label never succeeds, as long
  as the input has no wildcard (`RmLoop.NeverDropped`).
- An input of the wildcard matcher should not contain the wildcard. All prepared trees
  get right answers for an input exactly when it does not
  (`RmWildcards.RightWithoutWildcard`): a state that takes the branch for the wildcard
  stands at the wildcard node without having entered it, so a match may get lost
  (`RmWildcards.LostMatch`) or come out twice (`RmWildcards.DoubleMatch`).
- A removal from the queue may answer null while an insertion that is complete has its
  node in the queue, exactly when another producer is between its exchange and its
  count (`CcQueue.NullIsRight`, `CcQueue.NullWhileWaiting`).
- `lqueue_remove` and `lqueue_remove_list_bycount` must not be mixed while producers are
  at work. By count, nodes are counted off after they have been given away, perhaps
  before they have been counted, so the count may be negative; a removal one by one
  takes that for a node (`CcQueue.CountMayMislead`, `CcQueue.MixedIsStuck`).
- `lqueue_remove_list_bycount` takes one node even when it is asked for none or
  fewer, and never goes beyond the older of the two lists
  (`LsQueue.Queue.RemoveListByCount`).
- `lqueue_remove_list` adjusts the count only for nodes that change over, so the
  count is right afterwards exactly when the older list was empty before
  (`LsQueue.Queue.RemoveList`).

Observations about the code, made while reading it; no member states them:

- The parameter `nocase` is documented as choosing
  (`normalize_engine/ne/acsmx2.c:1684-1727`).
- `acsmSelectFSA2` sets the kind and then falls through to `return -1`
  (`normalize_engine/ne/acsmx2.c:1612-1623`).
- The entry of a pattern without bytes is copied to the states that fail to state 0,
  but not to those one byte deep (`normalize_engine/ne/acsmx2.c:885-948`).
- `rm_matafy` follows the root without a test, so it must not be called before the first
  rule (`MBase/base_struct/M_radix_mata.c:632-644`). It also relies on `wc_node` being
  null in all nodes, which the model requires. `rm_insert_rule` takes the node that may
  split a label from `mem_alloc` as it is, and the insertion clears only the part that is
  an `M_rt_stub`, so a split node may start with an arbitrary `wc_node`
  (`MBase/base_struct/M_radix_mata.c:759-785`).
- `cmp_key_rmt_4` and `cmp_key_rmt_8` answer the difference of two elements, which is
  their order only while it does not overflow
  (`MBase/base_struct/M_radix_mata.c:48-55`).
- `atomic_trywrlock` compares the other way round than its siblings
  (`MBase/base_struct/M_atomic.c:284`) and is not among the steps of the lock.

What stands for the environment: the callback `Match` is an arbitrary function of
the calls made so far; the judge of the wildcard matcher is an arbitrary function of
two nodes; the case table is an arbitrary map from bytes to bytes;
keys of the binary trees are integers; elements of the radix tree are integers,
whatever their width. Every method has the nodes it works on as a ghost
parameter or field, and its contract gives all fields of those nodes afterwards.

## Model

| member | source | states |
|---|---|---|
| `AcEngine.Acsm.Search` | normalize_engine/ne/acsmx2.c:2795-2835 | in every format the calls are the call sequence of that format, cut at the first positive answer, with the value returned and the state handed back (a complete banded search hands back the caller's state). A search that is stopped hands back the state of the position where its last call was made; in the queued format, of the position where the batch of 32 with that call is complete, or of the end of the text. The formats that report heads make one call for each position whose state has a list, for the first entry of that list, in the order of the positions, up to where they are stopped; the queued one names the first entries of the lists of the queued states, in their order. After `acsmCompile2`, from state 0 and never stopped: the full format reports, as a multiset, exactly the occurrences of a naive scan of the upper-cased text; the sparse formats and the banded one report, at every end position in their order, one entry that occurs there whenever one does, and nothing else; the queued format reports only entries that occur, and one for every position where something ends |
| `AcEngine.Scan` | normalize_engine/ne/acsmx2.c:1693-2085 | patterns in, calls out: a new engine in any format, all patterns added and compiled, searches any text; when it is not stopped, its calls are those occurrences of the patterns that its format promises |
| `AcCalls.FullCallsAreOccurrences` | normalize_engine/ne/acsmx2.c:2578-2646 | for any automaton whose step is the longest-suffix step and whose lists hold all entries that end there, the calls of the full search are the occurrences of the patterns, with multiplicity |
| `AcCalls.OccursInUpperCase` | normalize_engine/ne/acsmx2.c:1693-1727 | an occurrence is one in terms of the pattern as given: window and pattern agree once both are upper-cased, whatever `nocase` says |
| `AcCalls.HeadIsOccurrence` | normalize_engine/ne/acsmx2.c:2314-2363 | a search that reports list heads reports, at each position, one entry that occurs there if any does, and nothing otherwise |
| `AcCalls.SparseHeads` | normalize_engine/ne/acsmx2.c:2314-2363 | the calls of the sparse search, position by position from 1: one entry that ends there whenever one does, and nothing else |
| `AcCalls.BandedHeads` | normalize_engine/ne/acsmx2.c:2661-2727 | the same for the banded search, with position 0 as well |
| `AcCalls.CompleteIsAll` | normalize_engine/ne/acsmx2.c:2578-2646 | a search that is never stopped makes all calls of its format |
| `AcCalls.SparseSearchInPieces` | normalize_engine/ne/acsmx2.c:2314-2363 | streaming: sparse search of A, then of B with the carried state, makes the calls of the search of A++B, indices shifted by the length of A |
| `AcCalls.FullSearchInPieces` | normalize_engine/ne/acsmx2.c:2578-2646 | streaming: the full search of B repeats exactly the matches that end at the boundary, and apart from those the two searches make the calls of the search of A++B |
| `AcCalls.SparseGoesOn` | normalize_engine/ne/acsmx2.c:2314-2363 | from whatever position it is gone on with, the sparse search makes the calls that are still missing |
| `AcCalls.FullGoesOn` | normalize_engine/ne/acsmx2.c:2578-2646 | the same for the full search, which begins with the calls of that position |
| `AcCalls.BandedGoesOn` | normalize_engine/ne/acsmx2.c:2661-2727 | the same for the banded search, which begins with the call of that position, if there is one |
| `AcCalls.SparseNames` | normalize_engine/ne/acsmx2.c:2314-2363 | after any number of bytes, the sparse search has made one call for each position from 1 on whose state has a list, for the first entry, in order |
| `AcCalls.BandedNames` | normalize_engine/ne/acsmx2.c:2661-2727 | the same for the banded search, with position 0 |
| `AcCalls.StoppingCall` | normalize_engine/ne/acsmx2.c:2578-2646 | the call that stops a search is one of the position where the search ends |
| `AcCalls.StoppedByLast` | normalize_engine/ne/acsmx2.c:2578-2646 | a search has been stopped if and only if its last call was answered positively |
| `AcEngine.Acsm.SearchInPieces` | normalize_engine/ne/acsmx2.c:2795-2835 | streaming, with two calls of the search: the second goes on from the state that the first has handed back. When the first has been stopped, the second goes on from the position of the call that stopped it. If the second is not stopped, the calls are those of one search of A++B, and the state is that of A++B: in the sparse formats nothing is lost or repeated; in the full and the banded one exactly the calls of the position where the second begins are repeated, of which a stopped first search has made some. The banded format hands back no state of its own unless it is stopped. The queued format does not tell its caller where it has been stopped; when it is not, an entry is called for on A++B if and only if it is on one of the pieces |
| `AcCalls.CutIsUnique` | normalize_engine/ne/acsmx2.c:2578-2646 | the contract of a search leaves one sequence of calls only, for every callback |
| `AcTheory.LongestStep` | normalize_engine/ne/acsmx2.c:960-1010 | one more byte needs only the longest path suffix of what came before |
| `AcTheory.LongestByFailure` | normalize_engine/ne/acsmx2.c:915-929 | when no edge continues a state, the search goes on one failure link down |
| `AcTheory.KeywordSuffix` | normalize_engine/ne/acsmx2.c:931-945 | a trie path ends a text exactly when it ends the state the text leads to |
| `AcTheory.DeltaByFailure` | normalize_engine/ne/acsmx2.c:993-1000 | a missing transition has the value of the same transition of the failure state |
| `AcTheory.FailureOfChild` | normalize_engine/ne/acsmx2.c:911-929 | the failure link of a child is a transition of the failure link of its parent |
| `AcTheory.RunIsLongest` | normalize_engine/ne/acsmx2.c:2578-2646 | from state 0 the automaton is always in the state of the longest trie path that the text read so far ends with |
| `AcTheory.RunSplit` | normalize_engine/ne/acsmx2.c:2336-2362 | reading A++B is reading A and then B from the state reached |
| `AcTable.PutUpdates` | normalize_engine/ne/acsmx2.c:582-618 | overwriting an entry of a list without double keys changes the next state for that byte only |
| `AcTable.PutPrepends` | normalize_engine/ne/acsmx2.c:582-618 | a new entry at the front changes the next state for its byte only |
| `AcTable.TrieGrows` | normalize_engine/ne/acsmx2.c:857-864 | hanging a new state below an old one keeps the lists a trie: one state per path, one edge per one-byte extension |
| `AcTable.RootRowIsFinished` | normalize_engine/ne/acsmx2.c:969-977 | the list of state 0 needs no completion |
| `AcPatterns.EndingByFailure` | normalize_engine/ne/acsmx2.c:931-945 | the entries that end at a state are its own and those that end at its failure state, as a multiset |
| `AcPatterns.EndingByState` | normalize_engine/ne/acsmx2.c:931-945 | the entries that end a text are those that end the path of its state |
| `AcPatterns.OwnSnoc` | normalize_engine/ne/acsmx2.c:808-823 | an entry put into the trie later comes before the other entries of its state |
| `AcPatterns.MatchesEnd` | normalize_engine/ne/acsmx2.c:931-945 | the list that results when the entries of the failure state are put in front, the last one first, has every entry that ends at the state, as often as it was given |
| `AcBreadthFirst.BfsChild` | normalize_engine/ne/acsmx2.c:911-914 | a child found while a dequeued state is scanned has never been queued before, and breadth-first order goes on |
| `AcBreadthFirst.ShallowSeen` | normalize_engine/ne/acsmx2.c:900-948 | every state no deeper than the one just dequeued is queued or done, every shallower one is done |
| `AcBreadthFirst.BfsComplete` | normalize_engine/ne/acsmx2.c:900-948 | once the queue is empty, every state has been dequeued |
| `AcBuild.Queue.Find` | normalize_engine/ne/acsmx2.c:446-456 | tells whether the state is queued |
| `AcBuild.Queue.Add` | normalize_engine/ne/acsmx2.c:462-486 | appends a state that is not queued, and ignores one that is |
| `AcBuild.Queue.Remove` | normalize_engine/ne/acsmx2.c:493-512 | takes the first state off, or answers 0 for an empty queue |
| `AcBuild.Builder.GetNextState` | normalize_engine/ne/acsmx2.c:541-557 | the next state of the list; without one, 0 for state 0 and the failure value otherwise |
| `AcBuild.Builder.GetNextStateOrRoot` | normalize_engine/ne/acsmx2.c:563-577 | the next state of the list, 0 without one |
| `AcBuild.Builder.PutNextState` | normalize_engine/ne/acsmx2.c:582-618 | sets one transition and no other, in one list and no other, and counts new entries |
| `AcBuild.Builder.MatchExisting` | normalize_engine/ne/acsmx2.c:842-852 | walks to the state of the longest prefix of the pattern that has one |
| `AcBuild.Builder.AddPatternStates` | normalize_engine/ne/acsmx2.c:827-869 | the trie gains exactly the prefixes of the pattern, at most one state per byte, and only the list of the state of the whole pattern gains the entry, in front |
| `AcBuild.Builder.AddAllPatterns` | normalize_engine/ne/acsmx2.c:1897-1903 | after all patterns, the table is the trie of their prefixes and each list is the sequence of the entries equal to its path, the one given first in front |
| `AcBuild.Builder.FollowFailures` | normalize_engine/ne/acsmx2.c:915-924 | the inner walk ends, in the transition of the failure state of r |
| `AcBuild.Builder.CopyMatches` | normalize_engine/ne/acsmx2.c:936-945 | the entries of the other list, in the opposite order, come before those that s had, and no other list changes |
| `AcBuild.Builder.NfaByte` | normalize_engine/ne/acsmx2.c:905-947 | one byte of one state: breadth-first order and the state of links and lists go on by one byte |
| `AcBuild.Builder.BuildNfa` | normalize_engine/ne/acsmx2.c:876-954 | every failure link leads to the state of the longest proper suffix that is a path, and on the finished tables the list of every state but the first is the list of its failure state, turned round, followed by the entries equal to its path, the one given first in front; the walks end |
| `AcBuild.ShallowIsFinished` | normalize_engine/ne/acsmx2.c:936-945 | the list copied from a failure state is already final, because the order is breadth-first |
| `AcBuild.LinkedByCopy` | normalize_engine/ne/acsmx2.c:926-945 | copying the list of the failure state makes a list final: it has all entries that are suffixes of the path, in the order in which they are copied |
| `AcBuild.NfaListsEnd` | normalize_engine/ne/acsmx2.c:876-954 | the lists after all walks: as multisets, all entries that are suffixes of the path; as sequences, each is the list of the longest proper suffix that is a path, turned round, and then its own entries |
| `AcBuild.Builder.FailureRowIsFinished` | normalize_engine/ne/acsmx2.c:987-1000 | while row r is completed in place, the row of its failure state already answers every byte, and is another row |
| `AcBuild.Builder.DfaByte` | normalize_engine/ne/acsmx2.c:985-1002 | one byte of one row: rows below stay finished, the byte becomes right, and children are queued once |
| `AcBuild.Builder.CompleteByte` | normalize_engine/ne/acsmx2.c:993-1000 | the else branch: one transition is set to that of the failure state, unless it is 0 |
| `AcBuild.Builder.ConvertNfaToDfa` | normalize_engine/ne/acsmx2.c:960-1010 | every (state, byte) lookup gives the state of the longest suffix of path·byte in the trie, no entry leads to 0, and the loop ends with every state dequeued once |
| `AcBuild.Builder.BuildAutomaton` | normalize_engine/ne/acsmx2.c:1897-1985 | trie, failure links and completion together: a finished automaton over the prefixes of the patterns, with every match list complete and in its order |
| `AcRows.GetNextStateDFA` | normalize_engine/ne/acsmx2.c:2230-2305 | the reader gives the next state that the row stands for, in all five layouts, with the 32-bit bound of the banded layout |
| `AcRows.SparseReads` | normalize_engine/ne/acsmx2.c:2256-2275 | the early exit of the sparse reader is sound because the bytes ascend |
| `AcRows.BandsRead` | normalize_engine/ne/acsmx2.c:2279-2301 | skipping a whole band at a time is sound because the bands are apart and ascend |
| `AcRows.FlagKeepsReading` | normalize_engine/ne/acsmx2.c:1766-1796 | the match flag in a row does not change what the row says |
| `AcRows.ConvToFull` | normalize_engine/ne/acsmx2.c:726-760 | spreads a list over a cleared vector, each state cut down to the width of an entry, and counts the entries |
| `AcRows.EncodeFull` | normalize_engine/ne/acsmx2.c:1018-1056 | a full row stands for the vector |
| `AcRows.EncodeSparse` | normalize_engine/ne/acsmx2.c:1087-1144 | a sparse row stands for the vector; row 0 and rows with too many transitions stay full |
| `AcRows.EncodeBanded` | normalize_engine/ne/acsmx2.c:1156-1205 | a banded row stands for the vector, also when it is empty (count 0, first index −1), and has no more at either end than it needs |
| `AcRows.BandEnd` | normalize_engine/ne/acsmx2.c:1222-1253 | a band ends at a transition, after which more than zmax transitions are missing or the row ends; inside it no more than zmax are missing in a row |
| `AcRows.CalcSparseBands` | normalize_engine/ne/acsmx2.c:1222-1253 | the bands are disjoint and ascending, begin and end with a transition, are more than zmax apart, have no gap of more than zmax inside, and leave no transition out |
| `AcRows.EncodeSparseBands` | normalize_engine/ne/acsmx2.c:1273-1329 | a row of bands stands for the vector, and is made of the bands that are computed, one after the other |
| `AcMatchQueue.MatchQueue.Add` | normalize_engine/ne/acsmx2.c:2391-2421 | adds a list that is not queued unless the queue is full, and tells whether it has become full |
| `AcMatchQueue.MatchQueue.Process` | normalize_engine/ne/acsmx2.c:2426-2453 | reports the queued lists in order until one is answered positively, and empties the queue |
| `AcMatchQueue.ProgressFlush` | normalize_engine/ne/acsmx2.c:2473-2481 | a state that fills the queue has the whole batch reported in order, after which the queue starts again, or the search is stopped in the middle of it |
| `AcMatchQueue.QueuedFacts` | normalize_engine/ne/acsmx2.c:2391-2481 | after any part of the text the queue is not full, holds no state twice, and together with what was reported has exactly the states with a list that were gone through |
| `AcMatchQueue.OrderGrows` | normalize_engine/ne/acsmx2.c:2391-2481 | what has been queued keeps its order for good |
| `AcMatchQueue.OrderStep` | normalize_engine/ne/acsmx2.c:2391-2481 | the state of a position is queued when it has a list and is not among those queued since the last batch of 32 was complete |
| `AcMatchQueue.BatchesAreDistinct` | normalize_engine/ne/acsmx2.c:2391-2481 | the 32 states of a batch are different from each other |
| `AcMatchQueue.QueueCallIs` | normalize_engine/ne/acsmx2.c:2487-2543 | from any state, an entry is called for if and only if it heads the list of a state that the text goes through |
| `AcMatchQueue.QueueSearchInPieces` | normalize_engine/ne/acsmx2.c:2487-2543 | streaming: what is called for on A++B is what is called for on A or, with the carried state, on B |
| `AcMatchQueue.QueueCallsOccur` | normalize_engine/ne/acsmx2.c:2487-2543 | every entry reported by the queued search occurs in the text, and for each position where an entry ends, one that ends there is reported |
| `AcEngine.Acsm.constructor` | normalize_engine/ne/acsmx2.c:1650-1678 | starts without patterns, in the full format |
| `AcEngine.Acsm.SelectFormat` | normalize_engine/ne/acsmx2.c:1578-1594 | sets a known format, and answers −1 without a change for an unknown one |
| `AcEngine.Acsm.AddPattern` | normalize_engine/ne/acsmx2.c:1693-1727 | puts the entry, upper-cased, in front of the list |
| `AcEngine.Acsm.Compile` | normalize_engine/ne/acsmx2.c:1852-2085 | afterwards the rows in the chosen format are the longest-suffix automaton of the patterns, the flags tell which lists are not empty, and the lists are complete and in the order in which they are copied; states are narrowed only on demand, to one byte below 255 of them and to two below 65535 |
| `AcEngine.StateSize` | normalize_engine/ne/acsmx2.c:1908-1929 | one byte below 255 states, two below 65535, and four otherwise or when nothing is narrowed; the width selected holds every state number |
| `AcEngine.ConvertRow` | normalize_engine/ne/acsmx2.c:1994-2054 | in each format, the row reads as its transition list |
| `AcEngine.UpdateMatchStates` | normalize_engine/ne/acsmx2.c:1766-1796 | the flag of each row says whether its list is empty, and the rows read as before |
| `AcEngine.Acsm.SearchFull` | normalize_engine/ne/acsmx2.c:2578-2646 | reports the lists before each byte and after the last one, each in order, stopping at the first positive answer; tells how many calls it made and which state it has reached, also when it is stopped |
| `AcEngine.Acsm.SearchSparse` | normalize_engine/ne/acsmx2.c:2314-2363 | one call for each position from 1 on whose state has a list, naming the first entry of that list, up to the first positive answer; the state is that of the text, or of the position of the last call |
| `AcEngine.Acsm.SearchBanded` | normalize_engine/ne/acsmx2.c:2661-2727 | one call for each position from 0 on whose state has a list, naming the first entry of that list, up to the first positive answer; on normal exit the state of the caller stays as it was, and otherwise it is that of the position of the last call |
| `AcEngine.Acsm.SearchFullQ` | normalize_engine/ne/acsmx2.c:2487-2543 | each call names the first entry of the list of the queued state it stands for; the calls are exactly those of the queue specification, in their order and with their repetitions between batches, cut at the first positive answer; 1 is returned exactly when that comes before the last flush, and the state is that of the byte before which it came |
| `AcEngine.ConvertCase` | normalize_engine/ne/acsmx2.c:224-253 | maps every byte by the case table |
| `RbTree.Tree.RemoveNode` | MBase/base_struct/M_rbtree.c:489-629 | the tree stays ordered, red-black and rightly linked, its sequence loses exactly x, and the root link ends at the true root although it is set early to a node outside the tree; the loop ends |
| `RbTree.Tree.InsertNode` | MBase/base_struct/M_rbtree.c:439-487 | the tree stays ordered, red-black and rightly linked, with a black root, and its sequence gains exactly x, after equal keys |
| `RbTree.Tree.InsearchNode` | MBase/base_struct/M_rbtree.c:641-693 | inserts exactly when the key is absent, and otherwise changes nothing |
| `RbTree.Tree.Remove` | MBase/base_struct/M_rbtree.c:631-639 | takes out one node with the key, or answers null exactly when there is none |
| `RbTree.Tree.ReplaceNode` | MBase/base_struct/M_rbtree.c:695-699 | a node with the same key takes over every link and the colour of another: the tree stays ordered, red-black and rightly linked, and its sequence has the new node in the old position |
| `RbTree.Tree.BstReplaceNode` | MBase/base_struct/M_rbtree.c:324-345 | the links afterwards are those of a transplant, although they are written in another order |
| `RbOrder.InsteadIsSorted` | MBase/base_struct/M_rbtree.c:324-345 | a node with the same key in the position of another keeps the sequence sorted |
| `RbTree.Tree.Search` | MBase/base_struct/M_rbtree.c:115-127 | in any binary search tree, whatever its colours: finds a node with the key, or answers null exactly when there is none |
| `RbTree.Tree.Successor` | MBase/base_struct/M_rbtree.c:15-30 | in any linked binary tree: answers the next node in order, null for the last |
| `RbTree.Tree.SuccessorAt` | MBase/base_struct/M_rbtree.c:15-30 | the walk down or up ends at the next node in order, and at the leftmost node of the right subtree if there is one |
| `RbTree.Tree.Travel` | MBase/base_struct/M_rbtree.c:347-374 | in any linked binary tree: visits every node once in preorder, without a stack, and ends |
| `RbTree.Tree.NextInPreorder` | MBase/base_struct/M_rbtree.c:352-372 | one step of the walk goes to the next node in preorder |
| `RbTree.Tree.CountUpToTwo` | MBase/base_struct/M_rbtree.c:389-419 | in any linked binary tree: answers the number of nodes, but no more than two |
| `RbTree.Tree.WaysAreShort` | MBase/base_struct/M_rbtree.c:439-629 | the height of any tree that the operations keep is at most 2·log2(n+1) |
| `RbShape.HeightIsLogarithmic` | MBase/base_struct/M_rbtree.c:439-629 | the same for any coloured tree without red below red and with equal black heights |
| `RbTree.Tree.LeftRotate` | MBase/base_struct/M_rbtree.c:48-72 | rewrites exactly the links of a left rotation, and the root link when needed; without a right child nothing happens |
| `RbTree.Tree.RightRotate` | MBase/base_struct/M_rbtree.c:74-98 | the mirror image |
| `RbLinks.RotateLeftKeeps` | MBase/base_struct/M_rbtree.c:48-72 | in any place of a tree, the links after a left rotation are those of the rotated shape |
| `RbLinks.RotateRightKeeps` | MBase/base_struct/M_rbtree.c:74-98 | the mirror image |
| `RbTree.Tree.BstInsertNode` | MBase/base_struct/M_rbtree.c:182-205 | links a leaf where the order wants it |
| `RbTree.Tree.BstInsearchNode` | MBase/base_struct/M_rbtree.c:207-236 | links a leaf when the key is absent, and finds that out |
| `RbTree.Tree.InsertFixup` | MBase/base_struct/M_rbtree.c:445-486 | from any red leaf in a red-black tree, the loop ends in a red-black tree with the same sequence; also on the early return after a rotation the root is black |
| `RbTree.Tree.Recolor` | MBase/base_struct/M_rbtree.c:451-458 | recolouring moves the red-red conflict two levels up, and nothing else is wrong |
| `RbTree.Tree.EndLeft` | MBase/base_struct/M_rbtree.c:459-471 | the branch for a left parent ends with a red-black tree in the same order |
| `RbTree.Tree.EndRight` | MBase/base_struct/M_rbtree.c:472-484 | the mirror image |
| `RbOrder.InsertsInOrder` | MBase/base_struct/M_rbtree.c:182-205 | a leaf in a place that splits its key gives the sequence with the node inserted |
| `RbOrder.InsertedIsSorted` | MBase/base_struct/M_rbtree.c:182-205 | insertion keeps the sequence sorted and adds one node |
| `RbOrder.WithoutIsSorted` | MBase/base_struct/M_rbtree.c:489-629 | removal keeps the sequence sorted and takes one node |
| `RbOrder.KeyIsAbsent` | MBase/base_struct/M_rbtree.c:115-127 | an empty place between smaller and larger keys proves that the key is absent |
| `RbOrder.NextFound` | MBase/base_struct/M_rbtree.c:15-30 | when what comes before a node ends with x, it is the successor of x |
| `RbOrder.PreOrderIsComplete` | MBase/base_struct/M_rbtree.c:347-374 | preorder visits each node as often as the order of keys does, which is once |
| `RbTree.Tree.RemoveFixup` | MBase/base_struct/M_rbtree.c:529-606 | from a place that is one black node short, with c possibly null and the root link possibly at a node outside the tree, the loop ends in a red-black tree with the same sequence |
| `RbTree.Tree.StepLeft` | MBase/base_struct/M_rbtree.c:531-567 | one round for a left child ends the repair, or leaves less to do |
| `RbTree.Tree.StepRight` | MBase/base_struct/M_rbtree.c:568-604 | the mirror image |
| `RbShrink.SpliceRb` | MBase/base_struct/M_rbtree.c:499-525 | bypassing a red node harms nothing, a red child can be painted black instead, and otherwise exactly one black node is missing in that place |
| `RbShrink.SpliceKeeps` | MBase/base_struct/M_rbtree.c:502-511 | after the bypass the links are those of the tree without y |
| `RbShrink.SpliceOrder` | MBase/base_struct/M_rbtree.c:502-511 | the bypass takes y out of the sequence, and nothing else |
| `RbShrink.RedLeftShort` | MBase/base_struct/M_rbtree.c:533-541 | a red sibling is rotated away: the place is still short, now with a black sibling |
| `RbShrink.RaiseLeftShort` | MBase/base_struct/M_rbtree.c:542-548 | painting a black sibling red moves the shortage one level up |
| `RbShrink.NearLeftShort` | MBase/base_struct/M_rbtree.c:551-557 | a red near nephew is turned into a red far one |
| `RbShrink.FarLeftRb` | MBase/base_struct/M_rbtree.c:558-565 | with a red far nephew one rotation ends the repair |
| `RbShrink.FarRightRb` | MBase/base_struct/M_rbtree.c:595-602 | the mirror image |
| `RbShrink.RepairEnds` | MBase/base_struct/M_rbtree.c:529-606 | at the top, or at a red node, painting it black completes the repair |
| `RbShrink.RootIsBlack` | MBase/base_struct/M_rbtree.c:606 | painting what the root link names is harmless, even when that node is not in the tree yet |
| `RbShrink.RootAfterSplice` | MBase/base_struct/M_rbtree.c:513-517 | what the root link holds after the bypass, in all cases |
| `RbShrink.LateRoot` | MBase/base_struct/M_rbtree.c:513-628 | after the transplant, the early root is the root |
| `RbShrink.TransplantKeeps` | MBase/base_struct/M_rbtree.c:609-628 | with the links of x taken over, y stands where x stood |
| `RbShrink.ChosenOrder` | MBase/base_struct/M_rbtree.c:495-628 | bypass and transplant together remove x from the sequence, and nothing else |
| `RtTree.Tree.InsertNode` | MBase/base_struct/M_radix_tree.c:237-324 | the set of keys gains the key of the new node; an existing valid node is answered without any change, exactly when the key was there; the dummy is used up exactly when it has become a split node, and what is handed out is the split node that stood for the key, whose place the new one has taken; the tree stays compressed |
| `RtTree.Tree.RemoveNode` | MBase/base_struct/M_radix_tree.c:334-384 | the set of keys loses exactly that of the node; the dummy is used up exactly when the node had two or more branches, and a split node is handed out exactly when a leaf leaves a split parent with one branch; split nodes keep two or more branches |
| `RtTree.Tree.Remove` | MBase/base_struct/M_radix_tree.c:326-332 | the set of keys loses the key; a node is handed out whenever one stands for the key, valid or not, and null exactly when none does; what becomes of the dummy and of a split parent is as for `RemoveNode` |
| `RtTree.Tree.Search` | MBase/base_struct/M_radix_tree.c:178-236 | exact mode answers a node whose path is the key, and that node is valid exactly when the key is in the set |
| `RtTree.Tree.Descend` | MBase/base_struct/M_radix_tree.c:253-293 | the descent ends at the one node where the key ends, or leaves the tree |
| `RtTree.MatchLabel` | MBase/base_struct/M_radix_tree.c:44-59 | how far a label and the rest of the key agree, and no further |
| `RtTree.DeadEnd` | MBase/base_struct/M_radix_tree.c:178-236 | without a branch, or with a label that goes another way, no node stands for the key |
| `RtTree.Tree.AddNode` | MBase/base_struct/M_radix_tree.c:107-115 | links a child below a node, and changes nothing else |
| `RtTree.Tree.CutAndAdd` | MBase/base_struct/M_radix_tree.c:122-143 | puts a node above another, cutting its label, and changes nothing else |
| `RtTree.Tree.ReplaceNode` | MBase/base_struct/M_radix_tree.c:152-167 | puts a node in the place of another, and changes nothing else |
| `RtTree.Tree.InsertHere` | MBase/base_struct/M_radix_tree.c:277-286 | a key that ends at a split node: the new node takes its place, and the split node is handed out |
| `RtTree.Tree.InsertChild` | MBase/base_struct/M_radix_tree.c:296-300 | a key that goes on where no branch does: a further child |
| `RtTree.Tree.InsertAbove` | MBase/base_struct/M_radix_tree.c:303-307 | a key that ends inside a label: a new parent |
| `RtTree.Tree.InsertBeside` | MBase/base_struct/M_radix_tree.c:308-320 | a key that leaves a label: the dummy splits it and gets two children |
| `RtTree.Tree.RemoveLeaf` | MBase/base_struct/M_radix_tree.c:341-356 | a leaf goes, and its parent with it exactly when that is a split node with two branches |
| `RtTree.Tree.RemoveLast` | MBase/base_struct/M_radix_tree.c:357-358 | the only node goes |
| `RtTree.Tree.RemoveBetween` | MBase/base_struct/M_radix_tree.c:362-367 | a node with one branch is merged into it |
| `RtTree.Tree.RemoveSplitting` | MBase/base_struct/M_radix_tree.c:368-379 | a node with more branches is replaced by the dummy |
| `RtTree.Tree.SplitsAreFew` | MBase/base_struct/M_radix_tree.c:237-324 | split nodes are always fewer than valid nodes, and valid nodes are as many as keys |
| `RtLinks.Divide` | MBase/base_struct/M_radix_tree.c:178-236 | different nodes have different paths, and a longer path is found below, in the branch of its next element |
| `RtSets.ReplaceAll` | MBase/base_struct/M_radix_tree.c:152-167 | replacing a node by one of the other kind adds or removes its key, and keeps the tree |
| `RtSets.SplitAll` | MBase/base_struct/M_radix_tree.c:122-143 | a node put above another keeps the tree, and adds its own path when it is valid |
| `RtSets.AddSets` | MBase/base_struct/M_radix_tree.c:107-115 | a new child adds its path, and keeps the tree compressed |
| `RtSets.DropAll` | MBase/base_struct/M_radix_tree.c:343-347 | a leaf taken away removes its path, and at most its parent is no longer full |
| `RtSets.MergeAll` | MBase/base_struct/M_radix_tree.c:350-366 | merging a node with its only child keeps all other paths and the tree compressed |
| `RtSets.FewSplits` | MBase/base_struct/M_radix_tree.c:237-324 | counting branches: with two at every split node there are fewer of those than ends |
| `RtBranches.Branches.Find` | MBase/base_struct/M_radix_tree.c:64-69 | the tree of branches inside a radix node answers what the map from first elements to children says |
| `RtBranches.Branches.Add` | MBase/base_struct/M_radix_tree.c:107-115 | inserting a stub adds one entry to the map |
| `RtBranches.Branches.Drop` | MBase/base_struct/M_radix_tree.c:122-143 | removing a stub takes one entry from the map |
| `RtBranches.Branches.Replace` | MBase/base_struct/M_radix_tree.c:152-157 | replacing a stub gives its entry another child |
| `RtBranches.Branches.Count` | MBase/base_struct/M_rbtree.c:389-419 | the count that stops at two tells whether the map has none, one or more entries |
| `RtBranches.Branches.Visit` | MBase/base_struct/M_radix_tree.c:83-92 | the walk over the branches meets every entry of the map once |
| `RtFree.RtFreeAll` | MBase/base_struct/M_radix_tree.c:397-438 | every node of the two-level structure is freed exactly once, and is neither read nor written after that, while the parent links of both levels are overwritten to hold the queues; both loops end |
| `RtFree.QueueTree` | MBase/base_struct/M_radix_tree.c:413-427 | the inner loop puts all branches of a node at the end of the outer queue, each once |
| `RtFree.BstFreeAll` | MBase/base_struct/M_rbtree.c:297-322 | every node of a binary tree is freed exactly once, and is neither read nor written after that, with the parent links as the queue |
| `RtFree.WalkStep` | MBase/base_struct/M_radix_tree.c:397-438 | one node leaves the queue and those that hang from it enter it, each for the first time |
| `RtFree.WalkEnd` | MBase/base_struct/M_radix_tree.c:397-438 | when the queue is empty, every node has been in it |
| `RmTree.Root.Matafy` | MBase/base_struct/M_radix_mata.c:624-664 | the pairs of key and valid node stay the same, every wildcard becomes the only element of its node and is known to its parent; both loops end. The tree is not empty, no key has adjacent wildcards, and no node has a link to a wildcard child yet, which `RtTree.Tree.InsertNode`, `RemoveNode` and `Remove` keep |
| `RmTree.Root.MatafyNode` | MBase/base_struct/M_radix_mata.c:551-614 | all pieces of one label become nodes of their own that are done, and nothing else changes |
| `RmTree.Root.CutMiddle` | MBase/base_struct/M_radix_mata.c:591-613 | the loop over the wildcards inside a label ends with every piece done |
| `RmTree.Root.Settle` | MBase/base_struct/M_radix_mata.c:557-562 | a node whose label is one piece is done, and a wildcard is made known to its parent |
| `RmTree.Root.SplitNode` | MBase/base_struct/M_radix_mata.c:525-544 | the new node takes the front of the label and the place of the old one |
| `RmTree.Root.MatafyNext` | MBase/base_struct/M_radix_mata.c:641-661 | one round of the search takes a node off the queue that has not been done, and more nodes are done |
| `RmSplit.FrontKeeps` | MBase/base_struct/M_radix_mata.c:566-606 | cutting a piece off the front of a label keeps the strings and what has been done |
| `RmSplit.BackKeeps` | MBase/base_struct/M_radix_mata.c:578-589 | cutting the wildcard off the end of a label keeps the strings and what has been done |
| `RmSplit.SettleKeeps` | MBase/base_struct/M_radix_mata.c:557-562 | marking a wildcard child keeps the strings and what has been done |
| `RmSplit.QueueGoesOn` | MBase/base_struct/M_radix_mata.c:641-661 | after a node has been done, the queue again holds every node that waits below done ones, once |
| `RmSplit.QueueEnds` | MBase/base_struct/M_radix_mata.c:641-661 | when the queue is empty, every node is done |
| `RmSplit.PathsApart` | MBase/base_struct/M_radix_mata.c:624-664 | no path has adjacent wildcards when no key has |
| `RmItems.FitsExpands` | MBase/base_struct/M_radix_mata.c:1138-1178 | stretches that fit a rule give the input when they replace the wildcards |
| `RmItems.ExpandFits` | MBase/base_struct/M_radix_mata.c:1138-1178 | conversely, every way to replace the wildcards that gives the input comes from stretches that fit |
| `RmItems.SpansOfWords` | MBase/base_struct/M_radix_mata.c:1138-1178 | stretches and words determine each other |
| `RmItems.OriginOk` | MBase/base_struct/M_radix_mata.c:863-927 | every partial match after an element comes from one partial match before it, by an allowed step |
| `RmItems.StepOk` | MBase/base_struct/M_radix_mata.c:863-927 | every allowed step leads from a partial match to a partial match |
| `RmStates.StepIsSound` | MBase/base_struct/M_radix_mata.c:932-975 | after an element, every live state stands for a partial match |
| `RmStates.StepIsUnique` | MBase/base_struct/M_radix_mata.c:932-975 | after an element, no two live states stand for the same partial match |
| `RmStates.StepIsComplete` | MBase/base_struct/M_radix_mata.c:932-975 | after an element, every partial match has a live state |
| `RmStates.StepIsExact` | MBase/base_struct/M_radix_mata.c:932-975 | the three together: live states and partial matches correspond one to one |
| `RmLoop.NeverDropped` | MBase/base_struct/M_radix_mata.c:890-895 | the wildcard above a live label has a live label below it, so the test that would drop an ancestor never succeeds |
| `RmLoop.SpawnCounts` | MBase/base_struct/M_radix_mata.c:808-819 | entering a label from a wildcard keeps the counts of live labels right |
| `RmLoop.EnterCounts` | MBase/base_struct/M_radix_mata.c:881-887 | entering a wildcard keeps them right |
| `RmLoop.MoveCounts` | MBase/base_struct/M_radix_mata.c:902-920 | going on in a label, or to the next one, keeps them right |
| `RmLoop.RemoveCounts` | MBase/base_struct/M_radix_mata.c:825-839 | removing a label state keeps them right |
| `RmEnds.StartIsExact` | MBase/base_struct/M_radix_mata.c:1019-1078 | after the first element, live states and partial matches correspond one to one |
| `RmEnds.EndIsResult` | MBase/base_struct/M_radix_mata.c:1087-1133 | at the end, the states that are kept and complete matches correspond one to one |
| `RmExact.StateIsKept` | MBase/base_struct/M_radix_mata.c:863-927 | one live state and one element that is not the wildcard: every partial match that comes from the state is now live, and no other |
| `RmExact.EnteringIsKept` | MBase/base_struct/M_radix_mata.c:881-900 | a finished label enters the wildcard below it, and the label after that when it begins with the element; the test of the wildcard above never succeeds |
| `RmExact.BranchIsKept` | MBase/base_struct/M_radix_mata.c:902-913 | a finished label goes on in the branch of the element, or its partial match ends |
| `RmExact.CharIsKept` | MBase/base_struct/M_radix_mata.c:932-975 | one element that is not the wildcard: the live states are exactly the partial matches again, with right counts |
| `RmExact.EndStateIsKept` | MBase/base_struct/M_radix_mata.c:1092-1121 | the end for one state: kept or dropped as it should be, with a further state for a rule that ends with a wildcard matching nothing |
| `RmExact.ClosedIsResult` | MBase/base_struct/M_radix_mata.c:1087-1133 | the end keeps exactly the complete matches |
| `RmExact.ReadBackIs` | MBase/base_struct/M_radix_mata.c:1138-1178 | where wildcards and labels alternate, reading back gives the stretches |
| `RmExact.AnswerIsRight` | MBase/base_struct/M_radix_mata.c:996-1178 | for every prepared tree and every input without the wildcard, the answer is exactly the complete matches, each once |
| `RmRun.ResultsNameRules` | MBase/base_struct/M_radix_mata.c:1087-1178 | for every input, every result names a node where a rule ends |
| `RmWildcards.LostMatch` | MBase/base_struct/M_radix_mata.c:996-1178 | one rule, a label k and a wildcard, and an input that begins with k and the wildcard: the run gives two results, neither of which is a match, and the match there is does not come out |
| `RmWildcards.DoubleMatch` | MBase/base_struct/M_radix_mata.c:1019-1078 | two rules, the wildcard and another element, and an input that begins with the wildcard: the run gives the one match twice |
| `RmWildcards.RightWithoutWildcard` | MBase/base_struct/M_radix_mata.c:996-1178 | the exact condition: for an input that is not empty, every prepared tree gets exactly its complete matches, each once, if and only if the wildcard is not in the input |
| `RmMatch.Handle.IsWildcard` | MBase/base_struct/M_radix_mata.c:488-495 | tells a wildcard node from a label |
| `RmMatch.Handle.ProcessWcChild` | MBase/base_struct/M_radix_mata.c:799-823 | does what `RmRun.AfterChild` says, for any element: the label below a wildcard that begins with it gets a state, unless the judge refuses it |
| `RmMatch.Handle.RemoveState` | MBase/base_struct/M_radix_mata.c:825-839 | does what `RmRun.AfterRemoval` says: the nearest wildcard above loses a label, and the state is listed, unless it is already |
| `RmMatch.Handle.MatchState` | MBase/base_struct/M_radix_mata.c:863-927 | does what `RmRun.AfterState` says, for any element; what that keeps is `RmExact.StateIsKept` |
| `RmMatch.Handle.DropAbove` | MBase/base_struct/M_radix_mata.c:888-895 | does what `RmRun.AfterDrop` says: the wildcard above goes when it has no label left, no rule ends there, and it is not listed yet |
| `RmMatch.Handle.EnterWild` | MBase/base_struct/M_radix_mata.c:881-900 | does what `RmRun.AfterEntering` says: a new state at the wildcard, the test of the wildcard above, and the label below |
| `RmMatch.Handle.GoOn` | MBase/base_struct/M_radix_mata.c:902-913 | does what `RmRun.AfterBranch` says, for any element, even the wildcard |
| `RmMatch.Handle.MatchChar` | MBase/base_struct/M_radix_mata.c:932-975 | does what `RmRun.AfterChar` says: all live states, then the new ones, then the removals |
| `RmMatch.Handle.Begin` | MBase/base_struct/M_radix_mata.c:1019-1078 | makes the states of `RmRun.FirstStates`, for each kind of root and any first element |
| `RmMatch.Handle.Close` | MBase/base_struct/M_radix_mata.c:1087-1133 | does what `RmRun.Closed` says to any list of states |
| `RmMatch.Handle.CloseState` | MBase/base_struct/M_radix_mata.c:1092-1121 | the same for one state |
| `RmMatch.Handle.Match` | MBase/base_struct/M_radix_mata.c:996-1136 | for every input that is not empty, the states at the end are those of the run that `RmRun` defines; an empty tree has none |
| `RmMatch.Handle.ParseState` | MBase/base_struct/M_radix_mata.c:1138-1178 | the chain of parents of any state is read back as `RmRun.ReadBack` says |
| `RmMatch.Handle.ParseResult` | MBase/base_struct/M_radix_mata.c:1138-1178 | one result for each state in the list, the last one first |
| `RmMatch.Handle.FindAll` | MBase/base_struct/M_radix_mata.c:996-1178 | matching and reading back together, on a prepared tree, with any judge and any input that is not empty: the answer is that of the run, and every result names a rule; without the wildcard in the input, they are exactly the complete matches, in the whole tree, of the rules on the way to which the judge, asked about each node that does not begin with the wildcard and its parent, has refused nothing, each once |
| `RmMatch.AnswerIsExact` | MBase/base_struct/M_radix_mata.c:996-1178 | for every rule, and for every way to replace its wildcards that gives the whole input, there is exactly one result |
| `RmMatch.AnswerIsSound` | MBase/base_struct/M_radix_mata.c:996-1178 | every result names a rule, and its stretches replace the wildcards of the rule to give the whole input |
| `RmMatch.OpenRules` | MBase/base_struct/M_radix_mata.c:799-927 | a rule can be found under a judge if and only if he lets pass every node on the way to it that does not begin with the wildcard |
| `RmJudge.OpenIsNet` | MBase/base_struct/M_radix_mata.c:799-823 | what a judge lets be seen of a prepared tree is a prepared tree again |
| `RmJudge.ReachedFrom` | MBase/base_struct/M_radix_mata.c:902-913 | a node can be seen when its parent can and the branch to it is not refused, or leads into a wildcard |
| `RmJudge.AllOpen` | MBase/base_struct/M_radix_mata.c:799-823 | without refusals the whole tree is seen |
| `RmRules.MatchAll` | MBase/base_struct/M_radix_mata.c:624-1178 | rules in, matches out: all rules are inserted, the tree is prepared and matched against any input that is not empty. Each match names the first rule with its string. Without the wildcard in the input, its stretches replace the wildcards of that rule to give the input, every way to do so is found, and no match is reported twice |
| `RmRules.RuleSet.InsertRule` | MBase/base_struct/M_radix_mata.c:759-785 | a rule whose string is there already is refused with −1, and any other one is added; the tree stays ready to be prepared |
| `RmRules.RuleSet.Prepare` | MBase/base_struct/M_radix_mata.c:624-664 | preparation keeps the rules and their nodes |
| `RmRules.RuleSet.FindRules` | MBase/base_struct/M_radix_mata.c:996-1178 | on a prepared set, each match names a rule of the set; without the wildcard in the input, they are all fillings of all rules that give the input, and no others, each once |
| `LsList.ReverseNull` | MBase/base_struct/M_list.c:59-77 | the list that ends with null is turned round in place |
| `LsList.ReverseCount` | MBase/base_struct/M_list.c:94-116 | the same, with the number of its nodes |
| `LsList.Reverse` | MBase/base_struct/M_list.c:79-92 | the list that goes round is turned round in place, from its head back to it |
| `LsList.ReversedAt` | MBase/base_struct/M_list.c:59-116 | the i-th node of the turned list is the i-th from the end |
| `LsList.ChainIsUnique` | MBase/base_struct/M_list.c:59-116 | the links leave one reading of a list only |
| `LsList.ChainIsDistinct` | MBase/base_struct/M_list.c:59-116 | a list that comes to its end meets no node twice |
| `LsQueue.Queue.Insert` | MBase/base_struct/M_lqueue.c:47-61 | the node becomes the youngest, and is counted; it goes into the list of new nodes |
| `LsQueue.Queue.Remove` | MBase/base_struct/M_lqueue.c:62-106 | the oldest node, detached, or null exactly when there is none; the older list loses it, after having been filled up when it was empty |
| `LsQueue.Queue.RemoveList` | MBase/base_struct/M_lqueue.c:108-140 | the whole older list, or everything when that is empty; the count stays right exactly in the second case |
| `LsQueue.Queue.RemoveListByCount` | MBase/base_struct/M_lqueue.c:142-209 | with nobody else at work: the oldest nodes in order, as many as wanted but at least one, and no more than the older list holds; on an empty queue the caller's number stays as it was. With producers at work it is part of `CcQueue` |
| `CcQueue.StepIsSound` | MBase/base_struct/M_lqueue.c:47-106 | as long as the consumer removes one by one, every step of any producer and of the consumer keeps a node for each one that has been counted off, so that a removal never runs out of nodes on the way |
| `CcQueue.StepIsProper` | MBase/base_struct/M_lqueue.c:47-209 | every step of any producer and of the consumer, removing one by one or by count, with any reuse of nodes: both lists stay proper, no node is in two places, what has left and what is there is what has entered, in order, and count + pushed but not counted + counted off but not given = nodes + given but not counted off |
| `CcQueue.SomeGivenLists` | MBase/base_struct/M_lqueue.c:176-194 | a removal by count gives a list that ends, and leaves the rest as a list |
| `CcQueue.ConsumerGoesOn` | MBase/base_struct/M_lqueue.c:62-209 | a removal by count can always go on; one by one, it can exactly when there is a node to give |
| `CcQueue.EndsAtOnce` | MBase/base_struct/M_lqueue.c:62-153 | a removal of either kind ends with null at once if and only if the count is 0 |
| `CcQueue.RemoveAlone` | MBase/base_struct/M_lqueue.c:62-106 | with a count other than 0 and a node in the queue, the steps of a removal one by one, whether the older list is empty or not, give the oldest node, detached, and take it off the count |
| `CcQueue.RemoveSomeAlone` | MBase/base_struct/M_lqueue.c:142-209 | with a count other than 0, the steps of a removal by count give the oldest nodes in order, as many as it gives, and count them off |
| `CcQueue.ProducerGoesOn` | MBase/base_struct/M_lqueue.c:47-61 | an insertion that has begun can always go on |
| `CcQueue.InsertAlone` | MBase/base_struct/M_lqueue.c:47-61 | the steps of one insertion put its node at the end of the queue and count it |
| `CcQueue.CountMayMislead` | MBase/base_struct/M_lqueue.c:62-209 | a count other than zero after removals by count: it may be negative, and there is nothing in the queue exactly when it is minus the number of nodes pushed and not yet counted |
| `CcQueue.MixedIsStuck` | MBase/base_struct/M_lqueue.c:47-209 | a history in which a removal by count leaves the count at −1, and a removal one by one then ends up with a null list where it takes the first node |
| `CcQueue.StepInOrder` | MBase/base_struct/M_lqueue.c:47-209 | a successful exchange appends one node, a removal one by one gives the oldest, a removal by count gives as many of the oldest as it was asked for, at least one and no more than the older list holds, and no other step changes the content; when a removal answers null is said by `CcQueue.NullIsRight` |
| `CcQueue.NullIsRight` | MBase/base_struct/M_lqueue.c:62-153 | where a removal of either kind answers null because the count is 0, as many nodes are in the queue as have been pushed and not yet counted: the queue is empty if and only if no producer is between its exchange and its count |
| `CcQueue.NullWhileWaiting` | MBase/base_struct/M_lqueue.c:47-106 | a history in which a removal answers null although an insertion that is complete has its node in the queue |
| `CcQueue.CountMeansNode` | MBase/base_struct/M_lqueue.c:62-106 | a count other than zero means that there is a node, and a consumer that is ready finds one |
| `CcQueue.RunIsFifo` | MBase/base_struct/M_lqueue.c:47-209 | over every history of any number of producers and one consumer that removes one by one, by count, or both, what has left is a beginning of what has entered, in the same order, and the rest is in the queue; where the count is 0, the rest is exactly as much as has been pushed and not yet counted |
| `CcQueue.TurnedIsChain` | MBase/base_struct/M_list.c:59-77 | on links as a map, turning a list round in place gives the reversed list |
| `CcQueue.TurnedTwice` | MBase/base_struct/M_list.c:59-77 | a list that is turned round in place twice has every link back as it was |
| `CcExchange.StepIsSound` | MBase/base_struct/M_data_exchanger.c:44-115 | every step keeps the exchanger sound: an acyclic list from the head, each node in one place |
| `CcExchange.StepLosesNone` | MBase/base_struct/M_data_exchanger.c:44-115 | no step loses a node |
| `CcExchange.PushMeetsPresent` | MBase/base_struct/M_data_exchanger.c:44-93 | an exchange that succeeds puts its list before what is there now, even if the head has been away and come back |
| `CcExchange.ListBeforeChain` | MBase/base_struct/M_data_exchanger.c:70-93 | a list before a chain is a chain, whatever the chain was when its head was read |
| `CcExchange.RunIsSound` | MBase/base_struct/M_data_exchanger.c:44-115 | over every interleaving, each insertion of a node is handed out by one removal or still waits, and the list from the head is acyclic |
| `CcExchange.GoesOn` | MBase/base_struct/M_data_exchanger.c:44-115 | a thread in the middle of an operation can always take a step |
| `CcExchange.LooksEmpty` | MBase/base_struct/M_data_exchanger.c:95-115 | a removal ends at once if and only if nothing is in the exchanger |
| `CcExchange.TakeAlone` | MBase/base_struct/M_data_exchanger.c:95-115 | otherwise its steps give the thread exactly the nodes that were there, in order, and leave nothing |
| `CcExchange.InsertAlone` | MBase/base_struct/M_data_exchanger.c:44-93 | the steps of an insertion put its list before what was there, whether that was empty or not |
| `CcExchange.InsertAgain` | MBase/base_struct/M_data_exchanger.c:44-93 | the same for an insertion that has lost an exchange and tries again |
| `CcLocks.StepIsSafe` | MBase/base_struct/M_atomic.c:224-316 | every step of every thread keeps: the word is −1 with one writer and no reader, and otherwise counts the readers |
| `CcLocks.RunIsSafe` | MBase/base_struct/M_atomic.c:224-316 | the same over every history, in both directions |
| `CcLocks.RunExcludes` | MBase/base_struct/M_atomic.c:224-316 | no two threads write at once, and none reads while one writes |
| `CcLocks.UnlockSeesHolder` | MBase/base_struct/M_atomic.c:297-316 | a thread that unlocks never reads zero |
| `CcLocks.OneWayOn` | MBase/base_struct/M_atomic.c:224-316 | a thread in the middle of an operation has exactly one step to take |
| `CcLocks.GetsInWhenFree` | MBase/base_struct/M_atomic.c:224-316 | a thread that has read the word as it is gets in to read if and only if nobody writes, and to write if and only if nobody reads or writes; a try gives up exactly when somebody writes |
| `CcLocks.TryReadAlone` | MBase/base_struct/M_atomic.c:259-274 | `atomic_tryrdlock` without interference: it adds a reader when nobody writes, and changes nothing otherwise |
| `CcLocks.ReadAlone` | MBase/base_struct/M_atomic.c:224-241 | `atomic_rdlock` without interference, from wherever it is: it gets in when nobody writes, and goes on looking otherwise |
| `CcLocks.WriteAlone` | MBase/base_struct/M_atomic.c:243-257 | `atomic_wrlock` likewise: it gets in when nobody reads or writes |
| `CcLocks.UnlockAlone` | MBase/base_struct/M_atomic.c:297-316 | `atomic_rwunlock` likewise: the thread holds nothing any more, and the others hold what they held |
| `CcLocks.AllReadAtOnce` | MBase/base_struct/M_atomic.c:224-316 | from a free lock, any number of threads come to read at the same time |
| `CcLocks.SemStepIsSafe` | MBase/base_struct/M_atomic.c:322-347 | every step of any thread, including posts by threads that have not waited, keeps word plus threads inside at the initial count plus such posts |
| `CcLocks.SemGoesOn` | MBase/base_struct/M_atomic.c:322-347 | a thread in the middle of a wait or a post has exactly one step to take; knowing the word, it comes back from the wait if and only if the word is not zero |
| `CcLocks.WaitAlone` | MBase/base_struct/M_atomic.c:322-334 | a wait without interference takes one off a word that is not zero, and goes on looking otherwise |
| `CcLocks.PostAlone` | MBase/base_struct/M_atomic.c:335-347 | a post without interference adds one to the word |
| `CcLocks.SemRunIsSafe` | MBase/base_struct/M_atomic.c:318-347 | the same over every history; nobody may come in exactly when the word is zero, and without posts by threads that have not waited no more are inside than the initial count |

## Left out

- AcEngine.Acsm.Compile: is about the kind DFA, which is the default; it does not model compiling twice, patterns without bytes, or narrowed states outside the full formats, where the readers take the rows as 32-bit entries.
- AcEngine.Acsm.Search: does not model the kind NFA, whose reader takes the header of a banded row for entries and whose failure table the full format frees, nor a null pointer for the state, with which a search answers 0 and reads nothing.
- AcEngine.Acsm.AddPattern: does not model `acsmAddKey2`, which does not upper-case.
- Rule trees and negation lists of the engine (`acsmBuildMatchStateTrees2`), printing, memory accounting and freeing.
- RbTree.Tree.InsertNode: takes a node that is in no tree; the key and colour accessors of the original are fields here.
- RtTree.Tree.InsertNode: has the branches of a node as a map from first elements to children; `RtBranches` proves that the red-black tree of a node keeps such a map, but no node here holds one of them; elements are compared as integers, without the overflow of `cmp_key_rmt_4` and `cmp_key_rmt_8`. That `wcNode` stays null is said under the condition that it was null in the node given and in the dummy as well.
- RtTree.Tree.Search: does not model `RT_MODE_LONGEST` and its variant, which fall back past a fully matched leaf, nor keys given with length 0 for a terminated string.
- RtTree.Tree.RemoveNode: treats labels as values, so it does not model which key buffer a label refers to; refreshing those references (`update_rt_parent`) has no effect here, and the order of refreshes does not matter.
- RtFree.RtFreeAll: models links only, on nodes of its own; it does not model what `free_node` does with a node.
- RmTree.Root.Matafy: requires that the tree is not empty, because the original follows the root without a test, that `wcNode` is null in all nodes, and that no key has adjacent wildcards; it has an order of its own for the children in its queue. One of two equal length tests in the loop over a label is not repeated.
- RmMatch.Handle.Match: is for an input that is not empty, of which the original reads the first element without a test, on a prepared tree. The judge gives the same answer whenever it is asked about the same branch. It does not model the handle's input lists (`rm_convert_inputlist`).
- RmRules.RuleSet.InsertRule: has a spare node whose `wcNode` is null, where the original takes memory as it is; it does not model what becomes of the nodes that are not needed.
- RmRules.MatchAll: has rules that are not empty and have no adjacent wildcards, as the original does, and no judge; `RmMatch.Handle.FindAll` has one. For an input with the wildcard in it, for which `RmWildcards` has the run, it promises only that every match names a rule.
- RmMatch.Handle.ParseResult: identifies a rule with the node where it ends; `rm_parse_total_result` and printing are not part of it.
- LsQueue.Queue.RemoveList: is proved for one thread at a time; together with producers at work, `lqueue_insert`, `lqueue_remove` and `lqueue_remove_list_bycount` are modelled (`CcQueue`).
- CcQueue.StepIsSound: takes turning round the list that the consumer owns as one step, because no other thread can see its nodes, and likewise the walk over it in a removal by count; the loops themselves are in `LsList.ReverseNull` and `LsQueue.Queue.RemoveListByCount`.
- AcEngine.Acsm.SearchInPieces: makes no claim for a queued search that is stopped, because the rest of its batch is dropped and its calls do not tell the position, nor for a second search that is stopped, to which `AcEngine.Acsm.Search` applies.
- CcExchange.RunIsSound: has sequentially consistent memory; weaker orders are not modelled.
- CcLocks.SemRunIsSafe: treats waiting as an attempt that may be repeated; what a call comes to is said for a thread that nobody interferes with (`CcLocks.WaitAlone`, `CcLocks.PostAlone`), and nothing is said about progress when others move.
- CcLocks.RunIsSafe: leaves out `atomic_trywrlock`; what a call comes to is said for a thread that nobody interferes with (`CcLocks.ReadAlone` and the lemmas beside it), and nothing is said about progress or fairness when others move.
- The predecessor search, the searches for a next greater or smaller key, and `bst_remove_node`: the first are mirror images of what is there, and nothing modelled here uses the last.
- Memory pools, allocation failure, hash tables, thread-local storage, and the variants of all lock-free code that use a mutex instead.
- `normalize_engine.c` and its configuration: what is not switched off there is parsing of settings.
