# bash-py: grammar dependency graph and line buffer, in Dafny

This project models two parts of bash-py, a tool that rewrites shell scripts.

The first is the grammar type-dependency graph of `bash_ts_grammar.py`. It
reads the node types of a tree-sitter grammar. It adds one edge from each
type to each of its declared subtypes. A depth-first search then reports the
cycles of "may contain" relations. The edge list is also rendered as
`a -> b` lines.

The second is the line buffer `BufferManager` of `buffmgr/buffer_manager.py`.
It collects lines, each closed by a line break, until their number reaches
the buffer's size. It then moves the collected text to a snapshot, which is
read back with `get_snapshot`.

Files:

- `wrappers.dfy`: module `Wrappers`, the `Option` type (a missing JSON key,
  Python's `None`).
- `grammar_graph.dfy`: module `GrammarGraph`. It holds `Edge` (DEdge), the
  `Registry` value and the class `Graph`; a TNode is its name. The class
  `Graph` keeps the fields `nodes` (type name to the names of its subtypes), `order` (first-insertion order of the keys, which is the
  order a Python dict yields them) and `edges`. Its ghost `Model()` is a
  `Registry` value, and each mutating method states its new `Model()` as
  `WithNode` or `WithEdge` of the old one. The lemmas state the get-or-create,
  append-only and no-dangling-reference properties about those functions.
  `Visit` and `DetectCycles` model the recursive closure `visit` and its
  driver. The `visited` and `stack` sets and the `cycles` list are threaded
  through as values.
- `grammar_main.dfy`: module `GrammarMain`. It holds the edge-building loop
  of `main` (`BuildGraph`, specified by `Build`) and the report lines. It
  also holds `Analyze`, which is `main` without its file I/O.
- `buffer_manager.dfy`: module `LineBuffer`. The class `BufferManager` keeps
  byte-sequence fields, and `Split` models `bytes.split(b"\n")`.

A node is its type name. `TNode` defines equality and hashing by the name
alone (`bash_ts_grammar.py:19-23`). So the registry is a map from names, and
a subtype list holds names.

The cycle detector is modelled as written. `VisitFrom`, `ExploreFrom` and
`SearchAll` are the pure model of `visit`, its loop over the subtypes, and
the loop of `detect_cycles`; the methods `Visit` and `DetectCycles` are
proved to compute them. When a fragment closes a cycle, or is handed upwards,
`visit` returns early and its node stays in `stack`. A later stack hit on
such a stale node gives a fragment that never closes, and the outer loop
throws it away. What is proved:

- every recorded cycle, read backwards, is a closed walk of the subtype graph;
- no cycle is recorded exactly when the subtype graph has no closed walk.
  Until the first stack hit, `stack` is exactly the current search path, so
  the first hit closes at a node on that path and is recorded. If no hit ever
  happens, the order in which nodes finish ranks every edge downwards;
- a fresh node stays on the stack exactly when its `visit` returns early;
- each node's subtypes are explored at most once.

Not every cycle is recorded. With keys A, B, C and the subtypes A: [A],
B: [A, C], C: [B], only `[A, A]` is recorded: B and C hit stale stack
entries, and the cycle B -> C -> B is lost (`StaleStackMissesCycle`).

Dependencies come only from each entry's `"subtypes"` list, one edge per
listed type. A fresh type that lists itself always returns early from its
`visit`: it either records a cycle that closes at itself or hands a fragment
upwards (`VisitSelfListed`). It records exactly `[A, A]`, reported as
`A -> A`, when every subtype listed before its own entry is already
finished, for example when it is its own first subtype (`VisitSelfLoop`).
Otherwise an earlier subtype can close a longer cycle first: with A: [B, A]
and B: [A], only `[A, B, A]` is recorded (`SelfListedAfterCycle`).
Cycles are recorded child first, closing at the node where they
were found: `X -> Y -> X` is recorded as `[X, Y, X]`.

## Model

| member | source | states |
|---|---|---|
| GrammarGraph.AddNodeGetOrCreate | bash_ts_grammar.py:38-42 | add_node is get-or-create: afterwards the name is registered; a second call changes nothing; a known name leaves the registry as it was; a new name adds exactly one key with no subtypes, at the end of the key order; existing nodes and edges are untouched |
| GrammarGraph.AddNodePreservesWellFormed | bash_ts_grammar.py:38-42 | add_node keeps the registry invariant (keys listed once in insertion order, no dangling edge, subtypes equal to the targets of the node's edges) |
| GrammarGraph.AddEdgeEffect | bash_ts_grammar.py:44-48 | after add_edge(f, t): both ends are registered, f's subtypes are its old subtypes with t appended, every other node's subtypes are unchanged, the keys grow by {f, t} only, the edge list gains (f, t) at the end, and the key order gains f, then t, each only when it was not registered before |
| GrammarGraph.AddEdgePreservesWellFormed | bash_ts_grammar.py:40-48 | add_edge keeps the registry invariant, so no edge endpoint and no subtype ever dangles |
| GrammarGraph.ParallelEdgesKept | bash_ts_grammar.py:47-48 | parallel edges are not merged: adding (f, t) twice leaves two (f, t) records and t twice among f's subtypes |
| GrammarGraph.WellFormedClosed | bash_ts_grammar.py:40-48 | in a well-formed registry every subtype of a registered node is itself registered |
| GrammarGraph.RecordedCycleIsClosedWalk | bash_ts_grammar.py:56-67 | a path built child first (each element a subtype of the next), read backwards, is a closed walk along subtype edges |
| GrammarGraph.AcyclicHasNoRecordedCycle | bash_ts_grammar.py:50-76 | when the subtype graph has no closed walk, no sequence has the shape of a recorded cycle |
| GrammarGraph.DumpTextEmpty | bash_ts_grammar.py:78-81 | the dump is empty exactly when there are no edges |
| GrammarGraph.DumpTextConcat | bash_ts_grammar.py:78-81 | the dump of two edge lists in sequence is the concatenation of their dumps: one line per edge, in edge order |
| GrammarGraph.DumpTextLineCount | bash_ts_grammar.py:78-81 | when no type name contains a line break, the dump holds exactly one line break per edge |
| GrammarGraph.Graph.constructor | bash_ts_grammar.py:34-36 | a new graph has no nodes, no key order and no edges, and satisfies the registry invariant |
| GrammarGraph.Graph.AddNode | bash_ts_grammar.py:38-42 | returns the node for the name (its name) and moves the graph to WithNode of its old value, keeping the invariant |
| GrammarGraph.Graph.AddSubtype | bash_ts_grammar.py:13-14 | appends the subtype to the end of one node's subtype list and changes nothing else |
| GrammarGraph.Graph.AddEdge | bash_ts_grammar.py:44-48 | resolves both ends with AddNode, appends the subtype and the edge record; the new graph is WithEdge of the old one and keeps the invariant |
| GrammarGraph.Graph.Visit | bash_ts_grammar.py:55-71 | computes exactly VisitFrom of its inputs; visited and stack only grow; the expansion trace lists each visited node once; a fresh node stays on the stack exactly when it returns early (a fragment handed upwards, or a cycle recorded that closes at it), so a normal return takes it off; a fresh node that lists itself always stays on the stack |
| GrammarGraph.Graph.DetectCycles | bash_ts_grammar.py:50-76 | returns exactly Detected of the graph; every returned cycle has the recorded-cycle shape; no cycle is returned exactly when the subtype graph has no closed walk; the nodes whose subtypes were explored are exactly the registered nodes, each once |
| GrammarGraph.VisitFrom | bash_ts_grammar.py:55-71 | the value of visit(node): a node on the stack gives [node], a visited node gives nothing, otherwise the node is marked and its subtypes explored; the visited set only grows within the registered nodes, which bounds the recursion |
| GrammarGraph.ExploreFrom | bash_ts_grammar.py:62-71 | the loop over a node's subtypes from the i-th: an empty child result goes on to the next subtype; a fragment gets the node appended and is recorded when it starts at the node, otherwise handed upwards; the end of the loop takes the node off the stack; the visited set only grows |
| GrammarGraph.SearchAll | bash_ts_grammar.py:73-74 | visit of each key in insertion order from an empty state; the visited nodes stay registered |
| GrammarGraph.VisitShape | bash_ts_grammar.py:55-71 | one visit only adds visited nodes, stack entries and cycles; each new cycle has length at least 2, the same first and last node, each element a subtype of the next, and starts at a node first visited by this call; a fragment ends at the node; a node on the stack gives [node] and a visited one nothing, both changing nothing; a fresh node stays on the stack exactly when it returns early |
| GrammarGraph.ExploreShape | bash_ts_grammar.py:62-71 | the same for the subtype loop, with the node on the stack: the node ends on the stack exactly when the loop hands a fragment upwards or records a cycle that closes at it |
| GrammarGraph.VisitSelfListed | bash_ts_grammar.py:56-69 | a fresh type that lists itself as a subtype always returns early, so it stays on the stack |
| GrammarGraph.ExploreSelfListed | bash_ts_grammar.py:62-69 | the subtype loop of such a type stops at the latest at its own entry |
| GrammarGraph.VisitSelfLoop | bash_ts_grammar.py:56-68 | when every subtype listed before its own entry is already finished, a fresh type that lists itself records exactly [A, A], returns no fragment and changes nothing else |
| GrammarGraph.ExploreSelfLoop | bash_ts_grammar.py:62-68 | the subtype loop passes finished subtypes without change and records [A, A] at the type's own entry |
| GrammarGraph.WalkRankDecreases | bash_ts_grammar.py:55-71 | along a walk of the subtype graph, each node was finished strictly after the next one |
| GrammarGraph.RankedAcyclic | bash_ts_grammar.py:50-76 | a finishing order covering every registered node, each after all of its subtypes, rules out every closed walk |
| GrammarGraph.RankedAppend | bash_ts_grammar.py:70 | a node whose subtypes are all finished can be appended to a finishing order |
| GrammarGraph.VisitComplete | bash_ts_grammar.py:55-71 | in a search with no stack hit so far, a visit that records no cycle either returns nothing, leaves the stack unchanged and finishes the node after all its subtypes, or hands upwards a fragment that starts on the stack |
| GrammarGraph.ExploreComplete | bash_ts_grammar.py:62-71 | the same for the subtype loop: a loop that records no cycle finishes every subtype and then the node, or hands upwards a fragment starting strictly above the node on the stack |
| GrammarGraph.SearchAllShape | bash_ts_grammar.py:73-76 | after the loop of detect_cycles every key is visited, the stack is within the visited nodes, and every recorded cycle has the recorded-cycle shape |
| GrammarGraph.SearchAllComplete | bash_ts_grammar.py:73-76 | while no cycle is recorded, the stack is empty between top-level visits and the visited nodes have a finishing order |
| GrammarGraph.DetectedIffAcyclic | bash_ts_grammar.py:50-76 | detect_cycles returns no cycle exactly when the subtype graph has no closed walk, and every cycle it returns, read backwards, is a closed walk |
| GrammarGraph.StaleStackMissesCycle | bash_ts_grammar.py:55-74 | with keys A, B, C and subtypes A: [A], B: [A, C], C: [B], only [A, A] is recorded although B -> C -> B is a closed walk: the stale stack entries of A and B hide it |
| GrammarGraph.SelfListedAfterCycle | bash_ts_grammar.py:55-74 | with keys A, B and subtypes A: [B, A], B: [A], only [A, B, A] is recorded: A closes the cycle through B and returns before reaching its own entry, so no [A, A] is recorded |
| GrammarGraph.Graph.DumpGraph | bash_ts_grammar.py:78-81 | the text written is DumpText of the edge list: from + " -> " + to + a line break per edge, in edge order |
| GrammarMain.AddEdgesWellFormed | bash_ts_grammar.py:96-97 | the subtype loop of one entry keeps the registry invariant |
| GrammarMain.AddEdgesEffect | bash_ts_grammar.py:96-97 | the subtype loop of one entry appends one edge per subtype, in subtype order, and registers exactly the endpoints of those edges |
| GrammarMain.BuildEdges | bash_ts_grammar.py:93-97 | the built graph is well formed, its edges are one per subtype in entry order then subtype order, and its nodes are exactly the endpoints of those edges |
| GrammarMain.EntryWithoutSubtypes | bash_ts_grammar.py:95 | an entry without a "subtypes" key adds no node and no edge |
| GrammarMain.NoSubtypesEmptyGraph | bash_ts_grammar.py:93-97 | entries that declare no subtypes give the empty graph, which is acyclic and dumps as empty text |
| GrammarMain.MutualPairScenario | bash_ts_grammar.py:93-97 | entries X with subtype Y and Y with subtype X give the edges X -> Y and Y -> X in that order, and the dump "X -> Y\nY -> X\n" |
| GrammarMain.MutualPairRegistry | bash_ts_grammar.py:38-48 | the X/Y entries build the registry X: [Y], Y: [X] with key order X, Y and the two edge records |
| GrammarMain.MutualPairSearch | bash_ts_grammar.py:50-76 | on X: [Y], Y: [X] with key order X, Y, detect_cycles records exactly [X, Y, X]; the later visit of Y hits its stale stack entry and its fragment is dropped |
| GrammarMain.MutualPairCycles | bash_ts_grammar.py:93-105 | for the X/Y entries the detected cycles are exactly [[X, Y, X]], and the report is "Cycles detected:" then "X -> Y -> X" |
| GrammarMain.PairLine | bash_ts_grammar.py:100-103 | the cycle [X, Y, X] is reported as the header and the line "X -> Y -> X" |
| GrammarMain.ReportShape | bash_ts_grammar.py:100-105 | the report opens with "No cycles detected." exactly when no cycle was found; otherwise it is the header "Cycles detected:" followed by one line per cycle, in order, each the cycle's names joined by " -> " |
| GrammarMain.SelfLoopLine | bash_ts_grammar.py:100-103 | the recorded self-loop [A, A] is reported as the header and the line "A -> A" |
| GrammarMain.BuildGraph | bash_ts_grammar.py:91-97 | the graph built by the loop over entries and subtypes is a fresh, well-formed graph equal to Build of the entries |
| GrammarMain.Analyze | bash_ts_grammar.py:87-107 | the report is Report of the cycles detected on the built graph; the dump is one line per subtype edge, in entry then subtype order; an acyclic grammar reports "No cycles detected."; a cyclic grammar reports "Cycles detected:" and at least one cycle line; every cycle line renders a cycle of the built graph |
| LineBuffer.SplitJoin | buffmgr/buffer_manager.py:18 | split on line breaks then joined with them gives the input back; no piece holds a line break; there is one more piece than line breaks |
| LineBuffer.JoinSplit | buffmgr/buffer_manager.py:18 | pieces without line breaks, joined then split, come back unchanged |
| LineBuffer.FramedJoin | buffmgr/buffer_manager.py:20-21 | each piece followed by a line break is the joined pieces plus one final line break |
| LineBuffer.FramedCount | buffmgr/buffer_manager.py:20-22 | framing pieces without line breaks adds one line break per piece, matching the count of one line per piece |
| LineBuffer.AppendedLine | buffmgr/buffer_manager.py:18-22 | what add_line appends for a line is that line plus one line break, and it holds as many line breaks as the line has pieces |
| LineBuffer.BufferManager.constructor | buffmgr/buffer_manager.py:7-11 | a new manager has the given size (500 by default), an empty buffer, an empty snapshot and a count of 0 |
| LineBuffer.BufferManager.AddLine | buffmgr/buffer_manager.py:13-30 | returns false exactly when the count reached the size during the call. On true, the buffer gains the line and a line break, the count grows by the number of pieces and the snapshot is unchanged. On false, the snapshot is the old buffer plus this whole line, and the buffer and count are reset. The count always equals the line breaks in the buffer and stays below the size unless it is 0 |
| LineBuffer.BufferManager.Flush | buffmgr/buffer_manager.py:32-39 | returns true exactly when the buffer was non-empty, and then the snapshot is the old buffer; otherwise snapshot and count are unchanged; either way the buffer ends empty with count 0, so a second flush returns false and keeps the snapshot |
| LineBuffer.BufferManager.GetSnapshot | buffmgr/buffer_manager.py:41-45 | reads only: None exactly when the snapshot is empty, otherwise the snapshot's bytes |

## Left out

- File and JSON input (`read_node_types`, `json.load`, the fixed input path) is left out. The grammar is given as a sequence of `Entry` values. Each entry holds a type name and, when the key is present, the names of its subtypes.
- Malformed input is left out: an entry without "type", or a subtype record without "type", raises `KeyError` in the source. `Entry` cannot represent such input.
- The file written by `dump_graph` is left out; `DumpGraph` returns the text it writes. `main`'s log output is left out; `Analyze` returns the report lines.
- Logging configuration and all `logging.info`/`logging.debug` calls are left out. They are side-effect-only diagnostics.
- `TNode.__repr__` and `DEdge.__repr__` are left out. They are debugging text that nothing in the core reads.
- TNode object identity is left out. A node is its name, and a subtype list holds names instead of references. This agrees with `TNode.__eq__`/`__hash__`; aliasing of node objects is not modelled.
- Python's recursion limit is left out. `visit` recurses once per node on the current path, so a very deep grammar raises `RecursionError` in the source; the model has no depth bound.
- The UTF-8 encoding of `str` input in `add_line` and the decoding in `get_snapshot` are left out. Lines are byte sequences, and `GetSnapshot` returns the bytes.
- `convert.py` (tree-sitter parsing, the language-model clients, argument parsing, file output) is not part of this model. It is I/O and foreign calls; its only logic is driving `BufferManager`, which is modelled directly.
- `gen-stp.py` is not part of this model. It is argument parsing, file reading and printing.
