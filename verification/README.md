# Verified model of the IDL4 stub compiler

IDL4 turns interface definitions into C stubs for the L4 microkernel. This project
models the parts of it that compute something a stub relies on without checking, and
two programs that are shipped with it, and proves what they promise:

- **Function and exception IDs** (`Graphs`, `IdRanges`, `IdSource`, `Scopes`, `Bits`,
  `Dispatch`, `ServerTables`, `Assignment`, `Superclasses`). The scope walk posts requests and
  constraints; `commit` closes a relation matrix twice and numbers the scopes in
  topological order. From that it follows that the generated dispatch tables have
  every operation in the slot of its number. The main results are `IdSource.IDSource.Commit`,
  `IdRanges.ComponentTiling`, `Assignment.AssignAll` and `Assignment.GenerateTables`.
- **Parameter order** (`Dependencies`). The dependency list accepts exactly the acyclic
  operations and puts every length before its array.
- **Message registers, version 4** (`Layout`, `Lists`, `Packing`, `GaplessChunks`,
  `EarlyRelease`, `ReleaseCondition`, `VariableChunks`, `Channels`, `Marshalling`,
  `StringBuffers`). Chunks move from the memory message to the registers by trial and undo;
  variable-size data shares one buffer; strings get buffer numbers. The main results are
  `Packing.PackResult`, `GaplessChunks.PackedWithoutGaps`,
  `ReleaseCondition.OverflowAtRelease`, `Channels.BufferOverflow`,
  `Channels.Channel.Optimize`, `Marshalling.Transfer` and
  `StringBuffers.Strings.AssignBuffers`.
- **Sub-word packing, version X.0** (`SubWords`): which nestings of small chunks survive
  one register.
- **The C printer** (`Rings`, `Expressions`, `Operators`, `Grammar`, `PrintParse`,
  `ParserSound`, `PrinterExact`, `Spelling`, `TextExact`, `TextRoundTrip`): which expression
  trees are read back as they were built, first from tokens and then from characters. The
  parser goes by the productions of section 6.5 of ISO/IEC 9899:1999, whose operators
  `Operators` lists, and does not know the printer's levels; characters are split by
  longest match as in sections 6.4, 6.4.4.4, 6.4.5 and 6.4.8. The main results are
  `PrinterExact.RoundTripExact`, `PrinterExact.NeededParentheses` and
  `TextRoundTrip.ReadsBackExact`.
- **The ChacmOS memory server** (`PageChains`, `MemoryServer`, `MemoryRuns`, `MemoryLaws`):
  page chains threaded through one array, what holds over every run of requests, and how
  many pages a client gets (`MemoryLaws.FaultsServed`).
- **GNU getopt** (`ArgvExchange`, `Getopt`, `OptionUses`): the in-place exchange, its effect
  on the argument vector over a whole scan, and the scan of every properly written command
  line (`OptionUses.CommandLine`).

Code that works by changing things is modelled by methods over arrays, fields and
linked nodes; each such method is tied to a function of its inputs or of the old state,
and the properties are proved about that function. `Lists.List` is the circular list
with links in the nodes; its contents change exactly as the value operations of
`Layout`, which the optimizer's model uses, say. `Wrappers` has what several modules share.

`dafny verify dfyconfig.toml` checks the whole project.

## Where the code does not do what it seems to

- `src/arch/v4/optimizer.cc:326` gives the two registers of the memory message back as
  soon as the memory list is empty, although rejected chunks may wait in `processed`.
  `EarlyRelease.MessageOverflows` has four chunks for which the final message needs 65
  words. The bound that holds always is the one relative to the flag
  (`Packing.PackResult`). With chunks that leave no gaps, that is whole words, or 1, 2 or
  4 bytes naturally aligned and whole words otherwise, a message overflows exactly if the
  registers are given back while rejected chunks wait, one of these fits the bytes that
  remain then, and all of them together do not (`ReleaseCondition.OverflowAtRelease`). With
  other chunks it takes such a release too, after which one of them can be accepted
  (`ReleaseCondition.OverflowNeedsRelease`); what the finished run then looks like is in
  `Packing.MessageFitsExactly`.
- `src/arch/v4/optimizer.cc:379-380` can panic: the bytes left at the start do not count
  what is in the registers already. It happens exactly if none of the fixed chunks is
  accepted on its own and the variable ones that get moved leave less of the budget than
  the registers held from the start (`Channels.BufferOverflow`). As every bounded array
  brings a fixed chunk for its length (`src/arch/v4/vcc.cc:20-21`), this means 30 typed
  items, a single word available, and a bounded array that fits it
  (`Channels.BufferOverflowWithLengths`; `Channels.BufferOverflowExists` has one).
- `src/be/dependencies.cc:18-31` does not leave its loop after adding a dependency; it
  meets the new entry and returns as if it were a duplicate, so the panic behind the
  loop is reached only for a parameter that was never registered.
- `src/be/interface.cc:427-428` replaces an unused minimum by the maximum, which is 0
  then, for every superclass as well. `Dispatch.GetIDRange` says what the minimum comes to:
  the least ID of the hierarchy, or 0 if that is less and an interface in it has no
  operation of the kind and no superclass.
- `examples/chacmos/memsvr/main.c:45` cannot tell the last page of a chain from a page
  that nobody owns. `PageChains.AddPageExact` says when `addpage` is right; the server
  only calls it for pages that it has just taken out or never put in.
- `examples/chacmos/memsvr/main.c:83` maps pool slot number `page`, while boot fills the
  slots from the highest page down (`MemoryRuns.FramesMirrored`).
- Printing is exact on trees that never nest equal levels on the wrong side
  (`PrinterExact.RoundTripExact`). `src/cast/cast.cc:657` and `src/cast/cast.cc:720-724`
  write prefix operators and binary signs without spaces, so that `-(-x)` becomes `--x`,
  `a-(--b)` becomes `a---b`, and `0xE+1` is one number. `TextExact.Apart` says structurally
  which trees this hits, and the characters give the tree back exactly if it is normal and
  none of its tokens run together (`TextRoundTrip.ReadsBackExact`).
- `src/arch/x0/ms.cc:817-822` reads a chunk of three bytes as four. Below another chunk
  the fourth byte is added to it (`SubWords.DeliveredExactly`).

## Model

| member | source | states |
|---|---|---|
| `IdSource.IDSource.Claim` | src/be/source.cc:12-16 | a claim goes to the front of the request list and leaves the constraints alone |
| `IdSource.IDSource.MustNotConflict` | src/be/source.cc:18-29 | the boss scope is posted as master of the other, in front of the earlier constraints |
| `IdSource.IndexOf` | src/be/source.cc:31-47 | the position of the first request of a scope, UNKNOWN exactly when the scope has none |
| `IdSource.EstablishConstraints` | src/be/source.cc:86-112 | the initial matrix: the diagonal and every posted pair is MASTER one way and SLAVE the other, every other entry unrelated or implied |
| `IdSource.CloseMasters` | src/be/source.cc:114-131 | for every acyclic constraint set the first fixpoint terminates with MASTER at (i, k) exactly when k is reachable from i, and MASTER and SLAVE mirror each other |
| `IdSource.CloseComponents` | src/be/source.cc:133-148 | the second fixpoint terminates with a nonzero entry exactly on pairs of the same undirected component, keeping MASTER and SLAVE |
| `IdSource.SlaveEntry` | src/be/source.cc:114-148 | what an entry of the closed matrix means in each direction: MASTER is reachability, SLAVE its converse on distinct scopes, nonzero is connectedness |
| `IdSource.CountDependencies` | src/be/source.cc:150-168 | depends starts as the number of proper masters of each scope |
| `IdSource.FindStart` | src/be/source.cc:179-193 | the start IDs are the largest ends of all numbered relatives (0 and 1 if none), the SLAVE assertion never fires, and exactly the scopes below lose one dependency |
| `IdSource.NumberScope` | src/be/source.cc:175-198 | numbering one scope keeps depends equal to the number of its unnumbered masters, assigns IDs to that scope once and to no other |
| `IdSource.NumberPass` | src/be/source.cc:171-204 | a pass that leaves work to do made progress, so the progress assertion never fires |
| `IdSource.NumberScopes` | src/be/source.cc:170-204 | the numbering loop terminates, calls assignIDs exactly once per scope, masters before slaves, and each scope starts where its numbered component ended |
| `IdSource.IDSource.Commit` | src/be/source.cc:67-205 | for every acyclic constraint set commit numbers all scopes in one topological order; each scope has the start that the order gives it for functions, and one more than that for exceptions |
| `IdSource.Peers.AssignIDs` | src/be/scope.cc:57-62 | operations and exceptions of a scope get consecutive numbers from the given starts; other scopes keep theirs |
| `IdRanges.ComponentTiling` | src/be/source.cc:171-204 | in any numbering order the ranges of each connected component tile [0, sum of the counts): they stay below the total, every slot is held, and by one scope only |
| `IdRanges.MasterBelowSlave` | src/be/source.cc:114-131 | in a topological order the range of a master ends at or below the start of each of its slaves |
| `IdRanges.StackOfNumbering` | src/be/source.cc:186-199 | the running end of a component, once all scopes are numbered, is the sum of all its counts |
| `Scopes.AvoidConflicts` | src/be/scope.cc:64-73 | posts exactly the enclosing and inherited scopes of this one with the same interface ID as masters of the invoker |
| `Scopes.AvoidAbove` | src/be/interface.cc:6-11 | a scope is posted below exactly the comparable scopes reachable over parents and superclasses |
| `Scopes.ClaimIDs` | src/be/scope.cc:32-48 | the walk claims every scope of the subtree exactly once and posts exactly its constraints |
| `Dispatch.GetFunctionForID` | src/be/interface.cc:678-717 | finds an own or inherited operation with this ID exactly if there is one, and reports a collision exactly if there are two |
| `Dispatch.CandidateIsNumbered` | src/be/operations.cc:928-934 | an operation answers to exactly the number written at it, or to the assigned one if none is, in the space of the kernel messages or of its interface ID |
| `Dispatch.OffersIDIsNumbered` | src/be/operations.cc:928-934 | the IDs that bound the tables are those numbers of the own and inherited operations of each kind |
| `Dispatch.GetIDRange` | src/be/interface.cc:390-432 | per kind, the maximum is the largest own or inherited ID, or 0; with all IDs below 2^30 the minimum is the least of these IDs and of a 0 for each interface in the hierarchy that has neither an operation of the kind nor a superclass; interface IDs are exact at both ends |
| `ServerTables.GetVtableSize` | src/be/interface.cc:474-489 | the size is the power of two just large enough: all IDs are below it, and some ID is in its upper half unless it is 1 |
| `ServerTables.BuildTable` | src/be/interface.cc:578-600 | slot by slot the table holds the operation looked up for that ID, or the discard function |
| `ServerTables.ContainsKernelMessages` | src/be/interface.cc:358-372 | true exactly if some own or inherited operation is a kernel message |
| `ServerTables.GetKtableSize` | src/be/interface.cc:491-505 | 0 without kernel messages, and otherwise the power of two just large enough for their numbers |
| `ServerTables.BuildKernelTable` | src/be/interface.cc:636-673 | the kernel table is defined exactly if the interface has kernel messages, which is what its declaration depends on; it has the size of the kernel table, covers all their numbers, and each slot is the lookup result for its number |
| `ServerTables.BuildServerDefinitions` | src/be/interface.cc:560-676 | there is a table for exactly those interface IDs that serve something (or the only one), each of the same power-of-two size covering all IDs, one of discards exactly if there are several interface IDs, and the kernel table; in all of them every operation is where the number written at it, or else the assigned one, says |
| `ServerTables.KernelTableDispatches` | src/be/interface.cc:641-659 | every kernel message with a number of its own is in its slot, one that shares its number has a slot that is not empty, and the other slots discard |
| `ServerTables.SlotsFilled` | src/be/interface.cc:678-717 | in a table for one number space no number is too large, every own or inherited operation is in the slot of its written or assigned number unless another one has the same, and nothing else is anywhere |
| `ServerTables.DefinitionsInPlace` | src/aoi/aoi.cc:314-328 | so all definitions of a server: users' operations, with a number written or assigned, in the table of their interface ID, kernel messages in the kernel table |
| `ServerTables.TableDispatches` | src/be/interface.cc:560-606 | in a hierarchy with one interface ID and automatic numbers, masking the ID of any operation that is no kernel message with the table size finds exactly that operation, all other slots discard, and no collision is reported |
| `Assignment.ConstraintsAcyclic` | src/be/source.cc:18-29 | the constraints that the walk posts for a well-formed scope tree are acyclic, so that commit may be called |
| `Assignment.SuperclassConnected` | src/be/scope.cc:64-73 | an interface and a superclass with the same interface ID are in one constraint component |
| `Assignment.AssignAll` | src/base/main.cc:372-378 | claiming from the root and committing numbers every operation and exception of every scope; in a hierarchy with one interface ID no two operations and no two exceptions share a number, and exceptions start at 1; a scope with an interface ID of its own counts from the start; what is directly above with the same interface ID has the smaller numbers |
| `Assignment.NoClashes` | src/be/interface.cc:678-717 | in any hierarchy with one interface ID and automatic numbers, diamonds included, two different own or inherited operations have different IDs |
| `Assignment.NoExceptionClashes` | src/be/scope.cc:57-62 | in any hierarchy with one interface ID two different own or inherited exceptions have different IDs, all at least 1 |
| `Assignment.AloneStarts` | src/be/scope.cc:64-73 | a scope that is the only interface with its interface ID, or no interface, numbers its operations from 0 and its exceptions from 1: equal interface IDs are the only reason to wait for another scope |
| `Assignment.InheritedFirst` | src/be/scope.cc:64-73 | the operations and exceptions of a parent or superclass with the same interface ID have smaller numbers than those of the scope itself |
| `Assignment.GenerateTables` | src/base/main.cc:372-378 | end to end: after claim and commit, every operation whose number no other one of its space has is in the slot of the number written at it, or of the assigned one if none is; with one interface ID and automatic numbers all users' operations are dispatched without clashes |
| `Superclasses.GetAllSuperclasses` | src/aoi/aoi.cc:567-604 | terminates for every acyclic inheritance graph with the first occurrences of the depth-first walk over the superclasses |
| `Superclasses.SuperclassListExact` | src/aoi/aoi.cc:567-604 | that list starts with the interface, has no duplicates, and has exactly the interfaces reachable over superclass links |
| `Superclasses.CollectInherited` | src/be/cross.cc:175-200 | every operation of a proper superclass is inherited exactly once, even under diamonds, and nothing else is |
| `Dependencies.DependencyList.RegisterDependency` | src/be/dependencies.cc:13-34 | adds the dependency to the first record of the parameter unless it has it; the search then meets the new entry again and returns |
| `Dependencies.DependencyList.RemoveAllDependenciesTo` | src/be/dependencies.cc:49-57 | marks the edges to a parameter as done in all records that are not done themselves, and nothing else |
| `Dependencies.DependencyList.Pass` | src/be/dependencies.cc:64-88 | one pass gives consecutive priorities to resolved parameters only; without progress and with work left, every remaining record waits for another |
| `Dependencies.DependencyList.Commit` | src/be/dependencies.cc:59-96 | returns true exactly when the dependencies among registered parameters are acyclic; priorities are 1 to n with each dependency below its dependents, and parameters left out keep theirs |
| `Dependencies.SortParams` | src/be/cross.cc:84-98 | the bucket sort returns a permutation in ascending priority that keeps the order of equal ones |
| `Dependencies.PrepareOperation` | src/be/cross.cc:80-98 | the operation is accepted exactly when its length dependencies are acyclic, and then every length parameter comes before its array, so that the reverse pass marshals the array first |
| `Lists.List.Add` | src/arch/list.cc:25-36 | linking an element in front of another keeps a consistent circular list and inserts it at that position |
| `Lists.List.FirstAbove` | src/arch/list.cc:38-45 | the scan stops behind all elements that do not rank lower |
| `Lists.List.AddWithPrio` | src/arch/list.cc:38-49 | the contents become those with the element inserted behind all of equal or lower priority number |
| `Lists.List.RemoveFirstElement` | src/arch/list.cc:51-63 | unlinks the first element, clears its links, and leaves the rest in order |
| `Lists.List.RemoveElement` | src/arch/list.cc:65-84 | unlinks exactly the given element wherever it is and leaves the rest in order |
| `Lists.List.Merge` | src/arch/list.cc:116-121 | appends all elements of the other list in order; the other list is empty afterwards |
| `Rings.Link.Add` | src/cast/cast.cc:39-52 | splices one sibling ring into another in front of a node: the result is one ring, the old one followed by the new |
| `Rings.Link.Remove` | src/cast/cast.cc:54-65 | takes a node out: it is a ring of its own and the others remain a ring in order |
| `Layout.LaidIsArranged` | src/arch/v4/ms.cc:61-77 | the layout puts every chunk at a multiple of its alignment, in list order, without overlap, from the start offset up to the returned end |
| `Layout.LayoutList` | src/arch/v4/ms.cc:61-77 | the layout loop computes that layout and its end |
| `Layout.LayoutEndOfKeys` | src/arch/v4/ms.cc:61-77 | the end of a layout does not depend on offsets or priorities stored earlier |
| `Layout.AddWithPrio` | src/arch/list.cc:38-49 | on values, the list with the chunk inserted by priority |
| `Layout.FindChunk` | src/arch/v4/ms.cc:512-523 | finds a chunk with the ID exactly if there is one, and then the first |
| `Packing.PackFixed` | src/arch/v4/optimizer.cc:278-343 | the trial-and-undo loops terminate and compute the packing |
| `Packing.TrialUndone` | src/arch/v4/optimizer.cc:316-339 | removing a rejected chunk restores the register list up to stored offsets |
| `Packing.StepConserves` | src/arch/v4/optimizer.cc:304-341 | one trial, accepted or rejected, neither loses nor duplicates a chunk |
| `Packing.PackConserves` | src/arch/v4/optimizer.cc:300-343 | every chunk that was in the register list or the memory list is in exactly as many places afterwards |
| `Packing.PackResult` | src/arch/v4/optimizer.cc:300-343 | at the end the registers keep the original ones as a prefix by rank, leftovers keep their relative order, the layout is at most maxBytes = word size * (63 - typed words - 2 if a memory message is needed), and each leftover is larger than the remaining bytes or fails the trial layout |
| `Packing.StepBudget` | src/arch/v4/optimizer.cc:278-341 | each step keeps the layout of the accepted list within the capacity that belongs to the memory-message flag |
| `Packing.TagFits` | src/arch/v4/optimizer.cc:278-298 | the word count is odd, so that the message tag always fits when the count is not negative |
| `Packing.FlagExact` | src/arch/v4/optimizer.cc:326-331 | at the end of every run a memory message is planned whenever a chunk is left exactly if the registers were never released while a rejected chunk waited, or nothing is left |
| `Packing.MessageFitsExactly` | src/arch/v4/optimizer.cc:278-343 | for every run the message takes more than 63 registers, the tag included, exactly if a chunk stayed in memory and the layout is larger than the capacity at the start, which takes an early release |
| `ReleaseCondition.ReleasedInRun` | src/arch/v4/optimizer.cc:326-331 | a run is not clean exactly if there is a state right after an early release, and from that state it goes on to the same end |
| `ReleaseCondition.OverflowAtRelease` | src/arch/v4/optimizer.cc:278-343 | for such chunks the message takes more than 63 registers exactly if the memory message is released while chunks wait, one of these fits the bytes remaining then, and the sum of their sizes does not |
| `ReleaseCondition.OverflowNeedsRelease` | src/arch/v4/optimizer.cc:278-343 | for any chunks it takes more only if there is such a release and a waiting chunk can be accepted after it |
| `Packing.PackAcceptsNone` | src/arch/v4/optimizer.cc:300-343 | packing accepts no chunk at all exactly if each is too large or fails the trial layout on its own at the start; then the budget and the registers are what they were |
| `Packing.VariableKeepsFlag` | src/arch/v4/optimizer.cc:326-331 | with variable-size data the flag is never cleared |
| `GaplessChunks.PackedWithoutGaps` | src/arch/v4/ms.cc:79-92 | with chunks of whole words, or of 1, 2 or 4 bytes with natural alignment and whole words otherwise, the packed registers have no gaps: their layout ends at the plain sum of the sizes, each chunk left exceeds the capacity with its size, and none is left if all sizes together fit the capacity at the start |
| `EarlyRelease.MessageOverflows` | src/arch/v4/optimizer.cc:326-331 | chunks of 300, 232, 12 and 4 bytes: the memory list is momentarily empty while rejected chunks wait, the registers are released, and the final message needs 65 words |
| `Channels.StepPlaced` | src/arch/v4/optimizer.cc:316-339 | a chunk that is tried leaves aligned and disjoint offsets in the register list, accepted or not; one that is too large to be tried leaves the list alone |
| `Channels.PackPlaced` | src/arch/v4/optimizer.cc:300-343 | the finished register list has aligned and disjoint offsets exactly if it had them before or some chunk was small enough to be tried |
| `Channels.FinalLists` | src/arch/v4/fcc.cc:29-50 | with the buffers inserted, the register and memory lists that the accessors search hold the original chunks and the new buffers and nothing else; every chunk ID is found in exactly one of them, so that the accessors never reach their panic |
| `VariableChunks.PackVariable` | src/arch/v4/optimizer.cc:346-369 | the scan computes the moving function: chunks move to the registers without loss, in word-rounded sizes, until none that is left fits |
| `VariableChunks.LeftOverUses` | src/arch/v4/optimizer.cc:346-369 | some of the budget is used exactly if a nonempty chunk fits it |
| `VariableChunks.SecondMovesLast` | src/arch/v4/optimizer.cc:348-369 | as the scan goes on behind the first element after each move, the second of several chunks that all fit is moved last |
| `Channels.BufferOverflow` | src/arch/v4/optimizer.cc:371-381 | after packing, the register buffer exceeds the capacity exactly if before packing no chunk of the memory list could be accepted and the moved variable-size data leave less of the budget than the registers held |
| `Channels.BufferOverflowWithLengths` | src/arch/v4/vcc.cc:20-21 | with the tag in the registers, a length for every variable-size chunk and no empty chunk, that is exactly: 30 typed items and a nonempty variable-size chunk of at most one word |
| `Channels.NoOverflowWithoutTag` | src/arch/v4/optimizer.cc:264-268 | a oneway reply channel, which has no tag, never overflows |
| `Channels.BufferOverflowExists` | src/arch/v4/optimizer.cc:371-381 | a sound channel of three chunks and 30 typed items that overflows |
| `Channels.Channel.PackRegisters` | src/arch/v4/optimizer.cc:278-381 | one channel: fixed packing, variable packing and the register buffer, with the resulting lists and, in terms of the channel before the call, the exact condition of the panic |
| `Channels.Channel.LayoutMemory` | src/arch/v4/optimizer.cc:383-411 | the memory buffer holds the leftovers and a buffer for the variable-size data, laid out without overlap |
| `Channels.Channel.Optimize` | src/arch/v4/optimizer.cc:278-415 | the whole work on a channel: the exact condition of each of the two panics before the call; the register list is the packed one with the buffer; the final lists hold all chunks and the new buffers, each ID in one list, the buffers behind what does not rank higher; pinned and left-over chunks keep their order; the layout fits; memory offsets are aligned, disjoint and as small as possible, register offsets exactly if some were before, a chunk was tried, or there is a buffer |
| `Channels.MaxBytesRequired` | src/arch/v4/ms.cc:1210-1226 | the receive buffer size is the end of the memory layout |
| `Marshalling.DwordAlignMeaning` | src/arch/tools.cc:3-49 | for element sizes 1, 2 and 4 the generated word count and byte advance both mean the data size rounded up to whole words |
| `Marshalling.BufferHoldsData` | src/arch/v4/optimizer.cc:383-400 | data within its declared bounds never exceeds the room added up for the chunks, in whatever order they are marshalled |
| `Marshalling.AssignToBuffer` | src/arch/v4/vcc.cc:34-62 | the copy and the advance put exactly the words of one chunk at the running index and leave what is before it |
| `Marshalling.Marshal` | src/arch/v4/vcc.cc:34-90 | after all chunks the buffer starts with their words one behind the other, and the element counts are sent in order |
| `Marshalling.AssignFromBuffer` | src/arch/v4/vcc.cc:200-264 | takes the words of one chunk from the running index and advances by as much as the sender did |
| `Marshalling.Unmarshal` | src/arch/v4/vcc.cc:200-336 | from such a buffer, reading in the same order returns what was sent for each chunk |
| `Marshalling.Transfer` | src/arch/v4/vcc.cc:34-336 | sending and receiving in the same order returns every element count and all data, both indices agree, and neither exceeds the buffer |
| `StringBuffers.Strings.GetFixedCopyChunk` | src/arch/v4/fcc.cc:5-27 | a large fixed chunk becomes a transferred string in each of its channels, except in output channels that see their first fixed chunk; the lists stay consistent |
| `StringBuffers.Strings.GetVariableCopyChunk` | src/arch/v4/vcc.cc:5-28 | bounded data gets a temporary string, unbounded data a transferred one, in each of its channels; the lists stay consistent |
| `StringBuffers.CollectBuffers` | src/arch/v4/optimizer.cc:417-443 | the list of buffers has an entry by rank for exactly the input strings and the strings that are not in the input channel |
| `StringBuffers.NumbersSeparate` | src/arch/v4/optimizer.cc:445-470 | buffer numbers are equal exactly for equal chunk IDs, in all channels, and ordered IN, INOUT, OUT, temporary |
| `StringBuffers.InputInPlace` | src/arch/v4/optimizer.cc:445-470 | each transferred string of the input channel has its position in the message as its buffer number |
| `StringBuffers.OrderedByFields` | src/arch/v4/optimizer.cc:417-443 | the order of the buffer numbers in terms of the chunks: transferred before temporary, input before output only, input only before both |
| `StringBuffers.Strings.AssignBuffers` | src/arch/v4/optimizer.cc:417-470 | all of that for the connection, with every list a permutation of itself in message order |
| `MemoryServer.Server.RemovePage` | examples/chacmos/memsvr/main.c:14-40 | takes the page out of the chain exactly if it is there, and leaves the rest of the chain and all other chains as they were |
| `MemoryServer.Server.AddPage` | examples/chacmos/memsvr/main.c:42-53 | does what the code does to both arrays for any page, and for a page that nobody owns puts it in front of the chain |
| `PageChains.AddPageExact` | examples/chacmos/memsvr/main.c:42-53 | the arrays still describe finite disjoint chains afterwards exactly if the page is not the last of a chain |
| `PageChains.Removed` | examples/chacmos/memsvr/main.c:14-40 | the link changes of removepage leave the chains of all spaces as they were but for that page |
| `PageChains.Gained` | examples/chacmos/memsvr/main.c:42-53 | the link changes of addpage for an unowned page leave finite disjoint chains with correct counts |
| `MemoryServer.Server.HandlePageFault` | examples/chacmos/memsvr/main.c:55-95 | refines the page-fault step: same reply, same new owners, arrays consistent |
| `MemoryLaws.FaultLaw` | examples/chacmos/memsvr/main.c:62-88 | a client gets the info page at address 1 and physical memory in the frame buffer, its end included, at no charge; anywhere else the first free page exactly if there is one and its quota is above its number of pages, and no response otherwise |
| `MemoryLaws.StrangerLaw` | examples/chacmos/memsvr/main.c:89-92 | a thread that is no client is not allowed anything |
| `MemoryLaws.FaultsServed` | examples/chacmos/memsvr/main.c:62-88 | over any number n of ordinary faults of one client it gets exactly as many pages as are free, as its quota has room for, and as n, off the front of the free list and in this order; nobody else gains or loses anything |
| `MemoryLaws.CreateLaw` | examples/chacmos/memsvr/calls.c:56-83 | a memory object is created in the first unused descriptor, for the default object and memory interfaces only; everything else is refused and changes nothing |
| `MemoryLaws.NewClientServed` | examples/chacmos/memsvr/calls.c:56-151 | from creation over quota and attachment to the faults: the new task gets the pages that quota, free list and number of faults allow |
| `MemoryServer.Server.HandleCreate` | examples/chacmos/memsvr/calls.c:56-83 | refines the create step |
| `MemoryServer.Server.HandleAttach` | examples/chacmos/memsvr/calls.c:120-135 | refines the attach step |
| `MemoryServer.Server.HandleSetMaxpages` | examples/chacmos/memsvr/calls.c:138-151 | refines the quota step |
| `MemoryServer.Server.constructor` | examples/chacmos/memsvr/main.c:196-250 | boot: the pages above are taken for mtab, the free list and the video pages are built by the same operations, and every frame is mapped at a pool slot |
| `MemoryServer.BootOwnership` | examples/chacmos/memsvr/main.c:207-250 | after boot the free list is exactly the granted pages outside the frame buffer that have at least as many granted pages above them as mtab needs at four bytes a page, ascending; the frame buffer pages are set aside; all other descriptors are empty, unused and without a limit |
| `MemoryRuns.StepChains` | examples/chacmos/memsvr/main.c:77-84 | one request moves at most one page, from the head of the free list to the front of the chain of a client below its quota, and no other chain changes |
| `MemoryRuns.StepOwnership` | examples/chacmos/memsvr/main.c:14-95 | every request keeps all chains disjoint and the set of owned pages unchanged |
| `MemoryRuns.OwnershipConserved` | examples/chacmos/memsvr/main.c:14-95 | the same over every run of requests |
| `MemoryRuns.GrantsInOrder` | examples/chacmos/memsvr/main.c:77-84 | over every run the pages handed out, in order, followed by the final free list are the initial free list |
| `MemoryRuns.ClientKeepsPages` | examples/chacmos/memsvr/main.c:77-84 | over every run the chain of a client is the pages it was handed, latest first, in front of those it had |
| `MemoryRuns.NoPageTwice` | examples/chacmos/memsvr/main.c:77-84 | no page is handed out twice in a run |
| `MemoryRuns.QuotaKept` | examples/chacmos/memsvr/calls.c:138-151 | over every run a client never has more pages than the largest quota it was given |
| `MemoryRuns.CreateAttachFault` | examples/chacmos/memsvr/calls.c:56-151 | a created object was unused; after attaching, faults of the task are charged to it, only the attaching thread sets its quota, and it cannot be attached again |
| `MemoryRuns.AttachedForGood` | examples/chacmos/memsvr/calls.c:120-151 | once a task is attached its threads never change, and its quota only by requests of its boss |
| `MemoryRuns.FramesMirrored` | examples/chacmos/memsvr/main.c:207-239 | the slot that is mapped for a page shows the frame mirrored within the pool; there is a frame behind every page of the pool exactly if the grants are symmetric |
| `MemoryRuns.FrameMissing` | examples/chacmos/memsvr/main.c:207-239 | a concrete memory with a hole where a page of the pool has no frame |
| `ArgvExchange.SwapBottom` | src/base/getopt.c:308-323 | swapping a shorter bottom block with the far end of the top block leaves the rest of the exchange to be done |
| `ArgvExchange.SwapTop` | src/base/getopt.c:324-340 | the same for a shorter top block and the near end of the bottom block |
| `ArgvExchange.SwapBlocks` | src/base/getopt.c:314-320 | the element loop swaps the two blocks and nothing else |
| `ArgvExchange.Exchange` | src/base/getopt.c:292-346 | the two adjacent blocks change places, each in its order, and nothing else moves; terminates |
| `Getopt.Scanner.PermuteSkipped` | src/base/getopt.c:508-524 | bringing options in front of skipped non-options and skipping more keeps the rest of the scan the same |
| `Getopt.Scanner.Advance` | src/base/getopt.c:497-573 | moving to the next element, with its four endings, including `--` and the three orderings |
| `Getopt.Scanner.FindLong` | src/base/getopt.c:600-627 | the table search with its exact-match exit and ambiguity flag |
| `Getopt.LongMatchMeaning` | src/base/getopt.c:600-627 | an option is found by its first exact name, or by an abbreviation of no other name; several or none otherwise |
| `Getopt.Scanner.DecodeLongOption` | src/base/getopt.c:589-718 | a long option takes one element, or two if it requires an argument that is not attached and there is one, and reports accordingly |
| `Getopt.Scanner.DecodeShortOption` | src/base/getopt.c:721-917 | one character of a cluster reports the first event of the cluster and leaves the rest of it, or ends the element, taking the next one as argument if needed |
| `Getopt.Scanner.Next` | src/base/getopt.c:468-917 | one call reports the next event of the scan and comes closer to the end, or ends with the final vector |
| `Getopt.Scanner.ScanOptions` | src/base/main.cc:108-110 | repeated calls end; then the vector is the program name, the elements used by options, then the others, optind is where the others begin, and the reports are those of the scan in order |
| `Getopt.ScanInterleaves` | src/base/getopt.c:497-572 | the elements used and those left over interleave to the original vector, each part in its original order |
| `Getopt.InterleavesPermutes` | src/base/getopt.c:497-572 | so the final vector is a permutation of the original one |
| `Getopt.OnlyNonOptionsLeft` | src/base/getopt.c:508-524 | when permuting and without `--`, only non-options are left over |
| `OptionUses.DeclaredMeans` | src/base/main.cc:79 | the option string that spells a list of declared options accepts each with the argument it was declared with |
| `OptionUses.UsesScanned` | src/base/getopt.c:721-917 | any list of proper uses of declared options, in clusters, with attached, separate or omitted arguments, by long names or unique abbreviations, with operands between them, written as a vector, is scanned as exactly these uses, reports and operands, whatever follows |
| `OptionUses.CommandLine` | src/base/getopt.c:497-573 | so a whole command line, with or without an end mark and anything behind it |
| `OptionUses.OptionsFirst` | src/base/getopt.c:559-567 | with options required to come first everything from the first operand on is left |
| `OptionUses.ArgumentMissing` | src/base/getopt.c:891-907 | an option that needs an argument and stands last without one is reported |
| `OptionUses.LongMistake` | src/base/getopt.c:600-717 | a long name that nothing starts with, that only abbreviates several, that lacks its argument or has one it does not take, is reported as that |
| `Expressions.LevelsAgree` | src/cast/cast.cc:135-212 | for every string the level that the printer reads off its first characters is that of the production whose operator those characters are, and an operator of the grammar is read to its end |
| `PrintParse.PrintIsFlat` | src/cast/cast.cc:651-733 | printing writes down the tree with brackets where parentheses are printed |
| `PrintParse.NormalIsFitting` | src/cast/cast.cc:651-733 | these parentheses make every child fit its place in the grammar exactly if the tree is normal |
| `PrintParse.ParseFlat` | src/include/cast.h:12-29 | a precedence parser reads every fitting tree back from its tokens and stops behind it |
| `PrintParse.NormalRoundTrip` | src/cast/cast.cc:651-1026 | every normal tree is read back as it was printed, up to brackets |
| `ParserSound.ParseSound` | src/include/cast.h:12-29 | the parser accounts for all tokens it reads with a fitting tree |
| `PrinterExact.SelfDelimiting` | src/cast/cast.cc:651-1026 | two trees that differ only in brackets, at the start of the same tokens, end at the same place |
| `PrinterExact.SameText` | src/cast/cast.cc:651-1026 | trees with the same tokens that differ only in brackets, all casts being nodes of their own, are equal |
| `PrinterExact.RoundTripExact` | src/cast/cast.cc:651-1026 | for every tree with known operators, parsing the printed tokens by the productions of the C grammar returns the tree up to brackets exactly if it is normal |
| `PrinterExact.NeededParentheses` | src/cast/cast.cc:651-733 | for every normal tree, an operand is in parentheses exactly if the expression would be read differently without them, but for casts below prefix operators and the middle of conditionals |
| `PrinterExact.SafeParentheses` | src/cast/cast.cc:898-926 | these get them always if they are casts, and if they are assignments or comma expressions, respectively |
| `Spelling.CompositeIsUnary` | src/include/cast.h:258-271 | a unary operator of several parts, as (void*)&, prints its parts one behind the other and has the level of a unary expression |
| `Spelling.OperatorsOfGrammar` | src/cast/cast.cc:135-212 | for every string: it is split off as an operator exactly if it is one of the grammar, prefix, step or binary |
| `Spelling.WrittenIsPrinted` | src/cast/cast.cc:651-733 | the printed characters and the printed tokens come from one sequence of tokens and spaces |
| `Spelling.LexExact` | src/cast/cast.cc:651-733 | characters are split into the tokens they were written with exactly if every token is the longest match where it stands |
| `TextExact.SteadyTree` | src/cast/cast.cc:651-733 | in front of anything that does not continue a word, this holds exactly if no two tokens of the tree run together, and its last one does not run into what follows |
| `TextExact.SplitsExactly` | src/cast/cast.cc:651-1026 | the printed characters of a tree split into its printed tokens exactly if no sign or ampersand directly precedes an operator it merges with, no dot a digit, and no number an operator it takes in |
| `TextRoundTrip.SameTokens` | src/cast/cast.cc:651-1026 | when some other tokens are read, they differ even without parentheses |
| `TextRoundTrip.ReadsBackExact` | src/cast/cast.cc:651-1026 | splitting the printed characters and parsing them by the productions of the C grammar returns the tree up to brackets exactly if it is normal and no two of its tokens run together |
| `TextRoundTrip.TextTellsApart` | src/cast/cast.cc:651-1026 | two such trees with the same characters are equal up to brackets |
| `TextRoundTrip.SignsRunTogether` | src/cast/cast.cc:651-667 | a doubled sign prints as the step operator, so that two different normal trees have one text |
| `TextRoundTrip.StepsRunTogether` | src/cast/cast.cc:708-733 | so do a step behind the left and a step in front of the right operand of a binary sign |
| `TextRoundTrip.NumberTakesSign` | src/cast/cast.cc:812-827 | a hexadecimal constant that ends in E is read as one number with the sign behind it |
| `SubWords.MaskMeaning` | src/arch/x0/fcc.cc:203-207 | the generated mask is 2 to the number of bits, minus one |
| `SubWords.ExtractMeaning` | src/arch/x0/fcc.cc:196-209 | shift and mask return the bytes of the chunk at its offset |
| `SubWords.Packed` | src/arch/x0/ms.cc:809-842 | without a spill the packed register holds the data of all leaves one behind the other |
| `SubWords.ImageDelivered` | src/arch/x0/ms.cc:98-119 | from such a register every leaf at its server offset is taken out as it was |
| `SubWords.DeliveredExactly` | src/arch/x0/ms.cc:809-842 | for any nesting of up to four bytes at a word boundary, packing and extraction return every leaf exactly unless a leaf of three bytes with a nonzero byte behind it lies below another chunk |

## Left out

- IdSource.IDSource.Commit: requires an acyclic constraint graph, as the comment at
  `src/be/source.cc:21-26` does.
- ServerTables.TableDispatches: assumes one interface ID and automatic numbers for the
  operations that are no kernel messages, since constraints are posted only between equal
  interface IDs. With explicit numbers, which may collide, `ServerTables.SlotsFilled` says
  where each operation is, and `Dispatch.GetFunctionForID` reports collisions exactly.
- ServerTables.BuildServerDefinitions: the text around the tables is not modelled.
- Assignment.GenerateTables: a table is promised for users' operations with numbers below
  2^30, the initial value of the search for the least one.
- Dispatch.GetIDRange: says what the minima are where all IDs are below 2^30, the initial
  value of the search.
- Channels.Channel.Optimize: lists are values here, so that sharing of list nodes is not
  captured; `Lists.List` shows that the linked lists do what the values do.
- Channels.Channel.Optimize: the signature checks for kernel messages before the packing
  are not modelled.
- Marshalling.Transfer: element counts travel in their own fixed chunks, whose copying
  is plain assignment; data is at most 2^31 bytes, as chunk sizes are C integers.
- StringBuffers.Strings.AssignBuffers: the fixed and variable lists of the same chunks
  are in `Channels`, one channel at a time.
- MemoryServer.Server.HandlePageFault: the flexpage arguments of the reply, and the
  requests that change nothing, are left out; which pages the pager grants at boot is a
  parameter.
- MemoryServer.Server.HandleCreate: the thread ID of the server in the reply is left out.
- Getopt.Scanner.constructor: option strings with an ordering prefix or with `W;`, the
  long-only mode, the environment variables and the error texts are left out; the
  ordering is a parameter.
- Getopt.Scanner.DecodeLongOption: the long-only mode, in which a single dash may begin a
  long option, is left out.
- Getopt.Scanner.DecodeShortOption: the branch for `W;` in the option string is left out.
- OptionUses.UsesScanned: uses with mistakes are in `OptionUses.ArgumentMissing` and
  `OptionUses.LongMistake`, one at a time.
- Getopt.Scanner.Next: calls after the end of the scan are not modelled.
- PrinterExact.RoundTripExact: conditionals without a branch, comma lists in brackets, C++
  casts, `new`, `delete` and declarations in expressions are left out.
- GaplessChunks.PackedWithoutGaps: chunks of other sizes and alignments can leave gaps; for
  them `Packing.PackResult` is stated on the layout.
- TextRoundTrip.ReadsBackExact: operands are identifiers and number, character and string
  constants; negative floating-point constants and strings with an unescaped quote are left
  out, and so are casts to types that are written with parentheses.
- SubWords.DeliveredExactly: which chunks share a register is not modelled.
- Dependencies.PrepareOperation: types and properties of parameters are reduced to the
  length relation.
- Numbers are unbounded except where 32-bit arithmetic matters; overflow of IDs and
  sizes is not modelled.
- The name server, the booter, the file systems, the grammars, the kernel interfaces and
  the text of the generated files are not part of this model.
