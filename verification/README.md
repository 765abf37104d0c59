# Hand-off layer and maintenance scripts

A Dafny model of the code in this repository that keeps state or computes something
hard: the glue between JavaScript and wasm in
`blockchain-application/pkg-nodejs/casper_rust_wasm_sdk.js`, and the algorithms of four
scripts under `superset-setup/scripts`. Each stateful part is a class whose methods are
proved against functions on values; the lemmas about those functions say what whole runs
keep.

Verify with `dafny verify dfyconfig.toml`, or with
`dafny verify --resource-limit 2000000 --verification-time-limit 0 *.dfy`.

## Files

- `HandleSlab.dfy`: the table of JavaScript objects. Its free list is threaded through its
  own free cells, which nothing tells from stored numbers. It refines a finite map, answers
  every request as the map does, and is as long as the reserved cells plus peak demand.
- `Utf.dfy`: UTF-16 (RFC 2781, section 2.2) and UTF-8 (RFC 3629, sections 3 and 4), with an
  encoder that replaces unpaired surrogates and a strict decoder.
- `WasmMemory.dfy`: linear memory, the buffer that growth replaces and detaches, the three
  cached views, and the allocator by contract. A trap is an outcome of `Malloc` and
  `Realloc`, recorded in `trapped`.
- `StringMarshalling.dfy`, `StringArguments.dfy`: passing strings on both paths, reading
  them back, passing several in a row.
- `ArrayMarshalling.dfy`: passing and taking back arrays of objects.
- `Closures.dfy`: the reference-counted closure, as a state machine over calls, returns,
  Rust's drop, destructors and finalisation.
- `Ownership.dfy`: the pattern that all wrapper classes share, over any number of wrappers.
- `Sequences.dfy`, `Wrappers.dfy`: what several modules use.
- `StableSort.dfy`, `TextOrder.dfy`, `TopologicalSort.dfy`: what Python's library provides.
- `FindModels.dfy`, `Tasklist.dfy`, `CancelRuns.dfy`, `RoundRobin.dfy`: one script each.

Where a property holds only under a condition, the condition is proved to be the exact one:
a drop keeps the table sound if and only if the handle is live; a string survives the round
trip if and only if it has no unpaired surrogate; an order of creation exists if and only if
the foreign keys between different tables make no circle; the text key of a workflow run
tells runs apart exactly as event, branch and workflow do, save that a missing branch looks
like one called `None`. Each of the four has a lemma with a concrete input that fails.

A function that is both the code's and its own specification, such as the UTF-8 encoder or the
order on texts, is tied to a statement that does not use it: the tables of the standards, the
first difference of two texts, the last characters of a name, the reserved values by number.

Some quantified facts carry a trigger that names a predicate (`Consistent`, `Apart`,
`KeepsRegion`, `LiesAt`, `ByteAfter`, `Placed`): a proof uses such a fact by mentioning the predicate.

## Model

| member | source | states |
|---|---|---|
| HandleSlab.AddRefinesMap | blockchain-application/pkg-nodejs/casper_rust_wasm_sdk.js:26-33 | adding returns a handle nobody holds, binds it, changes no other, and lengthens the table only when the free list is empty |
| HandleSlab.DropRefinesMap | blockchain-application/pkg-nodejs/casper_rust_wasm_sdk.js:14-18 | dropping a live handle unbinds that one only; dropping a constant does nothing |
| HandleSlab.GetRefinesMap | blockchain-application/pkg-nodejs/casper_rust_wasm_sdk.js:10 | a handle reads as the object bound to it; 129 reads as null, 130 as true, 131 as false, and those below as undefined |
| HandleSlab.DropIsSafeIffLive | blockchain-application/pkg-nodejs/casper_rust_wasm_sdk.js:14-18 | a free list that partitions the table with the live handles exists after a drop exactly when the handle was live |
| HandleSlab.SecondDropHandsOutTwice | blockchain-application/pkg-nodejs/casper_rust_wasm_sdk.js:14-33 | after the k-th free cell was dropped again the next k + 2 additions get that cell, then the free cells up to it in their order, and so the same cell twice |
| HandleSlab.DroppedTwiceFromStart | blockchain-application/pkg-nodejs/casper_rust_wasm_sdk.js:12-33 | that happens: add, drop, drop, and the next two objects share cell 132 |
| HandleSlab.StepRefinesMapStep | blockchain-application/pkg-nodejs/casper_rust_wasm_sdk.js:10-33 | every legal request is in bounds, is answered as the map answers it, and keeps the table sound |
| HandleSlab.RunIsSound | blockchain-application/pkg-nodejs/casper_rust_wasm_sdk.js:6-33 | at every point of every run the chain is acyclic, in range and partitions the table with the live handles, and the length is 132 plus the largest number of handles held at once so far |
| HandleSlab.RunRefinesMap | blockchain-application/pkg-nodejs/casper_rust_wasm_sdk.js:6-33 | every run answers every request as a plain map from handles to objects, and the reserved cells never change |
| HandleSlab.ConstantsNeverChange | blockchain-application/pkg-nodejs/casper_rust_wasm_sdk.js:6-33 | at every point of every run the reserved handles read as just those values, and wasm holds no handle below 132 |
| HandleSlab.ObjectTable.AddHeapObject | blockchain-application/pkg-nodejs/casper_rust_wasm_sdk.js:26-33 | the method computes the step the lemmas are about and keeps the invariant |
| HandleSlab.ObjectTable.DropObject | blockchain-application/pkg-nodejs/casper_rust_wasm_sdk.js:14-18 | the same for dropping |
| HandleSlab.ObjectTable.GetObject | blockchain-application/pkg-nodejs/casper_rust_wasm_sdk.js:10 | returns what the handle stands for, with the same values for the reserved ones |
| HandleSlab.ObjectTable.TakeObject | blockchain-application/pkg-nodejs/casper_rust_wasm_sdk.js:20-24 | returns what the handle stood for, with the same values for the reserved ones, and unbinds it |
| HandleSlab.ObjectTable.CloneRef | blockchain-application/pkg-nodejs/casper_rust_wasm_sdk.js:10218-10221 | a second, different handle for the same object |
| Utf.EncodedLength | blockchain-application/pkg-nodejs/casper_rust_wasm_sdk.js:84-94 | k code units take between k and 3k bytes, so the enlarged buffer suffices and the last realloc never grows |
| Utf.Utf8Table | blockchain-application/pkg-nodejs/casper_rust_wasm_sdk.js:48-59 | every scalar value is encoded by the table of RFC 3629 section 3: number of bytes, leading bits, and the value spread over the rest |
| Utf.Utf16Table | blockchain-application/pkg-nodejs/casper_rust_wasm_sdk.js:113-120 | every scalar value is one code unit or a surrogate pair by RFC 2781 section 2.1 |
| Utf.ScalarOfUnit | blockchain-application/pkg-nodejs/casper_rust_wasm_sdk.js:48-59 | a code unit alone stands for itself, or for U+FFFD if it is a surrogate |
| Utf.ScalarOfPair | blockchain-application/pkg-nodejs/casper_rust_wasm_sdk.js:48-59 | a surrogate pair stands for one scalar value, by the formula of RFC 2781 section 2.2 |
| Utf.ReadInOrder | blockchain-application/pkg-nodejs/casper_rust_wasm_sdk.js:48-59 | a string cut anywhere but inside a pair is encoded as its parts one after the other; with the tables this settles every byte of every encoding |
| Utf.Utf8Examples | blockchain-application/pkg-nodejs/casper_rust_wasm_sdk.js:48-59 | one character of each length, byte by byte |
| Utf.AsciiPrefix | blockchain-application/pkg-nodejs/casper_rust_wasm_sdk.js:76-87 | an ASCII prefix is its own encoding and the rest is encoded independently of it |
| Utf.EncodeIntoIsCompleteIffFits | blockchain-application/pkg-nodejs/casper_rust_wasm_sdk.js:48-59 | encodeInto reads the whole string and writes its whole encoding exactly when that fits |
| Utf.EncodeIntoIsLongestPrefix | blockchain-application/pkg-nodejs/casper_rust_wasm_sdk.js:48-51 | encodeInto writes the encoding of exactly the part it says it read, and stops only before a character that does not fit |
| Utf.DecodeEncode | blockchain-application/pkg-nodejs/casper_rust_wasm_sdk.js:113-120 | decoding what was encoded gives the string with each unpaired surrogate, by position, replaced by U+FFFD |
| Utf.EncodeDecode | blockchain-application/pkg-nodejs/casper_rust_wasm_sdk.js:113-120 | the strict decoder accepts exactly the encodings, and re-encoding what it read gives the same bytes |
| Utf.SanitizedIsWellFormed | blockchain-application/pkg-nodejs/casper_rust_wasm_sdk.js:113-120 | what is read back has no unpaired surrogate, so a second round trip changes nothing |
| Utf.RoundTripIffWellFormed | blockchain-application/pkg-nodejs/casper_rust_wasm_sdk.js:61-120 | a string comes back unchanged exactly when it has no unpaired surrogate |
| Utf.LoneSurrogateIsLost | blockchain-application/pkg-nodejs/casper_rust_wasm_sdk.js:113-120 | that happens: a high surrogate alone comes back as U+FFFD |
| WasmMemory.Wasm.GetUint8Memory0 | blockchain-application/pkg-nodejs/casper_rust_wasm_sdk.js:37-44 | whatever grew before, the view is one of the current buffer |
| WasmMemory.Wasm.GetInt32Memory0 | blockchain-application/pkg-nodejs/casper_rust_wasm_sdk.js:104-111 | the same for the signed view |
| WasmMemory.Wasm.GetUint32Memory0 | blockchain-application/pkg-nodejs/casper_rust_wasm_sdk.js:543-550 | the same for the unsigned view |
| WasmMemory.Wasm.Grow | blockchain-application/pkg-nodejs/casper_rust_wasm_sdk.js:39-42 | growth keeps the bytes, detaches the old buffer, and leaves every cached view detached or current |
| WasmMemory.Wasm.Malloc | blockchain-application/pkg-nodejs/casper_rust_wasm_sdk.js:65-72 | the allocator's contract: a region at a non-null aligned address, apart from all others, which are kept with their bytes; the address is the signed result read unsigned |
| WasmMemory.Wasm.Realloc | blockchain-application/pkg-nodejs/casper_rust_wasm_sdk.js:88-93 | the region moves or stays, at a non-null aligned address, with its first bytes, and all others are kept |
| WasmMemory.MoveKeeps | blockchain-application/pkg-nodejs/casper_rust_wasm_sdk.js:88-93 | moving a region into cells only it used keeps every other region, overlap of old and new place included |
| WasmMemory.UnsignedAddress | blockchain-application/pkg-nodejs/casper_rust_wasm_sdk.js:65-72 | the unsigned reading of a signed 32-bit number |
| WasmMemory.WordIsLittleEndian | blockchain-application/pkg-nodejs/casper_rust_wasm_sdk.js:543-550 | a 32-bit number lies in memory with its lowest byte first |
| StringMarshalling.PassEncoded | blockchain-application/pkg-nodejs/casper_rust_wasm_sdk.js:63-69 | the simple path leaves a new region that holds exactly the encoding |
| StringMarshalling.CopyAscii | blockchain-application/pkg-nodejs/casper_rust_wasm_sdk.js:76-82 | the loop copies the longest ASCII prefix and touches nothing else |
| StringMarshalling.EncodeString | blockchain-application/pkg-nodejs/casper_rust_wasm_sdk.js:48-59 | both encoders write the encoding, and only that, at the start of the view |
| StringMarshalling.RoomSuffices | blockchain-application/pkg-nodejs/casper_rust_wasm_sdk.js:88-90 | with three bytes per code unit either encoder writes everything |
| StringMarshalling.FillingMoved | blockchain-application/pkg-nodejs/casper_rust_wasm_sdk.js:88-93 | a realloc keeps the prefix already written and everything older |
| StringMarshalling.PassStringToWasm0 | blockchain-application/pkg-nodejs/casper_rust_wasm_sdk.js:61-98 | for every string, on either path, the result is a non-null address below 2^32 of a new region of exactly the encoding's length that holds the encoding, the shared length is that length, and all older regions are kept; it fails only where the allocator traps |
| StringMarshalling.PassedBytesLieAt | blockchain-application/pkg-nodejs/casper_rust_wasm_sdk.js:61-98 | byte i of the encoding lies at the passed address plus i |
| StringArguments.PathsAgree | blockchain-application/pkg-nodejs/casper_rust_wasm_sdk.js:61-98 | the path with realloc and the one without leave the same length and the same bytes |
| StringArguments.GetStringFromWasm0 | blockchain-application/pkg-nodejs/casper_rust_wasm_sdk.js:117-120 | reads the clamped subarray of the current memory through the strict decoder |
| StringArguments.SubarrayIsClamped | blockchain-application/pkg-nodejs/casper_rust_wasm_sdk.js:117-120 | for every address and length the bytes read are those between the two ends that lie in memory |
| StringArguments.PassThenRead | blockchain-application/pkg-nodejs/casper_rust_wasm_sdk.js:61-120 | a string that was passed, looked up as the reader does by the address converted to 32 bits and a clamped subarray, decodes with unpaired surrogates replaced, hence unchanged exactly when well-formed |
| StringArguments.PassAndRead | blockchain-application/pkg-nodejs/casper_rust_wasm_sdk.js:61-120 | passing and then reading, for every string, the empty one included: the reader never throws and returns the sanitized string, and the only failure is a trap in the allocator |
| StringArguments.DeliveredExtends | blockchain-application/pkg-nodejs/casper_rust_wasm_sdk.js:2402-2411 | one more argument disturbs none of the earlier ones and shares memory with none |
| StringArguments.NewDeployStrParams | blockchain-application/pkg-nodejs/casper_rust_wasm_sdk.js:2401-2412 | when the call is made every present argument's address is not null and denotes, with its length, its encoding, apart from the others; a null address means exactly that the argument is absent, and goes with the length last stored |
| ArrayMarshalling.PassArrayJsValueToWasm0 | blockchain-application/pkg-nodejs/casper_rust_wasm_sdk.js:552-560 | for every array and table, the objects are bound to new, different handles, which the reader finds, modulo 2^32 and in order, at an aligned address; older regions and handles are kept |
| ArrayMarshalling.HandleBytes | blockchain-application/pkg-nodejs/casper_rust_wasm_sdk.js:552-560 | each passed handle lies in memory as four bytes, the lowest first, one handle after the other |
| ArrayMarshalling.GetArrayJsValueFromWasm0 | blockchain-application/pkg-nodejs/casper_rust_wasm_sdk.js:562-571 | for every address and length, returns what the handles in the clamped subarray stand for, in order, and unbinds exactly them |
| ArrayMarshalling.ReadIsClamped | blockchain-application/pkg-nodejs/casper_rust_wasm_sdk.js:562-566 | for every address and length the handles read are the numbers between the two ends that lie in memory |
| ArrayMarshalling.PassThenTake | blockchain-application/pkg-nodejs/casper_rust_wasm_sdk.js:552-571 | taking exactly the handles that were stored returns the same sequence, duplicates included, and restores the live handles with their objects |
| ArrayMarshalling.PassAndTake | blockchain-application/pkg-nodejs/casper_rust_wasm_sdk.js:552-571 | passing and then taking back, for every array, the empty one included: the same sequence comes back, the live handles and the older regions are what they were, and the only failure is a trap in the allocator |
| ArrayMarshalling.HandlesExtend | blockchain-application/pkg-nodejs/casper_rust_wasm_sdk.js:555-557 | writing the next handle leaves the ones before it readable |
| Closures.StepKeepsInv | blockchain-application/pkg-nodejs/casper_rust_wasm_sdk.js:187-216 | every step keeps the count equal to the running calls plus one while Rust has not dropped, and the environment's address in one place |
| Closures.ReleasedAtMostOnce | blockchain-application/pkg-nodejs/casper_rust_wasm_sdk.js:187-216 | in every run at most one event releases the environment, and no later call is given a non-null address |
| Closures.ReleasedExactlyWhenDone | blockchain-application/pkg-nodejs/casper_rust_wasm_sdk.js:187-216 | when no call is running, the environment has been released exactly if Rust dropped the closure or the finaliser ran |
| Closures.EnvironmentIsExclusive | blockchain-application/pkg-nodejs/casper_rust_wasm_sdk.js:195-212 | only the outermost call can have the environment, nested calls get null, and it is not released meanwhile |
| Closures.CallIsGiven | blockchain-application/pkg-nodejs/casper_rust_wasm_sdk.js:195-203 | in every run a call is given the environment exactly if no other call is running and nothing has released it, otherwise null |
| Closures.NeverStranded | blockchain-application/pkg-nodejs/casper_rust_wasm_sdk.js:187-191 | with a registry, an environment that Rust gave up without a drop can always still be finalised, which releases it |
| Closures.NotFinalisedAgain | blockchain-application/pkg-nodejs/casper_rust_wasm_sdk.js:204-207 | after a call has run the destructor and unregistered, or the finaliser has run, no finaliser runs |
| Closures.MutClosure.Enter | blockchain-application/pkg-nodejs/casper_rust_wasm_sdk.js:195-203 | the method computes the call step: what is passed, what is saved |
| Closures.MutClosure.Leave | blockchain-application/pkg-nodejs/casper_rust_wasm_sdk.js:204-211 | the method computes the return step and says whether the destructor is called |
| Closures.MutClosure.Unregister | blockchain-application/pkg-nodejs/casper_rust_wasm_sdk.js:207 | the step after the destructor, which may itself have called the closure |
| Closures.MutClosure.CallbackDrop | blockchain-application/pkg-nodejs/casper_rust_wasm_sdk.js:10296-10304 | answers true exactly when Rust is to release the environment |
| Closures.MutClosure.Finalised | blockchain-application/pkg-nodejs/casper_rust_wasm_sdk.js:187-191 | the finaliser's step |
| Ownership.StepKeepsInv | blockchain-application/pkg-nodejs/casper_rust_wasm_sdk.js:591-616 | every event keeps each issued pointer in one place and the registry in step with the wrappers |
| Ownership.PointersAreLinear | blockchain-application/pkg-nodejs/casper_rust_wasm_sdk.js:591-616 | in every run no pointer goes back twice; each is held by a wrapper, given back or lost, and only one of these; the registry holds only pointers their wrappers own |
| Ownership.CollectedIsGivenBack | blockchain-application/pkg-nodejs/casper_rust_wasm_sdk.js:591-604 | in every run a wrapped pointer stays in the registry as long as its wrapper holds it, and collecting the wrapper gives back exactly that pointer; the pointer of a public constructor is lost |
| Ownership.FreeGives | blockchain-application/pkg-nodejs/casper_rust_wasm_sdk.js:606-616 | freeing gives back exactly the pointer, loses none, and leaves null and no entry behind |
| Ownership.BorrowedIsOwned | blockchain-application/pkg-nodejs/casper_rust_wasm_sdk.js:1738-1742 | a borrowing method passes null or a pointer that this wrapper alone owns |
| Ownership.SecondUseIsNull | blockchain-application/pkg-nodejs/casper_rust_wasm_sdk.js:1418-1464 | a wrapper passed twice by value to one call is null the second time |
| Ownership.TakenIsNull | blockchain-application/pkg-nodejs/casper_rust_wasm_sdk.js:1847-1853 | once a call has taken its arguments by value none was of another class and the wrappers given hold null, so whatever it passes by reference afterwards is null if it is one of them |
| Ownership.TakenInFull | blockchain-application/pkg-nodejs/casper_rust_wasm_sdk.js:1455-1464 | a call by value is made exactly if no argument is of another class; each argument is passed as the pointer its wrapper had, or 0 if it is absent or came before; just the wrappers taken lose pointer and entry |
| Ownership.ConsumeGivesOrLoses | blockchain-application/pkg-nodejs/casper_rust_wasm_sdk.js:1455-1464 | the pointers taken are given if the call is made and lost if it is not |
| Ownership.LosingKeepsInv | blockchain-application/pkg-nodejs/casper_rust_wasm_sdk.js:1749-1757 | when a later argument is of the wrong class, the pointers taken before it are lost, not given |
| Ownership.Exports.TakeArg | blockchain-application/pkg-nodejs/casper_rust_wasm_sdk.js:5884-5889 | the next argument: an instance surrenders its pointer, an absent optional one passes 0 and touches nothing, one of another class ends the call |
| Ownership.Exports.Wrapped | blockchain-application/pkg-nodejs/casper_rust_wasm_sdk.js:598-604 | the new wrapper holds the pointer, the registry has it under that wrapper, and the step is the one of the runs |
| Ownership.Exports.Constructed | blockchain-application/pkg-nodejs/casper_rust_wasm_sdk.js:676-687 | the new wrapper holds the pointer and the registry does not change |
| Ownership.Exports.Collected | blockchain-application/pkg-nodejs/casper_rust_wasm_sdk.js:591-593 | the callback of the registry gives back the registered pointer; without an entry the pointer is lost |
| Ownership.Exports.DestroyIntoRaw | blockchain-application/pkg-nodejs/casper_rust_wasm_sdk.js:606-611 | returns the wrapper's pointer, leaves null in it and removes its entry |
| Ownership.Exports.Freed | blockchain-application/pkg-nodejs/casper_rust_wasm_sdk.js:613-616 | gives back the wrapper's pointer, loses none, leaves null and no entry |
| Ownership.Exports.TakeThree | blockchain-application/pkg-nodejs/casper_rust_wasm_sdk.js:1455-1464 | takes three arguments in order, or stops at the first of another class |
| Ownership.Exports.Unwrapped | blockchain-application/pkg-nodejs/casper_rust_wasm_sdk.js:2572-2577 | 0 for anything else, otherwise the wrapper's pointer, and the wrapper holds null afterwards |
| FindModels.AddNamedTables | superset-setup/scripts/benchmark_migration.py:80-89 | collects exactly the table names found at any depth of lists and dictionaries |
| FindModels.CollectModels | superset-setup/scripts/benchmark_migration.py:99-116 | ends on every schema and collects, once each, exactly the mapped tables reachable along foreign keys |
| FindModels.Dependencies | superset-setup/scripts/benchmark_migration.py:121-129 | the sorter is given exactly the foreign keys between different tables |
| TopologicalSort.StaticOrder | superset-setup/scripts/benchmark_migration.py:130 | an order with predecessors first, which exists exactly when there is no cycle |
| TopologicalSort.StuckHasCycle | superset-setup/scripts/benchmark_migration.py:130 | nodes that all wait for one another contain a cycle |
| TopologicalSort.OrderedIsAcyclic | superset-setup/scripts/benchmark_migration.py:130 | a graph with such an order has no cycle |
| FindModels.OrderableIffAcyclic | superset-setup/scripts/benchmark_migration.py:121-130 | the sorter's graph is acyclic exactly when the reachable mapped tables have no circle of foreign keys between different tables |
| FindModels.TwoTablesInACircle | superset-setup/scripts/benchmark_migration.py:121-130 | that happens: two tables that refer to each other have no order |
| FindModels.SelfReferenceIsNoCircle | superset-setup/scripts/benchmark_migration.py:121-129 | a table that refers to itself alone can be ordered |
| FindModels.SortedByPosition | superset-setup/scripts/benchmark_migration.py:131 | sorting by position in the order puts every dependency strictly earlier |
| FindModels.FindModels | superset-setup/scripts/benchmark_migration.py:73-133 | each reachable mapped table once, after every other mapped table its foreign keys name; fails exactly on a circle |
| StableSort.SortedIsOrdered | superset-setup/scripts/benchmark_migration.py:131 | the sort is an ordered permutation |
| StableSort.SortedIsStable | superset-setup/scripts/cancel_github_workflows.py:204-205 | elements that compare equal keep their order |
| StableSort.StableSortIsUnique | superset-setup/scripts/benchmark_migration.py:131 | an ordered result in which elements that compare equal keep their order is this one, so nothing said about it depends on the algorithm |
| Tasklist.PrintTasklist | superset-setup/scripts/generate_frontend_ts_tasklist.js:41-75 | the loop ends; it prints the lines of the visited directories in the order of the visits, and both are those of the recursive preorder walk |
| Tasklist.WalkChildren | superset-setup/scripts/generate_frontend_ts_tasklist.js:68-73 | pushing the children in reverse makes them come out in the order of the listing |
| Tasklist.VisitedOnce | superset-setup/scripts/generate_frontend_ts_tasklist.js:43-45 | no directory is visited twice, from starting directories with different names |
| Tasklist.ScriptVisitsOnce | superset-setup/scripts/generate_frontend_ts_tasklist.js:26-45 | the script itself visits no directory twice |
| Tasklist.VisitedExactly | superset-setup/scripts/generate_frontend_ts_tasklist.js:68-73 | from any stack of starting directories, a path is visited exactly when it is an existing directory below one the loop gets to, with no node_modules in between; the loop gets to a starting directory when it and all above it on the stack exist |
| Tasklist.WalkEnds | superset-setup/scripts/generate_frontend_ts_tasklist.js:43-45 | the loop ends without an exception exactly when every starting directory exists |
| Tasklist.ScriptVisitsExactly | superset-setup/scripts/generate_frontend_ts_tasklist.js:26-75 | the script, where its three directories exist, visits exactly what is kept below them |
| Tasklist.VisitedParentFirst | superset-setup/scripts/generate_frontend_ts_tasklist.js:41-75 | from starting directories with different names, no directory is visited after one that lies below it |
| Tasklist.VisitedInStackOrder | superset-setup/scripts/generate_frontend_ts_tasklist.js:41-44 | likewise, everything below a starting directory is visited before anything below one deeper in the stack |
| Tasklist.VisitedInListingOrder | superset-setup/scripts/generate_frontend_ts_tasklist.js:68-73 | likewise, of two entries of any directory, everything below the one listed first is visited before anything below the other |
| Tasklist.PrintedInOrder | superset-setup/scripts/generate_frontend_ts_tasklist.js:41-66 | the output is the lines of the visited directories, one after the other |
| Tasklist.HasExtensionIff | superset-setup/scripts/generate_frontend_ts_tasklist.js:34-39 | the search for extensions finds exactly the names that end in one of them |
| Tasklist.LineShowsDepthAndMark | superset-setup/scripts/generate_frontend_ts_tasklist.js:46-66 | a line is printed exactly if some name ends in .js, .jsx, .ts or .tsx: two blanks for each level, an open box exactly if a name ends in .js or .jsx, and the path in backquotes |
| CancelRuns.KeyInjective | superset-setup/scripts/cancel_github_workflows.py:220 | the text key tells runs apart exactly as event, branch and workflow do, except a missing branch from one called None |
| CancelRuns.MissingBranchCollides | superset-setup/scripts/cancel_github_workflows.py:220 | that exception happens |
| TextOrder.TextLeIsNotAfter | superset-setup/scripts/cancel_github_workflows.py:205 | the order on texts: one begins the other, or is smaller where they first differ |
| TextOrder.DatesInOrder | superset-setup/scripts/cancel_github_workflows.py:205 | two days compare as they follow each other |
| CancelRuns.SelectSuperseded | superset-setup/scripts/cancel_github_workflows.py:217-231 | the loop selects, in order, the runs that a later run of the same key supersedes |
| CancelRuns.KeptIsLast | superset-setup/scripts/cancel_github_workflows.py:216-224 | the survivor is the last of its group in the sorted order |
| CancelRuns.CancelsAllButNewest | superset-setup/scripts/cancel_github_workflows.py:204-231 | the cancelled runs are the found ones minus one survivor per key, oldest first, and every found run has a survivor of its key created no earlier |
| CancelRuns.Cancelled | superset-setup/scripts/cancel_github_workflows.py:204-231 | the found runs are split into cancelled and kept, the cancelled oldest first; with include-last none is kept, else one per key, and every found run has a kept one of its key created no earlier |
| CancelRuns.OlderOfTwoIsCancelled | superset-setup/scripts/cancel_github_workflows.py:204-231 | of two runs of one key the one created first is cancelled, in whatever order they were found |
| RoundRobin.SpecList | superset-setup/scripts/cypress_run.py:147-160 | the group of a worker is the entries at positions congruent to its id; otherwise which exception is raised |
| RoundRobin.EntryOfGroup | superset-setup/scripts/cypress_run.py:154-156 | entry j of group g is file number j * P + g |
| RoundRobin.Interleaved | superset-setup/scripts/cypress_run.py:154-156 | file number i is entry i / P of group i % P, so interleaving rebuilds the list |
| RoundRobin.SizesDifferByAtMostOne | superset-setup/scripts/cypress_run.py:153-156 | group sizes differ by at most one |
| RoundRobin.SortedFiles | superset-setup/scripts/cypress_run.py:150-151 | the distributed files are all the files, each no later in the alphabet than the ones behind it |

## Left out

- Malloc, Realloc: only the contract of the compiled allocator; which place it picks, and when it grows or traps, is left open. The model never frees.
- JsString: strings are as long as V8 allows, so that no size passed to the allocator exceeds 32 bits.
- PassArrayJsValueToWasm0: the handles must take less than the 4 GiB of a 32-bit size; the source does not check this either, and no region at a non-null address could be larger (`RegionsAreSmaller`).
- PassAndTake: asks that the object table stays within 2^32 cells, since a handle stored in wasm has 32 bits; beyond that the handles are read back modulo 2^32, as PassArrayJsValueToWasm0 states.
- Bytes outside the allocated regions: nothing is claimed about them after a call into wasm.
- GetStringFromWasm0: lengths are natural numbers; a length that wasm hands over as a negative number is not modelled.
- Dropping a handle beyond the end of the table, which makes the JavaScript array sparse.
- Closures: the second pointer and the destructor's index are passed along unchanged and are not modelled; nor is a second drop of the same closure, which Rust does not make.
- Ownership: reused addresses count as new pointers; what the roughly 70 wrapper classes do besides owning a pointer; absence of leaks, which does not hold: public constructors register nothing, and a failed class test drops the pointers taken before it.
- passArray8ToWasm0: like the simple string path, without the encoding.
- Everything behind `wasm.*`: hashing, signing, deploy construction and network calls.
- `debugString`, the fetch, stream and Promise shims, the type declarations.
- AddNamedTables: values are finite trees; a list that contains itself would keep the original loop from ending.
- StaticOrder: Kahn's algorithm with an open choice among the nodes that are ready; the order Python's sorter gives to independent nodes, and the order in which a set gives up its elements, are left open.
- The regular expressions that find modified tables in a script's source, database access, timing, prompts and the clean-up order of `benchmark_migration.py`.
- `list_runs`, whose loop can stop before the last page, and the requests that cancel a run.
- The retries of `cypress_run.py` and the search for test files.
- Symbolic links in a directory listing count as files, as `isDirectory` has it.
