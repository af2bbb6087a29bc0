# A verified model of Yaf and of the PHP tools beside it

The project models four independent parts of the repository and proves what they are for.

**The thread-safe resource manager** (`php-7.1.3/TSRM`). A hash table of linked per-thread entries, a
growing table of resource types and a thread-local pointer that short-cuts the locked lookup.
`TsrmMemory.dfy` holds entries, blocks and the ledger of allocations, constructor and destructor calls
and frees; `TsrmTable.dfy` the operations as functions and the invariants they keep; `TsrmRuns.dfy`
threads as interleaved steps, where a mutex-protected body is one step and the read behind it another;
`TsrmManager.dfy` the same operations as loops over linked nodes that are updated in place, each proved
equal to its function. The invariants of every reachable state are: an entry stands in the bucket its
thread hashes to, no thread twice; chains are acyclic and disjoint; a linked entry has as many slots as
there are ids, and a slot is empty exactly when its id is done; a block is held at most once and its
calls so far are those its state allows. The count of an entry is the length of its storage.

**INI configuration** (`configs/yaf_config_ini.c`). `IniKeys.dfy` reads texts as keys, once as storing
does and once as looking up does; `IniTree.dfy` has the trees as values: the merge, the assignment to a
dotted key, the lookup; `IniParser.dfy` the callbacks and inheritance on values,
`IniEarlyStop.dfy` the early stop. The same is then done on arrays that are shared by reference and
counted: `IniHeap.dfy` has the cells, their invariants and the writes of an entry, `IniShare.dfy` what
copying by reference, releasing and local variables do to the counts, `IniArrays.dfy` the class with the
merge, the entries and the destructor, `IniReader.dfy` the callbacks over a whole file. In every state
the count of an array is the number of slots and variables that refer to it, no array is left without a
reference, and every array has a value. `IniHeader.dfy` has the in-place scan of
`[child : p1 : ... : pn]`.

**The line diff** (`php-7.1.3/run-tests.php`). `LineDiff.dfy` has the bounded heuristic and the script
that is right whatever the heuristic says, `LineDiffShortest.dfy` how short the script is and how far the
heuristic sees, `LineDiffText.dfy` the printed text and how to read it.

**Routing and dispatch**. `Strtok.dfy` has the tokenizer on a byte buffer, `Router.dfy` the parameters
and the search through the routes, `RouteMap.dfy`, `RouteStatic.dfy` and `RouteRewrite.dfy` the three
routes with their printing, `RequestNames.dfy` the spelling of names, `Dispatcher.dfy` one request
with hooks, forwards and exceptions, `DispatcherRuns.dfy` what its calls see of the request,
`Loader.dfy` the local namespaces.

Where a promise does not hold of the code, the exact condition is proved, and an instance shows the
failure:

- an assignment to a path that holds an array is dropped, and a segment such as `007` is stored under
  one key and looked up under another (`IniTree.SetThenGet`; `IniTree.AssignmentToArrayIsDropped`,
  `IniTree.LeadingZerosAreLost`);
- early stop and full parse differ when a header behind the one that opens the wanted section names it
  again (`IniEarlyStop.EarlyStopExactly`; `IniEarlyStop.RepeatedSectionDiffers`);
- the fast path disagrees with the table after exactly three kinds of step, for a thread and for all
  threads (`TsrmRuns.SettledStep`, `TsrmRuns.FastPathStep`; `TsrmRuns.ForeignFetchMisleadsCaller`,
  `TsrmRuns.FreedWorkerDangles`);
- a module name that is not registered does not survive printing and routing
  (`RouteStatic.StaticRoundTrip`, `RouteStatic.StaticRoutesBack`; `RouteStatic.UnregisteredModuleIsLost`);
- the namespace scan takes a doubled prefix for the prefix (`Loader.ScanExactly`,
  `Loader.ScanIsMembership`, `Loader.LocalExactly`; `Loader.DoubledPrefixIsTaken`);
- a line behind more than ten new lines may be reported as missing and new at once
  (`LineDiffShortest.NewBlockIsItsLines`; `LineDiffShortest.LongBlockHidesLastLine`);
- names with empty pieces or slashes do not survive the map route (`RouteMap.MapRoundTrip`;
  `RouteMap.EmptyPieceIsLost`);
- fixing names is not idempotent for defaults in another spelling
  (`RequestNames.FixDefaultIdempotent`; `RequestNames.StoredDefaultIsRespelt`).

Strings are sequences of bytes without NUL, as C sees them; letter case is that of ASCII. Hash tables
are maps, except where their order shows in the output: there they are sequences of pairs. Oracles
stand for code of the application: constructors and destructors appear as calls in the ledger, plugins,
routers, controllers and actions as arbitrary functions of everything that happened so far.

## Model

| member | source | states |
|---|---|---|
| `TsrmTable.AllocIdInv` | php-7.1.3/TSRM/TSRM.c:219-271 | Registering an id keeps every invariant and gives each linked entry exactly one new slot at the end, with a block of its own; all older slots stay as they are |
| `TsrmTable.AllocIdRegisters` | php-7.1.3/TSRM/TSRM.c:219-271 | The new id gets exactly the size, constructor and destructor of the call, older ids stay, and every linked entry gets a new block of that size in the new slot, on which the constructor ran exactly if one was given |
| `TsrmTable.AddThreadInv` | php-7.1.3/TSRM/TSRM.c:274-311 | A new entry keeps every invariant, is what a search for its thread then finds, and sets the TLS pointer of the calling thread, even when the entry is for another one |
| `TsrmTable.FetchRetried` | php-7.1.3/TSRM/TSRM.c:357-370 | After the allocation the retried fetch is a fetch of an existing entry with the same outcome, so one retry is enough when nobody interferes |
| `TsrmTable.FreeIdInv` | php-7.1.3/TSRM/TSRM.c:537-562 | Freeing an id empties its slot in every linked entry, marks it done, touches nothing else, and keeps every invariant |
| `TsrmTable.FreeThreadInv` | php-7.1.3/TSRM/TSRM.c:449-487 | Freeing a thread removes exactly its entry from the table, clears its TLS pointer and keeps every invariant |
| `TsrmTable.FreeWorkersInv` | php-7.1.3/TSRM/TSRM.c:491-533 | Freeing the workers removes exactly the other threads' entries in the caller's own bucket; all other entries, addresses and TLS pointers stay |
| `TsrmTable.FreeWorkersByHash` | php-7.1.3/TSRM/TSRM.c:491-533 | A worker loses its entry exactly if it is not the caller and its thread id leaves the same remainder by the table size; every other thread's entry is found as before |
| `TsrmTable.ShutdownBuries` | php-7.1.3/TSRM/TSRM.c:169-200 | Shutdown completes the life of every block whose holders are linked: constructed once, destroyed once if its type has a destructor, freed once, in this order |
| `TsrmTable.ShutdownLeaves` | php-7.1.3/TSRM/TSRM.c:169-214 | Behind shutdown the tables are gone, no linked entry is left, the caller has no TLS pointer, and every other thread that was on a linked entry holds a dangling one |
| `TsrmMemory.ClearSlotInv` | php-7.1.3/TSRM/TSRM.c:551-557 | Destroying and freeing the block of one slot keeps the ledger: nothing is freed twice, no freed block is held |
| `TsrmMemory.ReleaseBuries` | php-7.1.3/TSRM/TSRM.c:462-471 | Evicting an entry gives each of its blocks its last calls once, destructors before frees, and no other block any |
| `TsrmMemory.ShutEntryBuries` | php-7.1.3/TSRM/TSRM.c:181-190 | The same for the entry loop of shutdown, which skips destructors of ids that were freed |
| `TsrmRuns.RunsKeepInv` | php-7.1.3/TSRM/TSRM.c:219-567 | Every interleaving of fetches (search and read as separate steps), allocations, frees and context calls keeps the heap, table and ledger invariants |
| `TsrmRuns.AddrStep` | php-7.1.3/TSRM/TSRM.c:336-382 | One step changes where a thread's entry is found exactly when it evicts that thread |
| `TsrmRuns.SlotStep` | php-7.1.3/TSRM/TSRM.c:247-266 | One step empties a held slot exactly when it frees the id or evicts the thread; otherwise the slot keeps its block |
| `TsrmRuns.PointerIsStable` | php-7.1.3/TSRM/TSRM.c:336-345 | Over any run, the slot of a thread and id still holds the pointer first obtained if and only if no step of the run removed it |
| `TsrmRuns.BlocksAreNotShared` | php-7.1.3/TSRM/TSRM.c:257-301 | Over any run, two different pairs of thread and id never hold the same block |
| `TsrmRuns.BlocksAreConserved` | php-7.1.3/TSRM/TSRM.c:169-200 | Over any run from startup ending in shutdown, every block is constructed once, destroyed once and freed once, as its type asks, unless an unfreed interpreter context still holds it |
| `TsrmRuns.RunRegisters` | php-7.1.3/TSRM/TSRM.c:219-244 | Over any run, the k-th id registered in it has the size, constructor and destructor that the k-th registration asked for, and the table of types grows only when it is full |
| `TsrmRuns.BlocksAreAsRegistered` | php-7.1.3/TSRM/TSRM.c:242-263 | Over any run from startup, the history of every block is what its registration asked for: allocated with that size, constructed if a constructor was given, and, once it is taken away, at the latest by shutdown, destroyed if a destructor was given, and freed |
| `TsrmRuns.OnlyContextsAreUnlinked` | php-7.1.3/TSRM/TSRM.c:430-445 | In runs without new contexts every entry is linked, so that conservation covers every block |
| `TsrmRuns.FastPathStep` | php-7.1.3/TSRM/TSRM.c:331-345 | A step makes some TLS pointer disagree with the locked search if and only if it is one of three: allocating for another thread, evicting a worker, installing a foreign context |
| `TsrmRuns.SettledStep` | php-7.1.3/TSRM/TSRM.c:330-382 | After a step a thread's TLS pointer and its place inside a fetch agree with the table if they did before, unless the step is one of three, and then they do not: only the thread's own foreign fetch, its own change of context, and its eviction unsettle it, whatever other threads do |
| `TsrmRuns.CalmRunsStaySettled` | php-7.1.3/TSRM/TSRM.c:336-382 | So they agree after any run in which none of the three happens to this thread; other threads are not restricted at all |
| `TsrmRuns.UninterruptedFetch` | php-7.1.3/TSRM/TSRM.c:315-386 | Call, search (once, or with the allocation twice) and read by one thread without interruption are the fetch that the manager computes: same memory, same result |
| `TsrmRuns.FetchAgreesWithTable` | php-7.1.3/TSRM/TSRM.c:330-382 | In a run that is calm for the thread, whatever the others do, its unlocked read returns what the locked search would, and never reads a freed entry |
| `TsrmRuns.FetchTwice` | php-7.1.3/TSRM/TSRM.c:330-345 | Two fetches of one id by one thread return the same pointer in every interleaving that is calm for this thread and does not remove the slot in between |
| `TsrmRuns.RetryFinds` | php-7.1.3/TSRM/TSRM.c:357-370 | After the allocating search the retry finds the new entry, whatever other threads did, unless one evicted it |
| `TsrmRuns.ForeignFetchMisleadsCaller` | php-7.1.3/TSRM/TSRM.c:289-289 | A fetch for another, unknown thread leaves the caller with that thread's entry on its fast path |
| `TsrmRuns.FreedWorkerDangles` | php-7.1.3/TSRM/TSRM.c:503-524 | Freeing the workers leaves an evicted worker's TLS pointer on freed memory |
| `TsrmManager.Manager.constructor` | php-7.1.3/TSRM/TSRM.c:124-165 | The constructed tables represent the empty state of startup |
| `TsrmManager.Manager.AllocateId` | php-7.1.3/TSRM/TSRM.c:219-271 | The loops over buckets, chains and slots do to the linked nodes what the specification of registering an id does; the mutex is taken and released |
| `TsrmManager.Manager.FreeRsrcId` | php-7.1.3/TSRM/TSRM.c:537-567 | The in-place loop over all chains refines freeing an id; the mutex is balanced |
| `TsrmManager.Manager.AllocateNewResource` | php-7.1.3/TSRM/TSRM.c:274-311 | Linking and filling a new node in place refines adding a thread, and releases the mutex its caller took |
| `TsrmManager.Manager.ResourceEx` | php-7.1.3/TSRM/TSRM.c:315-386 | The fetch with its fast path, search, allocation and recursion refines the specified fetch and returns its result; the mutex is free on every path |
| `TsrmManager.Manager.FreeThreadResources` | php-7.1.3/TSRM/TSRM.c:449-487 | Finding, destroying and unlinking the own node refines freeing a thread |
| `TsrmManager.Manager.FreeWorkerThreads` | php-7.1.3/TSRM/TSRM.c:491-533 | The unlinking loop over the own bucket refines freeing the workers |
| `TsrmManager.Manager.NewInterpreterContext` | php-7.1.3/TSRM/TSRM.c:430-445 | A context is an unlinked node, and the TLS pointer is put back |
| `TsrmManager.Manager.SetInterpreterContext` | php-7.1.3/TSRM/TSRM.c:412-426 | The TLS pointer is exchanged and the old one returned |
| `TsrmManager.Manager.FreeInterpreterContext` | php-7.1.3/TSRM/TSRM.c:390-410 | Freeing an unlinked node refines releasing its entry |
| `TsrmManager.Manager.ShutdownAll` | php-7.1.3/TSRM/TSRM.c:169-200 | The shutdown loops free every linked node and refine the specified shutdown |
| `Strtok.InCharacterClass` | php-7.1.3/TSRM/tsrm_strtok_r.c:6-15 | The loop answers membership in the delimiter string |
| `Strtok.StrtokR` | php-7.1.3/TSRM/tsrm_strtok_r.c:17-44 | One call returns the first maximal delimiter-free word of the text, writes at most one NUL behind it, and leaves exactly the other words for the next call; none exactly when there is no word |
| `Strtok.WordsOfLed` | php-7.1.3/TSRM/tsrm_strtok_r.c:17-44 | Words printed behind separators are read back as they were |
| `LineDiff.CountArrayDiff` | php-7.1.3/run-tests.php:2214-2254 | The loops and the recursion compute the specified count and terminate for every real budget |
| `LineDiff.CountIsAttained` | php-7.1.3/run-tests.php:2214-2254 | For every budget, fractional ones included, the count is the length of some common subsequence of the two suffixes |
| `LineDiff.CountNeverExceedsLcs` | php-7.1.3/run-tests.php:2214-2254 | So it never exceeds the length of a longest one, which is defined independently |
| `LineDiff.AmpleBudgetIsExact` | php-7.1.3/run-tests.php:2214-2254 | With a budget large enough for the number of lines left, the heuristic equals the longest common subsequence |
| `LineDiff.LcsBoundsMatchings` | php-7.1.3/run-tests.php:2214-2254 | The reference function bounds every common subsequence |
| `LineDiff.LcsIsAttained` | php-7.1.3/run-tests.php:2214-2254 | And some common subsequence reaches it |
| `LineDiff.GenerateArrayDiff` | php-7.1.3/run-tests.php:2256-2321 | The main loop, the merge and the tails compute the specified script with the counts of the heuristic |
| `LineDiff.MergeKeepsSides` | php-7.1.3/run-tests.php:2285-2311 | The merge keeps every record once and the order on either side |
| `LineDiff.BlocksStayTogether` | php-7.1.3/run-tests.php:2285-2311 | Adjacent line numbers of one side come out next to each other |
| `LineDiff.PatchRoundTrip` | php-7.1.3/run-tests.php:2256-2321 | For any counts whatever, deleting the numbered "-" lines and inserting the numbered "+" lines turns the wanted lines into the output lines, up to comp_line; numbers increase on each side and quote their lines |
| `LineDiff.PlainPatchIsExact` | php-7.1.3/run-tests.php:2205-2211 | Outside regex mode the patched text is the output exactly |
| `LineDiff.RecordsQuoteLines` | php-7.1.3/run-tests.php:2271-2320 | Every record quotes the line it numbers; beyond the end of a wanted text that is shorter than the patterns it is empty |
| `LineDiff.ScriptIsNoShorterThanForced` | php-7.1.3/run-tests.php:2256-2321 | No script is shorter than a longest common subsequence forces, and the numbers of kept lines balance |
| `LineDiffShortest.ExactCountsAreShortest` | php-7.1.3/run-tests.php:2264-2283 | With exact counts the script has exactly the length that a longest common subsequence forces |
| `LineDiffShortest.MissingBlockIsItsLines` | php-7.1.3/run-tests.php:2264-2283 | With the counts of the heuristic, up to six adjacent lines missing from the output are exactly the records of the script, in regex mode too |
| `LineDiffShortest.NewBlockIsItsLines` | php-7.1.3/run-tests.php:2264-2283 | Up to ten adjacent new lines of the output are exactly the records of the script |
| `LineDiffShortest.LongBlockHidesLastLine` | php-7.1.3/run-tests.php:2270-2282 | Eleven new lines are too many: a last wanted line that equals none of them is reported as missing, and everything from there on as new, even if the line follows right behind them |
| `LineDiffShortest.SwappedLinesAddFirst` | php-7.1.3/run-tests.php:2270-2304 | Two lines that changed places are one "+" record for the line the output has first and one "-" record for its old place, in this order |
| `LineDiffShortest.OneLineDeleted` | php-7.1.3/run-tests.php:2264-2283 | Outside regex mode one line deleted anywhere is exactly one record, which quotes it |
| `LineDiffShortest.OneLineInserted` | php-7.1.3/run-tests.php:2264-2283 | And so is one line inserted anywhere |
| `LineDiff.EmptyScript` | php-7.1.3/run-tests.php:2256-2321 | The script is empty if and only if the texts agree line by line |
| `LineDiff.ImplodeExplode` | php-7.1.3/run-tests.php:2323-2331 | Joining the exploded lines gives the text back |
| `LineDiffText.GenerateDiff` | php-7.1.3/run-tests.php:2323-2331 | The method returns the text of the script: numbered lines joined by CR LF |
| `LineDiffText.ScriptReadsBack` | php-7.1.3/run-tests.php:2271-2331 | The printed text of any script is read back to the script, in regex mode too |
| `LineDiffText.OutputIsRecoverable` | php-7.1.3/run-tests.php:2323-2331 | From the wanted text and the text of its diff alone the whole output text can be rebuilt |
| `IniKeys.KeysAgree` | configs/yaf_config_ini.c:134-134 | Storing and looking up read a segment alike exactly if it is not an integer in another spelling than its canonical one |
| `IniKeys.SymKeyIs` | configs/yaf_config_ini.c:134-134 | Storing reads a segment as an index exactly if it is how an integer in range is printed, and as that integer; any other text is a name |
| `IniKeys.NumKeyIs` | configs/yaf_config_ini.c:448-466 | Looking up reads a segment as an index exactly if it is blanks, at most one sign, and digits of an integer in range, and as that integer; any other text is a name |
| `IniKeys.WordsArePlain` | configs/yaf_config_ini.c:448-466 | A segment that holds any character besides blanks, signs and digits is read as itself by both |
| `IniArrays.Arrays.DeepCopySection` | configs/yaf_config_ini.c:72-107 | On shared arrays with exact counts the copy computes the right-biased recursive merge: arrays that only one side has are shared, arrays on both sides become a new one, what is overwritten is released; every older array keeps its entries and its value, and the loop ends |
| `IniTree.MergedLeaf` | configs/yaf_config_ini.c:72-107 | Path by path: a scalar of the source wins, what the source does not reach is inherited, arrays at both ends merge |
| `IniTree.GetEntry` | configs/yaf_config_ini.c:420-488 | The lookup loop computes the specified result, including null and the read through a non-array |
| `IniTree.GetIsLookup` | configs/yaf_config_ini.c:443-472 | For segments that both sides read alike, get returns exactly the value that the path leads to, undefined if it leads through a scalar, and null if it leads nowhere |
| `IniTree.GetReads` | configs/yaf_config_ini.c:443-472 | So get answers by what the dotted name leads to; a name of dots only reads nothing, and a name without dots, even an empty one, is one segment |
| `IniTree.SetThenLookup` | configs/yaf_config_ini.c:129-166 | After an assignment the path leads to the value, unless it led to an array: then the tree is unchanged |
| `IniTree.SetThenGet` | configs/yaf_config_ini.c:129-166 | get returns the assigned value, for every value, if and only if every segment is read alike by both, as its characters decide, and the path held no array |
| `IniTree.WordThenGet` | configs/yaf_config_ini.c:129-166 | In particular for every dotted name whose segments start with letters, unless it held an array |
| `IniTree.SetLeavesOthers` | configs/yaf_config_ini.c:129-166 | Every path not prefix-comparable to the assigned one leads where it led before |
| `IniTree.LeadingZerosAreLost` | configs/yaf_config_ini.c:443-472 | An instance of the failure: what is assigned to 007 is not found under 007 |
| `IniTree.AssignmentToArrayIsDropped` | configs/yaf_config_ini.c:149-162 | An instance of the other failure: an assignment to the path of an array changes nothing |
| `IniArrays.Arrays.ParserEntry` | configs/yaf_config_ini.c:117-168 | On shared arrays with exact reference counts, the ENTRY loop with its separations does to the whole configuration what assignment on values does, and keeps the counts exact |
| `IniArrays.Arrays.Segment` | configs/yaf_config_ini.c:133-166 | One round writes only an array with reference count 1, and does one step of the assignment |
| `IniHeap.SeparateArray` | configs/yaf_config_ini.c:148-148 | Separation copies an array if it is shared, keeps the counts exact, changes no value, and leaves an array of the slot's own |
| `IniHeap.PutScalarEffect` | configs/yaf_config_ini.c:141-160 | Writing a scalar behind an unshared path changes the configuration at that path only |
| `IniHeap.PutArrayEffect` | configs/yaf_config_ini.c:135-156 | The same for a new empty array, which continues the unshared path |
| `IniHeap.SeparateEffect` | configs/yaf_config_ini.c:148-148 | The copy is referred to once, the original once less, their elements once more, and all values are as before |
| `IniArrays.Arrays.constructor` | configs/yaf_config_ini.c:347-347 | The empty configuration is one array that only its variable refers to |
| `IniArrays.Arrays.ReleaseSlot` | configs/yaf_config_ini.c:92-104 | A slot that is overwritten gives up its array: what is still referred to keeps its entries and its value, what nothing refers to any more is freed with all it held, and the counts stay exact |
| `IniArrays.Arrays.AddSection` | configs/yaf_config_ini.c:300-300 | The new section takes its slot, an older section of that name is released, the configuration changes at this key only, and the references that lead to the section are the only ones |
| `IniArrays.Arrays.Entries` | configs/yaf_config_ini.c:129-166 | After any number of ENTRY callbacks for one section, every other section is what it was, whatever arrays the two share |
| `IniArrays.Arrays.SelectSection` | configs/yaf_config_ini.c:365-377 | The wanted section becomes the configuration; freeing the rest takes nothing from it |
| `IniReader.Reader.ParseFile` | configs/yaf_config_ini.c:231-316 | Any sequence of SECTION and ENTRY callbacks on the shared arrays shows what the callbacks on values compute |
| `IniReader.Instance` | configs/yaf_config_ini.c:318-382 | A file read from the start gives the section that the run on values selects, or the whole configuration without a wanted section |
| `IniHeader.ScanReadsHeader` | configs/yaf_config_ini.c:247-300 | What the pointer scan of a header finds is the trimmed pieces between its colons, blank ones dropped, for every header |
| `IniHeader.SkipHead` | configs/yaf_config_ini.c:249-252 | The forward loops blank out exactly the leading characters of a class |
| `IniHeader.CutTail` | configs/yaf_config_ini.c:253-259 | The backward loops blank out exactly the trailing ones, and stay in the buffer if something stops them there |
| `IniHeader.CutAt` | configs/yaf_config_ini.c:265-284 | One cut at a colon leaves the two trimmed parts as separate strings |
| `IniReader.Reader.SectionHeader` | configs/yaf_config_ini.c:247-300 | The in-place scan yields the child name, and merges the parents that exist into a new array as it finds them, the last one first, which leaves the configuration as it was; it strictly consumes the header |
| `IniParser.FirstParentWins` | configs/yaf_config_ini.c:274-299 | A scalar of the first parent wins; where it has nothing, the other parents decide |
| `IniParser.MissingParents` | configs/yaf_config_ini.c:274-299 | Parents that do not exist are passed over, wherever they stand among the others |
| `IniParser.BrokenParents` | configs/yaf_config_ini.c:274-299 | A parent that is a scalar makes the merge meaningless exactly if it exists and is no array |
| `IniReader.Reader.SectionCb` | configs/yaf_config_ini.c:239-305 | A SECTION callback opens a section on the shared arrays: its name, its inherited value and the flag are those of the callback on values, and the references that lead to the new section are the only ones |
| `IniReader.Reader.ParserCb` | configs/yaf_config_ini.c:231-316 | The callback steps the globals as specified: section, entry, and the flag |
| `IniEarlyStop.FrozenAtEnd` | configs/yaf_config_ini.c:233-235 | Once the flag is at its end no callback changes anything |
| `IniEarlyStop.RestKeepsSection` | configs/yaf_config_ini.c:231-316 | Once a section is over and no later header names it, the rest of the file, inheriting sections and their entries included, leaves it alone |
| `IniEarlyStop.EarlyStopAgrees` | configs/yaf_config_ini.c:233-304 | From any state, under that condition on the headers, early stop and full parse select the same |
| `IniEarlyStop.EarlyStopExactly` | configs/yaf_config_ini.c:233-304 | For a list of headers, the parse that stops early selects what the full parse selects, for all entries between them, if and only if no header behind the first that names the wanted section up to letter case names it exactly |
| `IniEarlyStop.RepeatedSectionDiffers` | configs/yaf_config_ini.c:240-243 | With a section written twice the two differ |
| `IniKeys.KeysApart` | configs/yaf_config_ini.c:300-300 | Different names are stored under different keys |
| `Router.ParseParameters` | yaf_router.c:154-179 | The token loop computes keys and values in turn |
| `Router.LastKeyWins` | yaf_router.c:163-175 | The last occurrence of a key decides, and a trailing lone key is null |
| `Router.ParsePrinted` | yaf_router.c:154-179 | Parsing printed pairs gives them back, for every list of non-empty slash-free pairs |
| `Router.ParseIsInverse` | yaf_router.c:154-179 | For a map printed in any order, parsing gives the map |
| `Router.BaseIsTakenOff` | routes/yaf_route_static.c:173-178 | A base URI is taken off exactly if it leads the URI up to letter case; otherwise the routes see the whole URI |
| `Router.AskedReadsBack` | routes/yaf_route_static.c:223-246 | A printed query is read back to its pairs, in their order, by a reader that cuts at "&" and at the first "=" |
| `Router.Route` | yaf_router.c:76-108 | The reverse loop asks the routes from the last to the first until one accepts |
| `Router.AskedFromTheLast` | yaf_router.c:76-108 | The current route is the last registered one that accepts the request it sees, and every route behind it refused what it saw, whatever refusing routes change |
| `Router.LastAcceptingRouteWins` | yaf_router.c:76-108 | If refusing routes leave the request alone, that is the last route that accepts the request |
| `RouteMap.Route` | routes/yaf_route_map.c:63-139 | The method cuts at the first delimiter between slashes, joins the segments and stores name and parameters as specified |
| `RouteMap.Assemble` | routes/yaf_route_map.c:157-245 | The method prints the name between slashes and the parameters behind the delimiter, or in query form |
| `RouteMap.JoinedIsPlain` | routes/yaf_route_map.c:100-107 | Joining the pieces of a name gives it back if and only if it has no slash and no empty piece |
| `RouteMap.WordsOfPieces` | routes/yaf_route_map.c:192-200 | Cutting the printed path at slashes is cutting the name at "_" and slashes |
| `RouteMap.DelimStandsBehind` | routes/yaf_route_map.c:83-85 | A slash-free delimiter that the path does not hold is first found behind the path |
| `RouteMap.MapRoundTrip` | routes/yaf_route_map.c:63-245 | route after assemble, with or without a base URI, gives the name back if and only if it is plain, and the whole parameter map, for either preference; a name without any piece leaves the request alone |
| `RouteMap.NameRoundTrip` | routes/yaf_route_map.c:63-245 | The same without parameters |
| `RouteMap.EmptyPieceIsLost` | routes/yaf_route_map.c:100-107 | An instance of the failure: "a__b" comes back as "a_b" |
| `RouteMap.CutBetweenSlashes` | routes/yaf_route_map.c:83-102 | A URI is cut at its first delimiter exactly if that stands behind a slash and in front of a slash or the end; otherwise the whole URI is the name |
| `RouteMap.QueryReadsBack` | routes/yaf_route_map.c:203-240 | Without a delimiter the parameters are printed as a query, which is read back behind the path |
| `RouteMap.OnlyNameAndParams` | routes/yaf_route_map.c:63-139 | The route writes the preferred name and adds parameters; everything else of the request stays |
| `RouteStatic.PathInfoRoute` | routes/yaf_route_static.c:43-163 | The moving pointers take the pieces as specified, in the trimmed buffer |
| `RouteStatic.PathInfoReadsSegments` | routes/yaf_route_static.c:43-145 | For every URI without blanks and every set of modules the scan equals the reading of the segment list |
| `RouteStatic.Route` | routes/yaf_route_static.c:166-185 | The request is updated by what the segment list says |
| `RouteStatic.Assemble` | routes/yaf_route_static.c:189-253 | The method prints module, controller, action and query, and nothing without controller or action |
| `RouteStatic.StaticRoundTrip` | routes/yaf_route_static.c:43-253 | Routing the printed path, with or without a base URI, gives all names back exactly when a supplied module is registered; else every name moves one place |
| `RouteStatic.StaticRoutesBack` | routes/yaf_route_static.c:43-185 | A path of names, keys and values is read as it was written exactly if a supplied module is registered and, without one, keys and values do not follow a controller that is named like a module; then the names arrive in their fields, the pairs are added to the parameters, and nothing else changes |
| `RouteStatic.OneName` | routes/yaf_route_static.c:43-137 | A path of one name names the controller, or the action if actions are preferred and it is no module |
| `RouteStatic.QueryReadsBack` | routes/yaf_route_static.c:189-253 | What is printed is the path of names, and behind it the query, from which the pairs are read back |
| `RouteStatic.WrittenFields` | routes/yaf_route_static.c:140-162 | A found name replaces the one of the request and a missing one leaves it; found parameters are added and win |
| `RouteStatic.UnregisteredModuleIsLost` | routes/yaf_route_static.c:67-145 | An instance of the failure: an unregistered module arrives as the controller |
| `RouteRewrite.PatternText` | routes/yaf_route_rewrite.c:81-113 | The loop emits the text of the compiled pattern |
| `RouteRewrite.CompiledReadsSegments` | routes/yaf_route_rewrite.c:86-108 | A greedy backtracking match of the compiled pattern and the segment-by-segment reading accept the same URIs with the same captures |
| `RouteRewrite.Assemble` | routes/yaf_route_rewrite.c:245-330 | The loop of replacements computes the specified URI |
| `RouteRewrite.ReplaceOne` | routes/yaf_route_rewrite.c:286-296 | Replacing a ":name" changes its own segment only |
| `RouteRewrite.ReplaceGoesOn` | routes/yaf_route_rewrite.c:286-296 | The first occurrence is replaced, and the replacing goes on behind it |
| `RouteRewrite.AssembledNothing` | routes/yaf_route_rewrite.c:259-281 | Nothing is printed exactly if a star finds no entry that no ":name" in front of it is for |
| `RouteRewrite.QueryReadsBack` | routes/yaf_route_rewrite.c:303-328 | The query stands behind what is printed without one, and is read back from there |
| `RouteRewrite.EmittedTextIsRead` | routes/yaf_route_rewrite.c:81-113 | The text emitted for a pattern is read back, as a regular expression of named groups and plain characters, to what the pattern was compiled to |
| `RouteRewrite.RewriteRoundTrip` | routes/yaf_route_rewrite.c:67-330 | For canonical patterns, matching the URI that was printed recovers every named parameter and every pair the star printed |
| `RouteRewrite.RewriteRoutesBack` | routes/yaf_route_rewrite.c:158-214 | So does routing a request with that URI: it is accepted, the values become its parameters, and a module, controller or action configured by ":name" gets the value printed for it |
| `RouteRewrite.Route` | routes/yaf_route_rewrite.c:158-214 | The method refuses or writes the three fields and the parameters as specified |
| `RouteRewrite.RouteWrites` | routes/yaf_route_rewrite.c:158-214 | For every pattern and request: it is accepted exactly if the segments match; then a configured text arrives in its field as it is, ":name" brings the captured part, a field that is not configured or names nothing captured stays, captured parts win over older parameters; a refused request is unchanged |
| `RouteRewrite.BadNamesRefuse` | routes/yaf_route_rewrite.c:94-126 | A pattern that names a part twice, or by a name the expression library refuses, accepts no request |
| `RouteRewrite.ArgsAre` | routes/yaf_route_rewrite.c:129-147 | The parameters of a match are the named parts, and over them the pairs of the remainder |
| `RequestNames.FixController` | yaf_dispatcher.c:231-256 | The in-place loop computes the spelling of a controller name |
| `RequestNames.ControllerCapitals` | yaf_dispatcher.c:240-249 | The length is kept; capitals stand in front and behind an odd number of separators, nowhere else |
| `RequestNames.ControllerIdempotent` | yaf_dispatcher.c:231-256 | Spelling a controller name twice changes nothing |
| `RequestNames.FixDefault` | yaf_dispatcher.c:209-269 | The method fixes the three names as specified |
| `RequestNames.NoNameIsEmpty` | yaf_dispatcher.c:219-269 | With non-empty defaults no name is left empty |
| `RequestNames.GivenNamesKeepLetters` | yaf_dispatcher.c:219-269 | A given name keeps its letters up to case, with capitals in front of a module, in front and behind separators of a controller, and nowhere in an action; a missing one becomes the default |
| `RequestNames.LetterCase` | yaf_dispatcher.c:231-256 | Letter case is that of the 26 ASCII letters |
| `RequestNames.FixDefaultIdempotent` | yaf_dispatcher.c:209-269 | Fixing is idempotent for all names if and only if the defaults are themselves in the fixed spelling |
| `RequestNames.StoredDefaultIsRespelt` | yaf_application.c:213-228 | An instance of the failure: the default controller foo_bar is stored as Foo_bar and fixed again to Foo_Bar |
| `Dispatcher.RequestDispatcher.Dispatch` | yaf_dispatcher.c:861-960 | The method with its do-while loop runs one request as specified, for every plugin, router, controller and action |
| `Dispatcher.RequestDispatcher.HandleAgain` | yaf_dispatcher.c:512-585 | The control skeleton of one handling, with the recursion of a forward from init |
| `Dispatcher.RequestDispatcher.ExceptionHandler` | yaf_dispatcher.c:753-825 | The error path: latch, error controller, default module as a second try; an exception that the request does not take as a parameter stays uncaught |
| `Dispatcher.CheckedGrows` | yaf_exception.h:41-57 | An exception check adds the error path to the calls only if the latch was open, and then at most two handlings |
| `Dispatcher.LoopDid` | yaf_dispatcher.c:918-938 | The loop runs whole rounds, at most as many as the limit, 2^32 for a limit of 0; it ends with the request dispatched or with all rounds used |
| `Dispatcher.RunShape` | yaf_dispatcher.c:861-960 | Every run calls a prefix of the complete sequence of hooks and handlings, then at most once the error path; a response is returned only behind a complete run |
| `Dispatcher.HandlingsAreBounded` | yaf_dispatcher.c:861-960 | One dispatch handles at most limit + 2 times, and at most limit times once the latch is closed |
| `DispatcherRuns.ErrorPath` | yaf_dispatcher.c:753-825 | The error path runs exactly if a catchable exception is in flight, exceptions are caught and it did not run before; it sees the request, asks for the error action of the error controller in the module at hand, and handles once more in the default module exactly if the controller is not found |
| `DispatcherRuns.RouterShutdownSees` | yaf_dispatcher.c:891-902 | Behind the router the names are fixed before the next hook sees them |
| `DispatcherRuns.RoutedOnlyFixed` | yaf_dispatcher.c:907-910 | A request that was routed before calls no router and only gets its names fixed |
| `DispatcherRuns.PostDispatchSees` | yaf_dispatcher.c:928-934 | Behind every handling the names are fixed before the next hook sees them |
| `DispatcherRuns.NoHandlingWithoutNames` | yaf_dispatcher.c:861-960 | With non-empty defaults and plugins that leave the names alone, from the end of routing to the error path no hook and no handling ever sees a request without one of the three names, whatever routers and controllers do |
| `DispatcherRuns.RoundsForward` | yaf_dispatcher.c:919-937 | A further round is only made for a request that is not dispatched |
| `DispatcherRuns.HandlingDecides` | yaf_dispatcher.c:512-580 | One handling succeeds only with a directory, a registered module, a controller that is found and an init that raises nothing; what stops it earlier changes nothing but the exception in flight, a forward from init is handled in its place |
| `DispatcherRuns.ActionDecides` | yaf_dispatcher.c:602-748 | An action without a value fails, false succeeds without rendering, anything else succeeds unless it is rendered and the rendering answers nothing or false |
| `DispatcherRuns.UndisturbedRun` | yaf_dispatcher.c:861-960 | A run in which everything is found and nothing raises or forwards makes one round and returns a response; every call sees the names that the router left, fixed |
| `Loader.NamespaceTable.IsLocalNamespace` | yaf_loader.c:142-202 | The lookup scans as specified and restores the class name byte for byte |
| `Loader.NamespaceTable.RegisterMulti` | yaf_loader.c:400-414 | The loop registers one prefix after the other |
| `Loader.ScanFindsElement` | yaf_loader.c:172-190 | The scan never misses a registered colon-free prefix, although it skips by its length |
| `Loader.ScanExactly` | yaf_loader.c:172-190 | For every colon-free prefix, the scan answers yes exactly for registered prefixes and those that some element ends in twice, counting occurrences from the left without overlap |
| `Loader.ScanIsMembership` | yaf_loader.c:172-190 | For prefixes that do not overlap themselves: the scan answers membership if and only if the prefix is registered or no element ends in it twice |
| `Loader.DoubledPrefixIsTaken` | yaf_loader.c:173-173 | The exception is real: "foofoo" makes "foo" local |
| `Loader.RegisteredIsFound` | yaf_loader.c:383-396 | Whatever is registered before and after it, a registered prefix is found |
| `Loader.ElementsAreRegistered` | yaf_loader.c:383-396 | The elements of the string are exactly the registered prefixes |
| `Loader.LocalExactly` | yaf_loader.c:142-202 | From the start, a class is local exactly if its prefix was registered, or if some element ends in two adjacent counted occurrences of it |
| `Loader.PrefixIs` | yaf_loader.c:153-170 | What is looked up of a class name stands in front of its first "_", without one in front of its first backslash, else it is the whole name |
| `Loader.RegisteredClassIsLocal` | yaf_loader.c:142-202 | A class behind a registered prefix is local, whatever is registered besides |

## Left out

- Zend glue: argument parsing, property tables, reference counts other than those of INI arrays.
- File, template and class loading, path building in `yaf_internal_autoload`, output, sessions, the registry, `yaf_route_regex.c`: I/O, thin wrappers, or foreign patterns.
- TSRM: failing allocations, the thread begin and end handlers, debug output, platform mutex variants, torn reads, and constructors or destructors that call back into the manager. Identities of blocks and entries are per allocation, so the reuse of a freed address is not modelled; a read of a freed entry is a fault.
- TsrmManager.Manager.FreeInterpreterContext: only for contexts that are not linked, as the source asks of its caller; the chain of contexts is one node long, since nothing links contexts.
- POP_ENTRY (`key[] = value`) is not part of this model: it writes without separating, so parents can change with their children, and neither isolation nor early stop is claimed with it.
- IniReader.Reader.SectionHeader: for headers whose scan stays in the buffer; `[::]` and other headers of two or more blanks and colons that start with a colon read the byte in front of it.
- IniReader.Reader.ParserCb: a parent that is a scalar is read as an array by the source; from then on the model says nothing. So it is for a wanted section that is a scalar (`IniReader.Instance`). Strings and their counts are values.
- IniTree.GetEntry: for names without NUL; reads through something that is not an array are reported as undefined.
- RouteMap.Route: the byte in front of the URI buffer, which the source reads when the URI starts with the delimiter, is a parameter.
- RouteRewrite.EmittedTextIsRead: for patterns whose literal tokens hold no character with a meaning in regular expressions; the expression engine is a reader of the emitted shapes and a small greedy backtracking matcher for them, `.` excludes the newline, and group names are at most 32 word characters.
- RouteRewrite.Assemble: values are strings, keys are not empty; a star without an entry left, which the source prints through a null pointer, yields nothing. Printed values must be free of the newline too, which the remainder does not match.
- Dispatcher.RequestDispatcher.HandleAgain: forwards from init are assumed to end; how often one handling forwards is an oracle's number, and the init behind the last one does not forward.
- Dispatcher.RequestDispatcher.Dispatch: call parameters, rendering details, responses and their sending.
- Loader.NamespaceTable.IsLocalNamespace: for class names with a non-empty prefix; with an empty one the source may scan for ever.
- Configured routes (`addConfig`), the match test methods, and request parameters set by hand.
