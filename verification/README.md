# Models of the operating-systems programs

Each program below is modelled after its C source and its behaviour proved for all inputs, all runs or
all interleavings. Sequential code is imperative Dafny proved against functions on values; concurrent
code is a step system whose steps are the accesses to shared data, with an invariant kept by every step.

- **The allocator** of `exercises/ex11`: `Memory` (bytes and 8-byte words), `Blocks` (the arena as a
  sequence of blocks, and what each call does to it), `Layout` (how headers and links lie among the
  bytes), `ArenaRuns` (runs of calls), `WordSizes` (sizes that wrap around), `Allocator` (the code on
  bytes and words), `HeapRuns` (runs on bytes). Every proof about the code goes through one relation, `Layout.Repr`: the words at the
  block headers are the sizes, and the words at the hole payloads are the links of the address-ordered list
  of holes.
- **Counting triangles** in four programs: `Triangles` (by stride over pipes and threads, by last index on
  a GPU), `TrianglesSem` (work handed out under two semaphores, with a test that is not locked) and
  `TrianglesBound` (how many workers are too many).
- **The FAT12 listing** of `exercises/ex18`: `Fat12` (what an image encodes), `FloppyDir` (the walk with
  its shared file position) and `FatWalk` (which images it ends on).
- **Lock protocols**: `OrderedLocks` (one theorem for any threads and any lists), `Kitchen` (its two
  instances), `TakeAll` (the condition variable).
- **The matchmaker**: `Matchmaker` (runs over seats) and `MatchmakerMonitor` (linked players).
- **The cyclic queue** under a spinlock: `CyclicQueue`.
- **Quicksort**: `Quicksort` (what both programs compute), `ArrayQuicksort`, `LinkedQuicksort`,
  `TwoQuicksorts`.
- **Two refinements**: `EditServer` (character buffers as a string with a bounded history) and `Parking`
  (a slot table as a finite map).

`Totals` adds up weights over the threads of a system and is what the counting invariants rest on;
`ExchangeSort` is the sort that the chefs and the parking table share;
`Common` holds bytes, options, distinctness, C strings and some arithmetic.

Choices of form. A call that may fail in the operating system (`mmap`) takes the answer as a parameter.
`mmap` either fails or returns exactly the address asked for. A sequence of steps by one thread is cut
wherever another thread could see the difference. In the step systems `claims` (`TrianglesSem`), `list` and
`cycles` (`CyclicQueue`) are records that no step reads. Where the code and its comments differ the code is
followed: `server.c` accepts a deletion right behind the last character, takes a snapshot for it and
changes nothing else; the code of `floppyDir.c` starts the data region at byte 16896, not at the commented
15872.

Some results say exactly when a program keeps its promise.

- `WordSizes.MallocOnWords`: on 64-bit words malloc replies as it does on unbounded sizes, whatever the
  arena and the system's answers, if and only if the request is at most 2^64 - 8 bytes; a larger one can get
  a block that is too small. `WordSizes.CallocOnWords` is the like for a product that may wrap. Both are
  about arenas of whole pages, of at most `BASE` bytes each.
- `TrianglesBound.OverReadIffCrowded`: some interleaving reads behind `vList` if and only if the values and
  the workers but one exceed 10000. Main could compare them before it posts.
- `CyclicQueue.FaultsIffCrowded`: some interleaving follows a null pointer if and only if there are at least
  as many threads as nodes. Main could compare them before it starts the threads.
- `EditServer.Server.Handle`: a request is served as specified, inside the buffers, if and only if it does
  not insert a terminator, or into a text of 75 characters, or ask for a report of more than 71.
- `FatWalk.EndsIffTree`: the walk of an image ends without failing if and only if the image encodes a finite
  tree.
- `Quicksort.QuickIsTheStableSort`: what the quicksort returns is the stable sort, and nothing else is.

## Model

| member | source | states |
|---|---|---|
| Memory.DecodeEncode | exercises/ex11/myMalloc.c:7-19 | a word written as eight bytes reads back as the same number |
| Memory.StoreLoad | exercises/ex11/myMalloc.c:142-155 | a header or link that is written reads back and every other word and byte range is unchanged |
| Blocks.FirstFit | exercises/ex11/myMalloc.c:31-49 | the search stops at the first hole in address order that is large enough, with nothing suitable before it |
| Blocks.Rounded | exercises/ex11/myMalloc.c:113-119 | a request is rounded to at least a pointer and at least itself, a multiple of four: below 8 bytes to 8, otherwise by less than four bytes |
| Blocks.Pages | exercises/ex11/myMalloc.c:128-133 | pages asked for hold block and header with less than a page to spare |
| Blocks.HoleIndex | exercises/ex11/myMalloc.c:17-22 | the link a node must hold is the address of the next hole in the arena, or null |
| Blocks.AbsorbNextKeeps | exercises/ex11/myMalloc.c:77-105 | absorbing a neighbour keeps the tiling and every live block |
| Blocks.ReleaseKeeps | exercises/ex11/myMalloc.c:56-106 | giving a block back keeps the tiling and takes exactly that block from the live ones |
| Blocks.ReleaseSeparates | exercises/ex11/myMalloc.c:77-105 | after both mergers no two holes are adjacent |
| Blocks.SplitTiles | exercises/ex11/myMalloc.c:148-155 | both parts of a split are large enough to hold a link and the tiling is kept |
| Blocks.CarveKeeps | exercises/ex11/myMalloc.c:146-162 | the end of malloc keeps tiling and separation and leaves one live block of at least the size asked for |
| Layout.MarkLinks | exercises/ex11/myMalloc.c:63-75 | linking or unlinking a block redirects only the links between the last hole before it and the block |
| Layout.AbsorbLinks | exercises/ex11/myMalloc.c:78-88 | skipping the absorbed node leaves every other link as it was |
| Layout.TouchesNextHole | exercises/ex11/myMalloc.c:78-78 | the address test holds exactly when the next block of the arena is a hole |
| Layout.TouchesPredecessor | exercises/ex11/myMalloc.c:97-97 | the address test on the predecessor holds exactly when it is the block right before |
| Layout.SplitUp | exercises/ex11/myMalloc.c:148-155 | writing the two headers of a split keeps the layout and every other live block's bytes |
| Layout.Grown | exercises/ex11/myMalloc.c:138-143 | fresh pages with one header written make one block more and leave all bytes of the others |
| Layout.PayloadWritten | exercises/ex11/myMalloc.c:192-194 | a caller's write into its own block disturbs neither the layout nor any other block |
| ArenaRuns.AllocateKeeps | exercises/ex11/myMalloc.c:108-163 | malloc adds one block of nearly the size asked for to the live ones, or changes nothing and returns null |
| ArenaRuns.AllocateDisjoint | exercises/ex11/myMalloc.c:108-163 | the block handed out overlaps no live block |
| ArenaRuns.AllocateLowest | exercises/ex11/myMalloc.c:27-50 | malloc returns the hole of lowest address with room for the rounded size, the start of fresh pages only if there is none, and null only if those are refused |
| ArenaRuns.DeallocateKeeps | exercises/ex11/myMalloc.c:165-178 | free ends the life of exactly the block named |
| ArenaRuns.ReallocateIs | exercises/ex11/myMalloc.c:200-228 | realloc of a block puts a new one with room for the size asked for, and less than 16 bytes more, in its place, where malloc would, or returns null and changes nothing if there is no room anywhere; of null it is malloc, and to 0 bytes free |
| ArenaRuns.ReallocateRoom | exercises/ex11/myMalloc.c:211-214 | what realloc returns is the address of a block of the size asked for |
| ArenaRuns.HolesFollow | exercises/ex11/myMalloc.c:77-105 | the holes are a function of the live blocks: two well-formed arenas with the same live blocks are equal |
| ArenaRuns.PerformKeeps | exercises/ex11/myMalloc.c:108-228 | one legal call keeps the arena well formed and its live pointers are those the caller holds |
| ArenaRuns.RunKeeps | exercises/ex11/myMalloc.c:108-228 | after any run of legal calls the blocks tile the arena, no holes touch, and no pointer is lost or handed out twice |
| ArenaRuns.FreeAll | exercises/ex11/myMalloc.c:56-106 | freeing everything, in any order, leaves one hole over the whole arena |
| WordSizes.RoundsRight | exercises/ex11/myMalloc.c:113-133 | up to 2^64 - 8 bytes the sizes on words are the unbounded ones, or a request for no pages where those do not fit the address space |
| WordSizes.MallocOnWords | exercises/ex11/myMalloc.c:108-163 | on 64-bit words, with mmap refusing no bytes, malloc replies as on unbounded sizes in every arena and for every answer of the system if and only if the request is at most 2^64 - 8, and then leaves the same arena |
| WordSizes.CallocOnWords | exercises/ex11/myMalloc.c:183-197 | on words, in every arena of whole pages, calloc returns null or a block with room for count * size bytes if and only if the wrapped product is at most 2^64 - 8 and is the product, or pages for it lie beyond the address space even in an empty arena |
| WordSizes.StaysReachable | exercises/ex11/myMalloc.c:127-144 | no legal call leads out of the arenas of whole pages inside the address space |
| Allocator.Heap.GetBlock | exercises/ex11/myMalloc.c:27-50 | on bytes: unlinks the first hole that fits and keeps every live payload |
| Allocator.Heap.Predecessor | exercises/ex11/myMalloc.c:58-61 | the walk over the links ends at the last hole before the block |
| Allocator.Heap.ReturnBlock | exercises/ex11/myMalloc.c:56-106 | on bytes: links and merges as specified and keeps every other live payload |
| Allocator.Heap.MapPages | exercises/ex11/myMalloc.c:127-144 | on bytes: the arena grows at its end by one block, or nothing changes |
| Allocator.Heap.SplitOff | exercises/ex11/myMalloc.c:146-159 | on bytes: cuts and gives back as specified and keeps every other live payload |
| Allocator.Heap.Malloc | exercises/ex11/myMalloc.c:108-163 | on bytes and words, for any request up to 2^64 - 8: refines the specified allocation, the block returned has room for the request, null means that there was none, and no byte of any live block changes |
| Allocator.Heap.Free | exercises/ex11/myMalloc.c:165-178 | on bytes: refines the specified release and changes no byte of any block still live |
| Allocator.Heap.Write | exercises/ex11/myMalloc.c:192-194 | a write into one live block keeps the heap valid and all other live blocks |
| Allocator.Heap.Calloc | exercises/ex11/myMalloc.c:183-197 | like malloc of the product as a word holds it, its room included, and that many bytes handed out are zero |
| Allocator.Heap.CopyOver | exercises/ex11/myMalloc.c:219-223 | copies between two live blocks and keeps all others |
| Allocator.Heap.Realloc | exercises/ex11/myMalloc.c:200-228 | the new block has room for the new size and starts with the old bytes up to the smaller size; null means that there was no room, and leaves the old block; no other block changes |
| HeapRuns.Serve | exercises/ex11/myMalloc.c:108-228 | any run of legal calls, callocs and stores by the caller: arena and replies are those specified, and the bytes of every live block are the contents specified |
| HeapRuns.WrittenStays | exercises/ex11/myMalloc.c:108-228 | a byte written into a block, by its holder, by calloc or by realloc, stays in every run until it is written again or the block is given back |
| HeapRuns.AfterMalloc | exercises/ex11/myMalloc.c:108-163 | malloc adds contents of the size asked for, nothing known of them, at a pointer not held before |
| HeapRuns.AfterCalloc | exercises/ex11/myMalloc.c:183-197 | calloc adds contents of the wrapped product's size, zeros that far |
| HeapRuns.AfterFree | exercises/ex11/myMalloc.c:165-178 | free removes the contents of the block freed and no others |
| HeapRuns.AfterRealloc | exercises/ex11/myMalloc.c:200-228 | realloc replaces the contents by some of the size asked for that start with the old bytes as far as both sizes go, or changes nothing |
| HeapRuns.AfterWrite | exercises/ex11/myMalloc.c:192-194 | a store changes one byte of the contents |
| Triangles.SumPartsIsAll | assignments/hw2/triangles.c:159-165 | counts by any key add up to the number of triples |
| Triangles.TriangleIs | assignments/hw2/triangles.c:69-72 | three sides form a triangle exactly if the longest is shorter than the others together, in any order |
| Triangles.FindTriangles | assignments/hw2/triangles.c:77-100 | a worker counts exactly the triples whose first index is its own modulo the workers |
| Triangles.TotalFromPipe | assignments/hw2/triangles.c:77-165 | the workers count and write to the pipe in any order, and what the parent sums is the number of index triples that form triangles |
| Triangles.TotalFromThreads | assignments/hw3/triangles-thread.c:85-162 | the same for counts joined in order |
| Triangles.CheckValid | assignments/hw6/triangles.cu:77-131 | a GPU thread leaves the number of triples that end at its index in its slot and touches no other |
| Triangles.TotalFromKernel | assignments/hw6/triangles.cu:160-182 | whole blocks of threads and the host's sum give the number of triples; for an empty list the launch fails and there is no total |
| Triangles.DecompositionsAgree | assignments/hw6/triangles.cu:79-100 | for every list and every number of workers, strided and last-index counts have the same sum |
| TrianglesSem.NextKeeps | assignments/hw4/triangles-sem.c:72-124 | every step of main and of every worker keeps tokens, mutexes, claims and counts conserved |
| TrianglesSem.WorkerKeepsCounters | assignments/hw4/triangles-sem.c:72-85 | tokens held, tokens free and workers gone make up main's posts; claims run at most W - 1 past the values |
| TrianglesSem.WorkerConserves | assignments/hw4/triangles-sem.c:99-118 | what is counted and what is still to count add up to the triples of the claimed indices |
| TrianglesSem.OthersKept | assignments/hw4/triangles-sem.c:80-109 | only the mutexes keep a worker's unwritten index and count valid, and they do |
| TrianglesSem.OverclaimsAreEmpty | assignments/hw4/triangles-sem.c:76-81 | an index claimed past the values has no triangles, for its slot is zero |
| TrianglesSem.ClaimedOnce | assignments/hw4/triangles-sem.c:80-84 | no index is claimed twice, none beyond vCount + W - 2, and in the end none below vCount is missing |
| TrianglesSem.PrintedIsRight | assignments/hw4/triangles-sem.c:164-175 | what is printed is the number of triples of the input |
| TrianglesSem.Progress | assignments/hw4/triangles-sem.c:72-168 | until the total is printed somebody can step |
| TrianglesSem.StepsDrop | assignments/hw4/triangles-sem.c:72-168 | every step lowers a measure on unclaimed indices and live workers |
| TrianglesSem.RunIsRight | assignments/hw4/triangles-sem.c:126-175 | every interleaving is finite, stops only after printing, and prints the right number |
| TrianglesBound.OverReadIffCrowded | assignments/hw4/triangles-sem.c:72-124 | for an input that fits and is not empty, some interleaving reads behind vList if and only if vCount + W - 1 exceeds 10000 |
| Fat12.FatRoundTrip | exercises/ex18/floppyDir.c:56-73 | entries packed two to three bytes decode to themselves, for even and odd numbers |
| Fat12.FieldRoundTrip | exercises/ex18/floppyDir.c:123-129 | a name padded with blanks reads back without them |
| Fat12.FieldStopsAtNul | exercises/ex18/floppyDir.c:123-129 | a name ends at a NUL, whatever follows in its field |
| Fat12.EntryRoundTrip | exercises/ex18/floppyDir.c:117-136 | an entry laid out byte by byte from name, extension, attributes, start cluster and signed size reads back: start, size, full name, kind, and whether it is passed over |
| Fat12.EntryMatches | exercises/ex18/floppyDir.c:111-158 | an image that holds such an entry has that file, folder or hidden item there |
| Fat12.MarkedEntries | exercises/ex18/floppyDir.c:111-120 | a deleted entry is passed over, a zero or the end of the file ends the directory |
| Fat12.BelowIsStored | exercises/ex18/floppyDir.c:142-153 | below a folder lies what is stored from its start cluster on, and nothing if that leads nowhere |
| Fat12.Places | exercises/ex18/floppyDir.c:33-42 | FAT, root directory and cluster c lie where the counts of reserved sectors, FATs and root sectors put them |
| Fat12.LeadsOn | exercises/ex18/floppyDir.c:168-168 | of the values a FAT can hold exactly 2 to 0xFF6 lead on |
| Fat12.ListingNests | exercises/ex18/floppyDir.c:139-158 | a listing has at its depth exactly its items' own lines, in order, and all else one step deeper at a time behind a directory |
| Fat12.StoredUnique | exercises/ex18/floppyDir.c:165-239 | an image encodes at most one directory at a cluster |
| Fat12.RootUnique | exercises/ex18/floppyDir.c:90-162 | an image encodes at most one root directory, so its listing is a function of the image |
| Fat12.ChainHasNoLoop | exercises/ex18/floppyDir.c:168-238 | the chain of a directory that ends never visits a cluster twice |
| FloppyDir.Image.GetFat12 | exercises/ex18/floppyDir.c:56-73 | reads the entry specified, wherever the file position was |
| FloppyDir.Image.BlankOut | exercises/ex18/floppyDir.c:126-129 | the loop that overwrites trailing blanks leaves the trimmed name |
| FloppyDir.Image.NameOf | exercises/ex18/floppyDir.c:123-134 | the name shown is base and extension, with a dot only if there is an extension |
| FloppyDir.Image.ReportEntry | exercises/ex18/floppyDir.c:117-158 | prints an entry and all below it and comes back to the file position it started at |
| FloppyDir.Image.ReportSector | exercises/ex18/floppyDir.c:176-235 | prints the items of one sector and finds whether the directory ends in it |
| FloppyDir.Image.ReportRoot | exercises/ex18/floppyDir.c:90-163 | prints the preorder listing of the root over its contiguous sectors |
| FloppyDir.Image.ReportChain | exercises/ex18/floppyDir.c:165-240 | prints the preorder listing of a directory over its chain of clusters |
| FloppyDir.Image.ReportDirectory | exercises/ex18/floppyDir.c:84-241 | prints exactly the preorder listing with depths of the directory that is stored |
| FloppyDir.ReportImage | exercises/ex18/floppyDir.c:243-260 | the whole output is the listing of the root from depth 0 |
| FatWalk.PrintsTree | exercises/ex18/floppyDir.c:84-241 | whenever the walk of an image ends without failing the image encodes a tree, and what was printed is its listing |
| FatWalk.TreePrinted | exercises/ex18/floppyDir.c:84-241 | the walk of an image that encodes a tree ends, and prints its listing |
| FatWalk.EndsIffTree | exercises/ex18/floppyDir.c:84-241 | the walk of an image ends without failing if and only if the image encodes a finite tree |
| ExchangeSort.Sort | assignments/hw5/ordered.c:62-73 | the first elements end up in order, are those that were there, and the rest is untouched |
| ExchangeSort.SortedUnique | assignments/hw5/ordered.c:62-73 | there is one sorted arrangement of given numbers |
| ExchangeSort.SortedDistinct | assignments/hw5/ordered.c:59-75 | sorting distinct locks gives a strictly increasing list |
| OrderedLocks.NextKeeps | assignments/hw5/ordered.c:60-96 | every step keeps each lock's value and its holders at one in all |
| OrderedLocks.MutualExclusion | assignments/hw5/ordered.c:74-83 | a lock has at most one holder, which holds it once |
| OrderedLocks.WaitsAbove | assignments/hw5/ordered.c:74-75 | a thread waits only for locks above all it holds |
| OrderedLocks.NoDeadlock | assignments/hw5/ordered.c:60-96 | for any threads and lists, a state with an unfinished thread has an enabled step |
| OrderedLocks.ShutdownStep | assignments/hw5/ordered.c:89-96 | once running is false every step lowers the steps left |
| OrderedLocks.Shutdown | assignments/hw5/ordered.c:249-259 | once running is false every run ends with all threads done and all locks free |
| OrderedLocks.NotDoneWhileRunning | assignments/hw5/ordered.c:85-97 | no thread stops while running is true |
| OrderedLocks.GivingCame | assignments/hw5/ordered.c:85-97 | a thread that gives locks back has, in the same round, held exactly the locks of its list |
| OrderedLocks.RoundWorks | assignments/hw5/ordered.c:85-97 | between two tests of running a thread has held exactly the locks of its list |
| OrderedLocks.WorksOnce | assignments/hw5/ordered.c:85-97 | and it does so once in a round |
| OrderedLocks.Reachable | assignments/hw5/ordered.c:85-97 | the invariant holds in every state of every interleaving |
| Kitchen.SortAppliances | assignments/hw5/ordered.c:60-73 | the sort of lock_appliances turns distinct appliances into lock order and leaves an ordered list alone |
| Kitchen.SortedIsLegal | assignments/hw5/ordered.c:60-83 | any chefs that lock by sorted lists and unlock in reverse follow the protocol |
| Kitchen.RunGoesOn | assignments/hw5/ordered.c:60-97 | in every interleaving of a legal protocol locks are exclusive, somebody can step, nobody stops while running, and every round takes all its locks |
| Kitchen.ChefsGoOn | assignments/hw5/ordered.c:85-224 | the ten chefs never share an appliance, never all stop, stop only after running is false, and work in every round with all they need |
| Kitchen.RoutinesAreLegal | exercises/ex09/deadlock.c:17-211 | all ten routines wait in the order in which the semaphores are declared |
| Kitchen.RoutinesGoOn | exercises/ex09/deadlock.c:28-211 | the ten routines never share an object, never all stop, stop only after running is false, and hold all their objects in every round |
| TakeAll.NextKeeps | assignments/hw5/takeAll.c:47-79 | every step, spurious wakeups included, keeps mutex, table, owners and the sleepers' reasons |
| TakeAll.StepKeepsSleepers | assignments/hw5/takeAll.c:51-65 | whoever sleeps needs an appliance in use or a broadcast is on its way |
| TakeAll.OwnedAfter | assignments/hw5/takeAll.c:59-75 | a step that marks an appliance makes it owned, and one that clears it ends that |
| TakeAll.NoLostWakeup | assignments/hw5/takeAll.c:47-79 | while the mutex is free every sleeper needs an appliance in use |
| TakeAll.MarkedIsOwned | assignments/hw5/takeAll.c:47-79 | an appliance is marked exactly if somebody owns it, and nobody shares it |
| TakeAll.TableIsRight | assignments/hw5/takeAll.c:83-93 | while the mutex is free an appliance is marked if and only if a chef between acquire and release needs it |
| TakeAll.NotAllAsleep | assignments/hw5/takeAll.c:47-79 | a state with an unfinished chef has one that is awake and can step |
| TakeAll.ShutdownStep | assignments/hw5/takeAll.c:83-93 | once running is false every step lowers the steps left, broadcasts included |
| TakeAll.SpuriousCosts | assignments/hw5/takeAll.c:50-66 | a spurious wakeup lengthens what is left by a bounded number of steps |
| TakeAll.Shutdown | assignments/hw5/takeAll.c:224-232 | once running is false every run takes at most a fixed number of steps and a fixed number more for each spurious wakeup, and ends with all chefs done and nothing in use |
| TakeAll.RunGoesOn | assignments/hw5/takeAll.c:47-93 | in every state of every interleaving of any chefs the table is right, no wakeup is lost and somebody awake can step |
| TakeAll.NotDoneWhileRunning | assignments/hw5/takeAll.c:83-93 | no chef stops while running is true |
| TakeAll.GivingCame | assignments/hw5/takeAll.c:83-93 | a chef that releases has, in the same round, cooked with all it needs marked and its own |
| TakeAll.RoundWorks | assignments/hw5/takeAll.c:83-93 | between two tests of running a chef has cooked with all it needs |
| TakeAll.ChefsGoOn | assignments/hw5/takeAll.c:83-201 | all this holds of the ten chefs, in every state and in every round |
| Matchmaker.CompatibleIs | assignments/hw5/matchmaker.c:58-61 | two players are compatible if their skills differ, in either direction, by 1 to the gap |
| Matchmaker.StepKeeps | assignments/hw5/matchmaker.c:64-157 | every section keeps list, matching and phases consistent |
| Matchmaker.StepExtends | assignments/hw5/matchmaker.c:64-157 | no section changes an opponent or a result, nor pairs anybody after the stop |
| Matchmaker.PairKeeps | assignments/hw5/matchmaker.c:85-106 | taking the first player that fits off the list leaves no compatible pair waiting |
| Matchmaker.WaitKeeps | assignments/hw5/matchmaker.c:111-115 | a player that joins the list is compatible with nobody on it |
| Matchmaker.ListIsWaiting | assignments/hw5/matchmaker.c:82-116 | before the stop the list holds, once each, exactly the unmatched waiting players, pairwise incompatible |
| Matchmaker.OpponentsForEver | assignments/hw5/matchmaker.c:85-103 | opponents are mutual, distinct, compatible and for ever, and both get true |
| Matchmaker.FalseOnlyStopped | assignments/hw5/matchmaker.c:67-121 | findMatch returns false only after the stop, to a player never paired |
| Matchmaker.StopReleasesAll | assignments/hw5/matchmaker.c:146-157 | after the stop nobody is paired, and whoever was waiting is signalled and returns false |
| Matchmaker.WokenReturns | assignments/hw5/matchmaker.c:82-120 | a signalled player's loop ends at once |
| Matchmaker.SpuriousWakeupRepeats | assignments/hw5/matchmaker.c:82-115 | a waiting player finds nobody on the list, itself included, so that without a signal it would list itself again |
| Matchmaker.PairsWithLatest | assignments/hw5/matchmaker.c:83-115 | a newcomer is paired with the latest compatible arrival and waits only if there is none |
| MatchmakerMonitor.Monitor.ListedOnce | assignments/hw5/matchmaker.c:111-113 | the linked list visits no player twice |
| MatchmakerMonitor.Monitor.Search | assignments/hw5/matchmaker.c:83-109 | the walk stops at the first player that fits, with its predecessor |
| MatchmakerMonitor.Monitor.Unlink | assignments/hw5/matchmaker.c:91-96 | on links: takes exactly that player off the list |
| MatchmakerMonitor.Monitor.Pair | assignments/hw5/matchmaker.c:85-106 | on links: pairs, unlinks and signals as specified |
| MatchmakerMonitor.Monitor.FindMatch | assignments/hw5/matchmaker.c:64-116 | on links: the section up to return or wait refines the step specified |
| MatchmakerMonitor.Monitor.ReturnFromWait | assignments/hw5/matchmaker.c:114-121 | on links: the section after the wait returns whether there is an opponent |
| MatchmakerMonitor.Monitor.StopMatchmaking | assignments/hw5/matchmaker.c:146-157 | on links: stops and signals every listed player |
| MatchmakerMonitor.Monitor.WakeUnsignalled | assignments/hw5/matchmaker.c:82-115 | on links: a wait that ends unsignalled makes a loop of the player and those before it |
| MatchmakerMonitor.Monitor.WalkNeverEnds | assignments/hw5/matchmaker.c:83-109 | in a list that loops no walk comes to the end, however long |
| MatchmakerMonitor.Monitor.LoopCutsOff | assignments/hw5/matchmaker.c:83-109 | in a list that loops the players behind the loop are never met |
| CyclicQueue.BuildList | exercises/ex08/critical.c:111-124 | main's loop builds the initial list, newest node first |
| CyclicQueue.StepKeeps | exercises/ex08/critical.c:51-100 | every step of a thread keeps nodes, links, lock and tally consistent if threads are fewer than nodes |
| CyclicQueue.StepKeepsPartition | exercises/ex08/critical.c:51-79 | listed nodes and nodes in hand stay all the nodes, each once |
| CyclicQueue.StepKeepsChain | exercises/ex08/critical.c:57-75 | the four writes keep the links along the list from a head that is not null |
| CyclicQueue.StepKeepsTally | exercises/ex08/critical.c:86-96 | counters exceed completed cycles by the cycles under way, though the increment is not locked |
| CyclicQueue.TwoListed | exercises/ex08/critical.c:56-58 | a thread about to dequeue finds at least two nodes |
| CyclicQueue.NoFault | exercises/ex08/critical.c:51-79 | no step of a reachable state follows a null or wild pointer |
| CyclicQueue.FreeLockMeansWhole | exercises/ex08/critical.c:20-79 | with the lock free: head to tail is the list, and listed nodes and nodes in hand partition all nodes |
| CyclicQueue.FirstComeFirstServed | exercises/ex08/critical.c:51-79 | in every run nodes are taken in the order in which they were listed and put back |
| CyclicQueue.NotDoneWhileRunning | exercises/ex08/critical.c:83-100 | no thread stops while running is true |
| CyclicQueue.AllBack | exercises/ex08/critical.c:138-151 | after the joins every node is listed and the counters along the list add up to the completed cycles |
| CyclicQueue.Report | exercises/ex08/critical.c:142-154 | the reported numbers are the nodes made and the cycles completed |
| CyclicQueue.Progress | exercises/ex08/critical.c:20-27 | an unfinished thread never leaves all blocked |
| CyclicQueue.ShutdownStep | exercises/ex08/critical.c:83-100 | once running is false every step lowers the steps left |
| CyclicQueue.Shutdown | exercises/ex08/critical.c:83-151 | once running is false every run ends, with all threads done, every node listed and the counters making up the completed cycles |
| CyclicQueue.FaultsIffCrowded | exercises/ex08/critical.c:51-79 | some interleaving follows a null pointer if and only if there are at least as many threads as nodes |
| CyclicQueue.CriticalIsSafe | exercises/ex08/critical.c:8-151 | with its 100 nodes the program is safe for fewer than 100 threads |
| Quicksort.QuickMultiset | exercises/ex15/linked.c:43-88 | the result has the elements of the input |
| Quicksort.QuickSorted | exercises/ex15/linked.c:43-88 | the result is in order |
| Quicksort.QuickStable | exercises/ex15/linked.c:48-63 | elements of one value keep their order |
| Quicksort.StableUnique | exercises/ex15/linked.c:29-89 | order by value and order among equals determine the sequence |
| Quicksort.QuickIsTheStableSort | exercises/ex15/linked.c:29-89 | the quicksort's result is the stable sort, and nothing else is |
| Quicksort.KeysOfQuick | exercises/ex15/linked.c:29-89 | sorting nodes and sorting their values give the same values |
| ArrayQuicksort.Partition | exercises/ex15/array.c:12-25 | the pivot parts smaller values from the others, in place |
| ArrayQuicksort.SidesSorted | exercises/ex15/array.c:26-28 | sorting both sides of a partition sorts the whole |
| ArrayQuicksort.SortWindow | exercises/ex15/array.c:6-29 | sorts a part of the array and touches nothing else |
| ArrayQuicksort.Sort | exercises/ex15/array.c:6-29 | the in-place sort computes the same values as the linked sort |
| LinkedQuicksort.Append | exercises/ex15/linked.c:50-61 | links a node in at the tail end |
| LinkedQuicksort.Partition | exercises/ex15/linked.c:36-66 | cuts the chain into two well-formed lists of the smaller and the other nodes, in order |
| LinkedQuicksort.Join | exercises/ex15/linked.c:72-88 | joins lists and pivot with head, tail and null terminator right |
| LinkedQuicksort.Sort | exercises/ex15/linked.c:29-89 | relinks exactly the original nodes into the stable sort, head, tail and terminator right |
| TwoQuicksorts.SortBoth | exercises/ex15/linked.c:29-89 | an array and a list with the same values hold the same values after each is sorted by its program |
| EditServer.InsertionIs | assignments/hw2/server.c:107-123 | after an accepted insertion the character is at its index, the text before it unchanged and the text behind it one place on |
| EditServer.DeletionIs | assignments/hw2/server.c:126-140 | after an accepted deletion the text before the index is unchanged and the text behind it one place nearer; just behind the text nothing changes |
| EditServer.RefusedKeeps | assignments/hw2/server.c:107-160 | exactly an edit behind the text and an undo without history are refused, and nothing refused or unknown changes anything |
| EditServer.MessageIs | assignments/hw2/server.c:163-176 | ERROR for what is refused, the report for a report, OK for the rest |
| EditServer.DecimalReadsBack | assignments/hw2/server.c:173-173 | a number is printed in digits that read back as it, without leading zeros |
| EditServer.ReportIs | assignments/hw2/server.c:173-173 | a report is the text and, in brackets, the number of undos |
| EditServer.HistoryIsThePast | assignments/hw2/server.c:114-116 | after accepted edits the history holds the texts before them, up to three |
| EditServer.UndoGoesBack | assignments/hw2/server.c:142-155 | after any accepted edits, up to three undos bring back the text of as many edits ago |
| EditServer.UndoIsBounded | assignments/hw2/server.c:144-154 | one undo more than there is history is refused |
| EditServer.StrCpy | assignments/hw2/server.c:114-116 | a copy carries the string over and leaves what lies behind it |
| EditServer.SnPrintf | assignments/hw2/server.c:173-173 | writes the text cut to the limit, and a terminator, and stays inside of the target exactly if that fits |
| EditServer.StrNCpy | assignments/hw2/server.c:163-175 | copies a string and fills up with zeros |
| EditServer.ShiftUp | assignments/hw2/server.c:117-121 | the loop of an insertion shifts up what lies behind the index and fills, in a full buffer too |
| EditServer.ShiftDown | assignments/hw2/server.c:135-138 | the loop of a deletion shifts to the end of the buffer |
| EditServer.InsertedText | assignments/hw2/server.c:117-121 | a buffer that lost its last byte to an insertion holds the longer text if and only if the character is no terminator and there was room for it |
| EditServer.InsertInto | assignments/hw2/server.c:117-121 | the loop on any text of up to 75 characters leaves the longer text if and only if the character is no terminator and the text was shorter than 75 |
| EditServer.OverPadded | assignments/hw2/server.c:146-146 | an undo leaves no stale character behind the text |
| EditServer.SnapshotTaken | assignments/hw2/server.c:114-122 | moving the buffers up is pushing onto the bounded history, and lengths stay neighbours |
| EditServer.SnapshotUsed | assignments/hw2/server.c:146-149 | moving the buffers down is popping the history |
| EditServer.Server.constructor | assignments/hw2/server.c:75-80 | the buffers hold the argument, cut to size, and no history |
| EditServer.Server.Insert | assignments/hw2/server.c:107-123 | refines insertion though no terminator is written, if the character is none and there is room; otherwise the buffer does not hold the edited text |
| EditServer.Server.Delete | assignments/hw2/server.c:126-140 | refines deletion, behind the last character too |
| EditServer.Server.TakeBack | assignments/hw2/server.c:144-149 | refines undo |
| EditServer.Server.WriteReport | assignments/hw2/server.c:171-174 | the report stays inside its buffer if and only if the text has at most 71 characters, and then is the text followed by the number of undos |
| EditServer.Server.Respond | assignments/hw2/server.c:163-178 | the message is OK, ERROR or the report, terminated |
| EditServer.Server.Handle | assignments/hw2/server.c:93-178 | one request: status and message are as specified, and the request is served inside the buffers with the document specified if and only if it is fair |
| EditServer.Server.Serve | assignments/hw2/server.c:93-178 | any run of fair requests: statuses and messages are those specified, and the buffers refine text and bounded history |
| EditServer.Start | assignments/hw2/server.c:75-83 | a newline in the part of the argument kept is a usage error, otherwise the server starts with it |
| Parking.IsValidPlate | assignments/hw6/parkingServer.c:41-63 | accepts exactly seven or eight digits, capitals and dashes with at most one dash |
| Parking.SizeIsOccupancy | assignments/hw6/parkingServer.c:167-185 | the map has as many entries as slots are occupied |
| Parking.HoursBegun | assignments/hw6/parkingServer.c:228-229 | the hours charged are those begun |
| Parking.FeeIs | assignments/hw6/parkingServer.c:228-234 | rounding up and capping charges the hours begun, ten at most |
| Parking.FeeIsHours | assignments/hw6/parkingServer.c:228-234 | up to ten hours every hour begun is charged, and from then on ten |
| Parking.FeeGrows | assignments/hw6/parkingServer.c:228-234 | a longer stay never costs less, and none more than ten hours |
| Parking.ParkThenLeave | assignments/hw6/parkingServer.c:148-242 | parking and leaving charges the stay and restores the lot |
| Parking.ParkIs | assignments/hw6/parkingServer.c:142-186 | parked exactly if valid, absent and with room, full exactly if valid and absent without room, else invalid; only parking changes the entries, by that plate |
| Parking.LeaveIs | assignments/hw6/parkingServer.c:205-249 | a fee exactly for a parked car that came no later than it leaves, not found exactly for a valid request of an absent one, else invalid; only a fee changes the entries, by that plate |
| Parking.Lot.Park | assignments/hw6/parkingServer.c:139-188 | refines insertion if absent and if there is room, with each refusal |
| Parking.Lot.Leave | assignments/hw6/parkingServer.c:202-251 | refines timed removal; a time before arrival keeps the record |
| Parking.Lot.Show | assignments/hw6/parkingServer.c:257-290 | shows each entry once, by time of arrival |

## Left out

- Allocator.Heap.Malloc: requests above 2^64 - 8 bytes, which WordSizes.MallocOnWords shows to be answered wrongly, are not followed into the memory they corrupt; mmap is assumed to fail or to return the address asked for, and a page to have at most BASE bytes.
- Allocator.Heap.Calloc: products that leave more than 2^64 - 8 as a word are excluded for the same reason; when the block is as large as was meant is what WordSizes.CallocOnWords says.
- Allocator.Heap.Realloc: the copy counter is an int in the source; blocks beyond 2^31 bytes are not told apart.
- HeapRuns.Serve: stores by the caller lie inside the blocks it holds; sizes wrap nowhere.
- TrianglesSem.NextKeeps: assumes vCount + W - 1 <= 10000, as do ClaimedOnce, PrintedIsRight, Progress, StepsDrop and RunIsRight; TrianglesBound.OverReadIffCrowded shows that beyond it the program reads outside its array.
- TrianglesSem.RunIsRight: the input guard, which admits one value too many, is not modelled, and sums do not overflow. The unlocked test is one atomic read.
- Triangles.FindTriangles: the lines a worker reports are not modelled, and sums of sides do not overflow; neither does any count of the four programs.
- FloppyDir.Image.Read: a read that fails for a reason other than the end of the file is not modelled.
- FloppyDir.Image.ReportDirectory: is proved of images that encode a finite tree; FatWalk.EndsIffTree shows that on all others the walk fails or goes on for ever.
- FloppyDir.ReportImage: the output is a sequence of lines with depth, name and size; column formatting is not modelled.
- OrderedLocks.NoDeadlock: fairness is not modelled: somebody can step, not everybody will.
- TakeAll.Shutdown: bounds runs by the number of their spurious wakeups; with infinitely many of these a run need not end.
- Matchmaker.StepKeeps: assumes no spurious wakeups; MatchmakerMonitor.Monitor.WakeUnsignalled shows what one does. Player names and the line printed for a match are not modelled, and differences of skills do not overflow.
- CyclicQueue.StepKeeps: the counters are unbounded, memory is sequentially consistent, and waiting for the lock is a blocked step rather than a spin.
- EditServer.Server.Serve: covers runs of fair requests, for after any other a buffer does not hold the edited text or something is written behind one (EditServer.Server.Handle); indices are not negative.
- EditServer.Server.constructor: the snapshot buffers are assumed to hold a terminator when the server starts, as they do when they start empty; what strcpy does without one is undefined. The same goes for EditServer.Start.
- EditServer.Server.Handle: a failing mq_receive or mq_send is not modelled.
- Parking.Lot.Leave: fees are exact numbers, not floats.
- Parking.Lot.Show: times are not formatted.
- Parsing of commands and arguments, sockets, queues, pipes, signals, sleeps and all printing.
- donePlaying, destroyMonitor and playing_pair in `assignments/hw5/matchmaker.c`: done_count is never reset between games.
- `assignments/hw3/edit.c`, `assignments/hw4/edit.c` and `assignments/hw3/edit2.c`: earlier editors whose undo loses state.
- `exercises/ex18/floppyDirNew.c` and `exercises/ex18/floppyDirO.c`: the first does not decode the packed table, the second is a skeleton.
- `assignments/hw5/kitchen.c` and `assignments/hw5/global.c`: one is meant to deadlock, the other has a single lock.
- `exercises/ex14/sort.c`: floating-point distances.
- Process listings, shell, HTTP client, remote procedure calls, ping-pong exercises, drivers and the programs in other languages.
