# Verified models of the CppProject algorithms and of the cannon servers

Each module models one component of the repository, with its loops, in-place updates and relinked nodes, and proves
what the component is for. Array and object code is imperative and is proved against specification functions; the
concurrent parts are step systems whose invariants hold over every run.

| module | component |
|---|---|
| `SimpleRex` | pattern compiled to an NFA and simulated with two marked state lists |
| `LinearSearch` | reference scan that the two bucket-sorted tables are compared with |
| `LinkedLists` | node and null-terminated list, shared by the chained table and the list merge |
| `Buckets` | sizes, hash masks, prefix sums and the counting argument of the bucket-sorted tables |
| `ByteHashMap` | hash map over one flat byte buffer, sorted in place by bucket |
| `LazyHashTable` | typed bucket-sorted table whose cursor stays on a record that is already there |
| `ChainedTable` | chained table with load phases; rehashing relinks its entries |
| `Storage` | one storage server with two stores selected by the parity of the data version |
| `Proxy` | sharded scatter/gather of `get`, sharded inserts, sequential reload |
| `ReloadProtocol` | interleaved gets and reloads over all servers |
| `SequentialReload` | the handler's calls as runs of protocol steps, and the response of a finished get |
| `ReloadExamples` | a run with a left-over key, and one in which a clear overtakes a get |
| `ThreadPool` | worker pool: queue, condition variable, notifications, stop |
| `ReversePolish` | infix to postfix translation and the stack machine |
| `Kmp` | failure table and search |
| `StringMultiply` | schoolbook product of decimal strings |
| `QuickSort` | three-way quicksort in place |
| `MergeLists` | in-place merge of linked lists |

Conventions. A vector that only grows or is reassigned is a `seq` field, a buffer that is permuted in place is an
`array`, list nodes are heap objects. Hash functions are parameters: nothing is used of them but that equal keys have
equal hashes. Integers are unbounded, except where a width matters: sizes are 64-bit values, `(int)` of a hash is cut
to 32 bits, a `char` may be signed or unsigned. Numbers in expressions are exact reals. A C++ out-of-range access is
a precondition of the method, stated as the condition under which the source does not commit it. Long methods of the
source are split into methods for their loops, in the order in which they run.

Four promises do not hold for all inputs, and the exact condition is proved for each:

- the translated expression has the usual value, whatever its numbers, exactly when in every run only the last
  operator is `-` or `/` (`ReversePolish.UsualExactlyWhenHarmless`; `1-1+1` gives -1);
- every response position holds the answer for its key, whatever the servers store, exactly when no key of the request
  is repeated (`Proxy.AllFilledIffDistinct`), and one position exactly when its key does not come again later
  (`Proxy.FilledIffLast`);
- a committed version answers a key as the input of its reload does exactly when no reload that failed since the commit
  before had the key in its input (`ReloadProtocol.ContentIsInput`; `ReloadExamples.LeftOverIsFound` is a run in which
  a get finds such a left-over key);
- the product string is right exactly when neither operand is empty or has a leading zero, or one of them has no other
  digit than zeros (`StringMultiply.StringMultiply`).

Likewise, counts collected in cells that were not zero give wrong bucket starts, always
(`Buckets.StaleCellsShiftBuckets`): this is why a byte map is loaded once. A truncated hash that is negative selects a
shard only when it is a multiple of the number of clients (`Proxy.ShardExists`). A reload without paths leaves the
loading flag set, and no reload starts any more (`ReloadProtocol.EmptyReloadLocks`).

Where the code and its comments differ, the model follows the code. The failure table of `KMP/main.cpp` is written one
cell past its size: the model's table has that cell, `Kmp.GetNext` ensures that it is the highest one written, and
`Kmp.Kmp` that the search never reads it.

## Model

| member | source | states |
|---|---|---|
| `SimpleRex.ShowParse` | SimpleRexMatch/Source.cpp:14-34 | splitting a pattern into atoms (a character before `*` repeats, any other is literal) loses nothing: writing the atoms out gives the pattern |
| `SimpleRex.LanguageOfNothing` | SimpleRexMatch/Source.cpp:10-14 | the empty pattern matches the empty word only |
| `SimpleRex.LanguageOfCharacter` | SimpleRexMatch/Source.cpp:28-34 | a character that no `*` follows takes one character, its own or, when it is `.`, any |
| `SimpleRex.LanguageOfStar` | SimpleRexMatch/Source.cpp:17-27 | a character with `*` takes any number of characters, each its own or, when it is `.`, any; with the two rows above this determines the language of every pattern |
| `SimpleRex.DotMatchesAny` | SimpleRexMatch/Source.cpp:77-77 | `.` alone matches exactly the words of one character |
| `SimpleRex.StarRepeats` | SimpleRexMatch/Source.cpp:17-27 | a character with `*` alone matches exactly its repetitions |
| `SimpleRex.ActiveAtStart` | SimpleRexMatch/Source.cpp:71-71 | before the first character exactly the closure of the start is active |
| `SimpleRex.ActiveStep` | SimpleRexMatch/Source.cpp:72-83 | the positions that a word extended by one character reaches in the denotational language are exactly those that the positions of the word move to |
| `SimpleRex.DeadStaysDead` | SimpleRexMatch/Source.cpp:88-90 | leaving when the list is empty is right: no longer word can reach anything |
| `SimpleRex.AcceptsIffLastActive` | SimpleRexMatch/Source.cpp:93-98 | a word is in the language exactly when the final position is active |
| `SimpleRex.ChainExtended` | SimpleRexMatch/Source.cpp:15-45 | one constructor round appends the states of one atom and links the previous atom to it |
| `SimpleRex.ChainClosed` | SimpleRexMatch/Source.cpp:48-58 | patching the last atom to the final state completes the automaton |
| `SimpleRex.SlotInjective` | SimpleRexMatch/Source.cpp:107-118 | different positions are represented by different states, never by a split state |
| `SimpleRex.SimpleRexNFA.constructor` | SimpleRexMatch/Source.cpp:10-61 | for every pattern the state array is the automaton of its atoms |
| `SimpleRex.SimpleRexNFA.PatchLast` | SimpleRexMatch/Source.cpp:36-43 | the patch sets `out1` of a split state and `out` of any other |
| `SimpleRex.SimpleRexNFA.Push` | SimpleRexMatch/Source.cpp:109-118 | a state enters the list once; its mark says so and no other mark changes |
| `SimpleRex.SimpleRexNFA.AddState` | SimpleRexMatch/Source.cpp:102-120 | adds exactly the epsilon closure, without duplicates, and ends because every `out1` link goes forward |
| `SimpleRex.SimpleRexNFA.Advance` | SimpleRexMatch/Source.cpp:75-82 | one state of the current list contributes exactly its moves and loses its mark unless it moved to itself |
| `SimpleRex.SimpleRexNFA.Consume` | SimpleRexMatch/Source.cpp:72-86 | after each character the current list holds exactly the non-split states reachable on that prefix, without duplicates, the other list is empty, and a state is marked with the list it is in or -1 |
| `SimpleRex.SimpleRexNFA.ResetMarks` | SimpleRexMatch/Source.cpp:67-69 | all marks are -1 and the code of the states is untouched |
| `SimpleRex.SimpleRexNFA.Begin` | SimpleRexMatch/Source.cpp:64-71 | before the first character the lists and marks stand for the closure of the start |
| `SimpleRex.SimpleRexNFA.ReachesLast` | SimpleRexMatch/Source.cpp:93-98 | whether the final state is in the current list |
| `SimpleRex.SimpleRexNFA.IsMatched` | SimpleRexMatch/Source.cpp:63-99 | true exactly when the string is in the pattern's language, whatever was asked before |
| `Buckets.MaskIsRemainder` | cannon/src/cannon/immutable_hash_map.cpp:43-46 | masking with size - 1 is the remainder modulo a power-of-two size, hence a valid bucket |
| `Buckets.NextPower` | cannon/src/cannon/immutable_hash_map.cpp:17-25 | a power of two, at least 16 and at least the size, less than twice the size otherwise; fits 64 bits |
| `Buckets.HashSizeUnique` | cannon/src/cannon/immutable_hash_map.cpp:17-25 | these conditions determine the number of buckets |
| `Buckets.NextPowerCapped` | hash_table/immutable_hash_table.h:23-32 | the same below LONG_MAX, and LONG_MAX from there on |
| `Buckets.PrefixSums` | cannon/src/cannon/immutable_hash_map.cpp:51-56 | every cell becomes the sum of the counts before it |
| `Buckets.SumOfCounts` | cannon/src/cannon/immutable_hash_map.cpp:45-56 | prefix sums of the counts are the starts of the buckets |
| `Buckets.StaleCellsShiftBuckets` | cannon/src/cannon/immutable_hash_map.cpp:42-56 | counting on top of old cells gives the bucket starts exactly when those cells were zero |
| `Buckets.StartCovers` | cannon/src/cannon/immutable_hash_map.cpp:51-56 | the bucket ranges cover all records |
| `Buckets.GroupedExactly` | cannon/src/cannon/immutable_hash_map.cpp:58-69 | in a grouped table a bucket's range holds exactly the records of that bucket |
| `Buckets.RoomInBucket` | cannon/src/cannon/immutable_hash_map.cpp:60-68 | counting argument: a record outside its bucket's sorted run leaves room for it inside the bucket |
| `Buckets.CursorIsFree` | cannon/src/cannon/immutable_hash_map.cpp:62-67 | the swap target is inside the bucket and was never a target before |
| `Buckets.SwapFills` | cannon/src/cannon/immutable_hash_map.cpp:66-67 | a swap extends the run of the record's bucket and keeps all other runs |
| `Buckets.SwapPlaces` | cannon/src/cannon/immutable_hash_map.cpp:66-67 | earlier targets stay placed |
| `ByteHashMap.CopyIsSwap` | cannon/src/cannon/immutable_hash_map.cpp:27-37 | three byte copies exchange two records and leave every other record alone |
| `ByteHashMap.ImmutableHashMap.SwapBytes` | cannon/src/cannon/immutable_hash_map.cpp:30-36 | two runs of bytes that do not overlap change places, all other bytes stay |
| `ByteHashMap.SortingSwaps` | cannon/src/cannon/immutable_hash_map.cpp:59-69 | each target is in its bucket, not before `i`, never reused, and the sorted part stays sorted |
| `LinearSearch.LinearFindNone` | cannon/src/cannon/immutable_hash_map.cpp:72-84 | the reference scan finds nothing exactly when no record has the key |
| `LinearSearch.LinearFindUnique` | cannon/src/cannon/immutable_hash_map.cpp:72-84 | the reference scan finds the only record with the key |
| `ByteHashMap.ImmutableHashMap.constructor` | cannon/src/cannon/immutable_hash_map.h:17-22 | an empty map with the given sizes, in whose index nothing is counted yet |
| `ByteHashMap.ImmutableHashMap.SwapKv` | cannon/src/cannon/immutable_hash_map.cpp:27-37 | the byte copies swap two records |
| `ByteHashMap.ImmutableHashMap.CountCollisions` | cannon/src/cannon/immutable_hash_map.cpp:45-49 | every bucket's cell grows by the number of its records |
| `ByteHashMap.ImmutableHashMap.CountOne` | cannon/src/cannon/immutable_hash_map.cpp:46-48 | one record more in the cell of its bucket, all other cells stay |
| `ByteHashMap.ImmutableHashMap.ResizeIndexes` | cannon/src/cannon/immutable_hash_map.cpp:42-42 | resizing keeps old cells and zeroes only new ones |
| `ByteHashMap.ImmutableHashMap.BuildIndexes` | cannon/src/cannon/immutable_hash_map.cpp:41-56 | a power-of-two number of buckets and the start of each, when the cells that are counted in start at zero |
| `ByteHashMap.ImmutableHashMap.Place` | cannon/src/cannon/immutable_hash_map.cpp:66-67 | the record goes to its bucket's cursor, a position never used before, and everything sorted so far stays sorted |
| `ByteHashMap.ImmutableHashMap.Permute` | cannon/src/cannon/immutable_hash_map.cpp:58-69 | ends after at most one swap per record with every record in its bucket's range and the records unchanged as a multiset |
| `ByteHashMap.ImmutableHashMap.LoadKvs` | cannon/src/cannon/immutable_hash_map.cpp:11-70 | afterwards the buffer holds the loaded records grouped by bucket and the index holds the bucket starts |
| `ByteHashMap.ImmutableHashMap.Seek` | cannon/src/cannon/immutable_hash_map.cpp:72-84 | finds something exactly when a loaded record has the key, yields the value bytes of such a record, and agrees with a linear scan of the loaded records when keys are distinct |
| `ByteHashMap.ImmutableHashMap.Hit` | cannon/src/cannon/immutable_hash_map.cpp:77-79 | a record found in the table was loaded, and is the one the scan finds when keys are distinct |
| `ByteHashMap.ImmutableHashMap.Miss` | cannon/src/cannon/immutable_hash_map.cpp:74-83 | when the key's bucket has no such record, no loaded record has the key |
| `LazyHashTable.SortingPasses` | hash_table/internal_storage/immutable_hash_table.h:55-56 | a record up to and including its bucket's cursor stands in its bucket |
| `LazyHashTable.SortingSwaps` | hash_table/internal_storage/immutable_hash_table.h:57-60 | each target is in its bucket and never reused; if it was passed already it holds a record of the same bucket |
| `LazyHashTable.ImmutableHashTable.constructor` | hash_table/internal_storage/immutable_hash_table.h:28-62 | the given entries, grouped by bucket, with the bucket starts |
| `LazyHashTable.ImmutableHashTable.CountCollisions` | hash_table/internal_storage/immutable_hash_table.h:34-37 | every bucket's cell is the number of its entries |
| `LazyHashTable.ImmutableHashTable.SwapEntries` | hash_table/internal_storage/immutable_hash_table.h:58-58 | two entries change places |
| `LazyHashTable.ImmutableHashTable.Build` | hash_table/internal_storage/immutable_hash_table.h:30-61 | sizes, counts, prefix sums and permutation establish the table |
| `LazyHashTable.ImmutableHashTable.Permute` | hash_table/internal_storage/immutable_hash_table.h:48-61 | the lazy cursor still ends after at most one swap per entry, groups all entries and loses none |
| `LazyHashTable.ImmutableHashTable.Find` | hash_table/internal_storage/immutable_hash_table.h:64-76 | finds an entry exactly when one was given with the key; with distinct keys, what a linear scan finds |
| `ChainedTable.LoadingExactly` | hash_table/immutable_hash_table.h:86-94 | after any sequence of calls the table is loading exactly when some call began a load and no later one ended it |
| `ChainedTable.OfferedGrows` | hash_table/immutable_hash_table.h:86-123 | how one more call changes the pairs offered to the last load, which are told by the positions of the calls |
| `ChainedTable.FirstOfferWins` | hash_table/immutable_hash_table.h:86-123 | after any sequence of calls the map is that of the pairs offered to the last load while it was open, the first offer of a key winning |
| `ChainedTable.FirstOfKeys` | hash_table/immutable_hash_table.h:107-120 | the first-write-wins map has exactly the offered keys |
| `ChainedTable.FirstOfValues` | hash_table/immutable_hash_table.h:107-120 | the value of a key is that of its first offer |
| `ChainedTable.PartitionGrows` | hash_table/immutable_hash_table.h:117-119 | one entry put in front of its bucket's chain keeps the chains a partition of the entries |
| `ChainedTable.ImmutableHashTable.constructor` | hash_table/immutable_hash_table.h:49-60 | an empty table of a power-of-two size of at least 16, not loading |
| `ChainedTable.ImmutableHashTable.Find` | hash_table/immutable_hash_table.h:66-84 | outside a load the entry of a known key with its value, otherwise nothing |
| `ChainedTable.ImmutableHashTable.KeyInChain` | hash_table/immutable_hash_table.h:71-81 | a key is in the map exactly when its bucket's chain has it |
| `ChainedTable.ImmutableHashTable.Search` | hash_table/immutable_hash_table.h:74-83 | the chain scan finds the entry of the key exactly when the key is in the map |
| `ChainedTable.ImmutableHashTable.Relink` | hash_table/immutable_hash_table.h:202-203 | relinking one node in front of a chain leaves all chains well linked |
| `ChainedTable.ImmutableHashTable.MoveChain` | hash_table/immutable_hash_table.h:196-206 | relinking one old chain moves exactly its entries, each to the chain of its new bucket |
| `ChainedTable.ImmutableHashTable.Rehash` | hash_table/immutable_hash_table.h:183-211 | same map, same nodes, same count; the new size is the power of two asked for; true exactly when the size changed |
| `ChainedTable.ImmutableHashTable.BeginLoading` | hash_table/immutable_hash_table.h:86-89 | an empty map in loading state, with unchanged size |
| `ChainedTable.ImmutableHashTable.DropChains` | hash_table/immutable_hash_table.h:160-164 | all chains are empty afterwards |
| `ChainedTable.ImmutableHashTable.Insert` | hash_table/immutable_hash_table.h:96-123 | outside a load nothing changes; during a load a new key is added with a new entry and a known key is refused |
| `ChainedTable.ImmutableHashTable.AddFront` | hash_table/immutable_hash_table.h:117-120 | one new entry in front of its chain, one more key in the map |
| `ChainedTable.ImmutableHashTable.ExpandIfNeeded` | hash_table/immutable_hash_table.h:170-175 | afterwards there are fewer entries than buckets |
| `ChainedTable.ImmutableHashTable.ShrinkIfNeeded` | hash_table/immutable_hash_table.h:177-181 | same map, and the size is 16 or less than four times the number of entries |
| `ChainedTable.ImmutableHashTable.EndLoading` | hash_table/immutable_hash_table.h:91-94 | the load is ended, the map is the same, size 16 or less than four times the number of entries |
| `Storage.IndexOfVersion` | cannon_proxy/cannon/src/cannon/storage.cpp:13-15 | even versions use the first store, odd versions the second |
| `Storage.InsertAllKeys` | cannon_proxy/cannon/src/cannon/storage.cpp:50-60 | inserting pairs adds exactly their keys |
| `Storage.InsertAllValues` | cannon_proxy/cannon/src/cannon/storage.cpp:50-60 | stored values are never overwritten; a new key gets the value of its first pair |
| `Storage.ItemOfPairs` | cannon_proxy/cannon/src/cannon/storage.cpp:35-48 | after inserting pairs into an empty store a key is answered with the value of the first pair that names it, and not found when none does |
| `Storage.InsertAllTwice` | cannon_proxy/cannon/src/cannon/cannon_server.cpp:57-65 | inserting in blocks is inserting the concatenation |
| `Storage.AllFreshTwice` | cannon_proxy/cannon/src/cannon/cannon_server.cpp:57-65 | the concatenation is accepted exactly when each block is |
| `Storage.Server.Seek` | cannon_proxy/cannon/src/cannon/storage.cpp:35-48 | found exactly when the store of the version's parity has the key, and then with the value stored for it |
| `Storage.Server.Insert` | cannon_proxy/cannon/src/cannon/storage.cpp:50-60 | adds the pair to the store of the version's parity if the key is new, and says whether it was |
| `Storage.Server.ClearData` | cannon_proxy/cannon/src/cannon/storage.cpp:62-66 | empties the store of the version's parity and leaves the other alone |
| `Storage.Server.GetAll` | cannon_proxy/cannon/src/cannon/cannon_server.cpp:37-55 | one item per key, in order: the stored value, or not found |
| `Storage.Server.InsertKvs` | cannon_proxy/cannon/src/cannon/cannon_server.cpp:57-65 | stores all new pairs; true exactly when every key was new and none came twice |
| `Proxy.IntOfHash` | cannon_proxy/src/proxy_server.cpp:63-63 | the cast keeps the hash modulo 2^32 and brings it into the range of an int |
| `Proxy.ShardByDivision` | cannon_proxy/src/proxy_server.cpp:63-63 | the index is the remainder of the truncated hash by the number of clients, with the sign of the hash; for a hash below 2^31 the usual remainder |
| `Proxy.ShardExists` | cannon_proxy/src/proxy_server.cpp:63-63 | the shard index is in range exactly when the truncated hash is not negative or is a multiple of the number of clients |
| `Proxy.ShardedExactly` | cannon_proxy/src/proxy_server.cpp:61-65 | a request stays inside the vectors exactly when every truncated hash is non-negative or a multiple of the number of clients |
| `Proxy.KeysOfMember` | cannon_proxy/src/proxy_server.cpp:61-65 | a shard gets exactly the keys of the request with its index |
| `Proxy.KeysOfAppend` | cannon_proxy/src/proxy_server.cpp:61-65 | a shard gets its keys in request order, each as often as it was asked for |
| `Proxy.UnfilledWhenRepeated` | cannon_proxy/src/proxy_server.cpp:76-88 | a position whose key comes again later keeps what the resize put there |
| `Proxy.FilledIffLast` | cannon_proxy/src/proxy_server.cpp:61-94 | one position gets its key's answer, whatever the servers answer, exactly when the key does not come again later |
| `Proxy.AllFilledIffDistinct` | cannon_proxy/src/proxy_server.cpp:61-94 | every position gets its key's answer, whatever the servers answer, exactly when no key is repeated |
| `Proxy.CannonServiceHandler.ShardKeys` | cannon_proxy/src/proxy_server.cpp:53-65 | shards hold their keys in request order; the index map holds the last position of each key |
| `Proxy.CannonServiceHandler.FillShard` | cannon_proxy/src/proxy_server.cpp:82-96 | one shard's reply fills exactly the cells of its keys and updates the overall status |
| `Proxy.CannonServiceHandler.CountOne` | cannon_proxy/src/proxy_server.cpp:89-95 | ERROR wins over NOT_FOUND, which wins over OK |
| `Proxy.CannonServiceHandler.Gather` | cannon_proxy/src/proxy_server.cpp:76-104 | replies stay aligned with the non-empty shards; each key's last position gets its answer; status ERROR if any item is, else PARTIAL_OK if any is missing, else OK |
| `Proxy.CannonServiceHandler.Query` | cannon_proxy/src/proxy_server.cpp:67-74 | every client with keys is asked once, in order, at the version read |
| `Proxy.CannonServiceHandler.Get` | cannon_proxy/src/proxy_server.cpp:52-105 | a position whose key does not come again gets the value that the key's shard stores for the version read, or not found; an earlier position of a repeated key gets the default item; OK exactly when all keys are there, else PARTIAL_OK |
| `Proxy.CannonServiceHandler.ShardKvs` | cannon_proxy/src/proxy_server.cpp:181-190 | every pair goes to its key's shard, in order |
| `Proxy.CannonServiceHandler.InsertShard` | cannon_proxy/src/proxy_server.cpp:195-207 | one client gets its pairs, or no request when it has none |
| `Proxy.CannonServiceHandler.Insert` | cannon_proxy/src/proxy_server.cpp:181-210 | every shard gets its pairs in the store of the next version; true exactly when all pairs were new |
| `Proxy.CannonServiceHandler.InsertBlock` | cannon_proxy/src/proxy_server.cpp:118-133 | one block goes to the shards of its keys, or nowhere when it is empty |
| `Proxy.CannonServiceHandler.LoadBlocks` | cannon_proxy/src/proxy_server.cpp:115-134 | after all blocks the spare stores hold their shards of the whole input; true exactly when all pairs were new |
| `Proxy.CannonServiceHandler.ClearOne` | cannon_proxy/src/proxy_server.cpp:151-153 | one client's old store is emptied, all other stores stay |
| `Proxy.CannonServiceHandler.ClearOld` | cannon_proxy/src/proxy_server.cpp:144-157 | commits the next version and empties the old store everywhere |
| `Proxy.CannonServiceHandler.Reload` | cannon_proxy/src/proxy_server.cpp:107-162 | whole effect of a reload: rejected while one runs, flag left set without paths, version and stores switched exactly when all pairs were new |
| `ReloadProtocol.InitInv` | cannon_proxy/src/proxy_server.cpp:213-217 | the initial state satisfies the invariant |
| `ReloadProtocol.StepLive` | cannon_proxy/src/proxy_server.cpp:143-145 | at every step the live stores hold the whole committed model |
| `ReloadProtocol.StepLoad` | cannon_proxy/src/proxy_server.cpp:181-210 | the spare stores hold exactly the blocks inserted so far, and the flag says whether any pair was refused |
| `ReloadProtocol.StepInsert` | cannon_proxy/src/proxy_server.cpp:193-207 | an insert at one shard moves that shard alone one block on |
| `ReloadProtocol.StepClear` | cannon_proxy/src/proxy_server.cpp:150-157 | an old store is whole until its clear arrives and empty afterwards |
| `ReloadProtocol.StepGets` | cannon_proxy/src/proxy_server.cpp:67-85 | every reply that was not overtaken by the clear is the shard's part of the model of the captured version |
| `ReloadProtocol.StepModels` | cannon_proxy/src/proxy_server.cpp:143-145 | only models without a refused pair are committed |
| `ReloadProtocol.StepLeft` | cannon_proxy/src/proxy_server.cpp:107-162 | between reloads the spare stores hold exactly the pairs of the reloads that failed since the last commit, and nothing after a commit |
| `ReloadProtocol.ContentIsRemains` | cannon_proxy/src/proxy_server.cpp:131-145 | a load on top of what was left is what both inputs together leave |
| `ReloadProtocol.RunKeepsInv` | cannon_proxy/src/proxy_server.cpp:52-210 | the invariant holds in every state of every run |
| `ReloadProtocol.GetOfRequest` | cannon_proxy/src/proxy_server.cpp:52-68 | in every run a get asks for the keys of the call that started it, at the version committed at that moment |
| `ReloadProtocol.GetWasStarted` | cannon_proxy/src/proxy_server.cpp:52-68 | every get was started by such a call |
| `ReloadProtocol.RepliedExactly` | cannon_proxy/src/proxy_server.cpp:69-85 | a get has the replies of exactly those shards that answered it |
| `ReloadProtocol.LateExactly` | cannon_proxy/src/proxy_server.cpp:136-157 | a get is overtaken at exactly those shards whose clear for its version came before their answer |
| `ReloadProtocol.OnTimeExactly` | cannon_proxy/src/proxy_server.cpp:69-85 | a get is finished and not overtaken exactly when each of its shards answered before that clear: the condition of the results below, told by the calls alone |
| `ReloadProtocol.CallsAnyTime` | cannon_proxy/src/proxy_server.cpp:52-109 | in every state of every run a get can start, any open shard can answer, and a reload is turned away exactly while the flag is set |
| `ReloadProtocol.FinishedGetSeesOneModel` | cannon_proxy/src/proxy_server.cpp:67-104 | a finished get that no clear overtook gathers, for the keys of its call and on all their shards, the contents of the one model that was committed when the call came |
| `ReloadProtocol.HistoryOfRun` | cannon_proxy/src/proxy_server.cpp:107-162 | the recorded history is the one that the steps of the run tell: the input of the reload started last, and the inputs that failed since the last commit |
| `ReloadProtocol.StartedLast` | cannon_proxy/src/proxy_server.cpp:107-115 | the input is that of the last start of a reload |
| `ReloadProtocol.ModelOfCommit` | cannon_proxy/src/proxy_server.cpp:143-145 | the model of a version is the input of the reload that committed it, on top of the inputs that failed before, for ever |
| `ReloadProtocol.EveryVersionCommitted` | cannon_proxy/src/proxy_server.cpp:143-145 | every version but the first was committed by a step of the run |
| `ReloadProtocol.FailedNames` | cannon_proxy/src/proxy_server.cpp:131-161 | a key is among the failed inputs exactly when a reload that failed since the last commit had it in its input |
| `ReloadProtocol.ReplyIsInput` | cannon_proxy/src/proxy_server.cpp:67-104 | each reply of a finished get that no clear overtook is what the input of its version says about the key, exactly when the key is not left over from a failed reload |
| `ReloadProtocol.ReplyItem` | cannon_proxy/src/proxy_server.cpp:67-104 | the item itself: the value of the first pair of that input that names the key, or not found when none does |
| `ReloadProtocol.NoneFailsMeans` | cannon_proxy/src/proxy_server.cpp:131-161 | no reload failed since the last commit exactly when a commit came after every failed one |
| `ReloadProtocol.FinishedGetReturnsOneInput` | cannon_proxy/src/proxy_server.cpp:67-104 | when no reload failed between the version read and the one before, whatever failed earlier or later, such a get gathers for the keys of its call the input of that one version: never a partial load, never a mix of two |
| `ReloadProtocol.FirstVersionIsEmpty` | cannon_proxy/src/proxy_server.cpp:67-104 | before the first commit a get finds nothing |
| `ReloadProtocol.ContentIsInput` | cannon_proxy/src/proxy_server.cpp:131-145 | in every run, a committed version stores for a key what its input says, exactly when no reload that failed since the commit before had the key in its input |
| `ReloadProtocol.HistoryKept` | cannon_proxy/src/proxy_server.cpp:143-145 | the model of a committed version never changes |
| `ReloadProtocol.OvertakenGetLosesKeys` | cannon_proxy/src/proxy_server.cpp:136-148 | a get that the clear overtakes finds none of its keys at that shard: why the clear must wait |
| `ReloadProtocol.FailedReloadLeavesData` | cannon_proxy/src/proxy_server.cpp:160-161 | after a failed reload the next one starts on the pairs it left, on top of those left before |
| `ReloadProtocol.EmptyReloadLocks` | cannon_proxy/src/proxy_server.cpp:108-109 | after a reload without paths, version and stores never change again |
| `SequentialReload.PlayIsRun` | cannon_proxy/src/proxy_server.cpp:107-162 | steps played one by one from an initial state are a run of the protocol |
| `SequentialReload.InsertsPlay` | cannon_proxy/src/proxy_server.cpp:193-207 | the inserts of one block, shard by shard, can be played and leave no shard waiting |
| `SequentialReload.LoadPlays` | cannon_proxy/src/proxy_server.cpp:115-134 | from every idle state the blocks of a reload can be played one after the other |
| `SequentialReload.ClearPlays` | cannon_proxy/src/proxy_server.cpp:143-157 | the commit and the clears of all shards can be played |
| `SequentialReload.ReloadPlays` | cannon_proxy/src/proxy_server.cpp:107-162 | from every idle state a whole reload can be played to its end; it commits its input exactly when no pair is refused, and otherwise adds it to what is left |
| `SequentialReload.ReloadedStores` | cannon_proxy/src/proxy_server.cpp:107-162 | the stores after these steps are those that the handler's reload leaves |
| `SequentialReload.ReloadRefines` | cannon_proxy/src/proxy_server.cpp:107-162 | calling the handler's reload is playing protocol steps: same stores, version, loading flag and result |
| `SequentialReload.HandlerStarts` | cannon_proxy/src/proxy_server.cpp:213-217 | a new handler with empty clients stands where the protocol starts |
| `SequentialReload.GetPlays` | cannon_proxy/src/proxy_server.cpp:52-85 | in every state a new get can be played to its end, shard after shard; nothing but the get changes |
| `SequentialReload.GetRefines` | cannon_proxy/src/proxy_server.cpp:52-104 | calling the handler's get is playing these steps: the same replies, in the same order |
| `SequentialReload.GatherFinished` | cannon_proxy/src/proxy_server.cpp:76-104 | the response to a get of a cleanly loaded version: a position whose key does not come again has the value of the first pair of the input that names the key, or not found; OK exactly when all keys are named |
| `ReloadExamples.LeftOverIsFound` | cannon_proxy/src/proxy_server.cpp:160-161 | a load that fails on a repeated key, then a load of nothing that succeeds, then a get that finds the key with its value |
| `ReloadExamples.OvertakenIsLost` | cannon_proxy/src/proxy_server.cpp:136-157 | a load that succeeds, a get of its key, the next reload up to the clear of the shard, and only then the answer: the key is not found |
| `ThreadPool.StepFifo` | cannon_proxy/src/thread_pool/ThreadPool.h:47-62 | tasks are taken in the order accepted, none is lost or taken twice, and each taken one is in progress or finished |
| `ThreadPool.StepNoLostWakeup` | cannon_proxy/src/thread_pool/ThreadPool.h:53-54 | while a worker sleeps, every queued task has an awake worker or a notification of its own that is still owed |
| `ThreadPool.SomebodyLooks` | cannon_proxy/src/thread_pool/ThreadPool.h:53-54 | a non-empty queue always has an awake or running worker or a notification that is still owed |
| `ThreadPool.StepStopOk` | cannon_proxy/src/thread_pool/ThreadPool.h:55-56 | workers leave only a stopped pool with an empty queue, and none sleeps through the stop |
| `ThreadPool.RunKeepsInv` | cannon_proxy/src/thread_pool/ThreadPool.h:40-102 | these invariants hold in every state of every interleaving with at least one worker |
| `ThreadPool.RunGoesOn` | cannon_proxy/src/thread_pool/ThreadPool.h:40-102 | a run goes on with any enabled step |
| `ThreadPool.SubmittedEach` | cannon_proxy/src/thread_pool/ThreadPool.h:66-88 | every accepted call submits its task, and nothing else submits any |
| `ThreadPool.AcceptedIsSubmitted` | cannon_proxy/src/thread_pool/ThreadPool.h:66-88 | the pool accepted exactly the tasks of the calls, in their order, and is stopped exactly when a call stopped it |
| `ThreadPool.CallsAnyTime` | cannon_proxy/src/thread_pool/ThreadPool.h:66-102 | in every state of every run a task is accepted unless a call stopped the pool before, and a sleeping worker may wake up by itself |
| `ThreadPool.QuiescentIsDone` | cannon_proxy/src/thread_pool/ThreadPool.h:40-102 | when nothing is owed any more every submitted task was run exactly once and all workers wait, or have left when a call stopped the pool |
| `ThreadPool.AllExitedIsDone` | cannon_proxy/src/thread_pool/ThreadPool.h:93-102 | once all workers have left, a call stopped the pool and every submitted task is finished |
| `ThreadPool.OwedStepPays` | cannon_proxy/src/thread_pool/ThreadPool.h:47-62 | every notification, check and completion lowers the debt |
| `ThreadPool.OwedRunEnds` | cannon_proxy/src/thread_pool/ThreadPool.h:40-102 | without new calls and spurious wake-ups every schedule comes to rest within the debt |
| `ThreadPool.NoWorkersNoProgress` | cannon_proxy/src/thread_pool/ThreadPool.h:40-45 | a pool without workers comes to rest with its task queued |
| `ReversePolish.DigitsAre` | ReversePolishExpression/main.cpp:99-101 | the ten digits, and nothing else, are read as parts of a number |
| `ReversePolish.SplitJoined` | ReversePolishExpression/main.cpp:111-129 | splitting loses and reorders no character |
| `ReversePolish.SplitShow` | ReversePolishExpression/main.cpp:111-129 | a well-formed expression splits into its tokens |
| `ReversePolish.TranslateDefined` | ReversePolishExpression/main.cpp:29-35 | the translation reads no empty stack exactly when no closing parenthesis comes without an open one |
| `ReversePolish.UnknownIsSkipped` | ReversePolishExpression/main.cpp:52-54 | elements that are no number, parenthesis or operator do not change the translation |
| `ReversePolish.RunExp` | ReversePolishExpression/main.cpp:20-57 | a run emits its operands and leaves its operators on the stack, each to be emitted after everything to its right |
| `ReversePolish.RunTerm` | ReversePolishExpression/main.cpp:48-51 | a run of `*` and `/` leaves all its operators pending |
| `ReversePolish.RunAtom` | ReversePolishExpression/main.cpp:21-35 | a number is emitted; a parenthesis emits the postorder of its content and leaves the stack as it was |
| `ReversePolish.FlushCompletes` | ReversePolishExpression/main.cpp:29-34 | emitting the operators left completes the postorder |
| `ReversePolish.TranslateIsPostorder` | ReversePolishExpression/main.cpp:10-62 | every well-formed expression is translated to the postorder of its right-recursive tree |
| `ReversePolish.ValueIsNumber` | ReversePolishExpression/main.cpp:68-68 | a digit run stands for the number that it writes in decimal |
| `ReversePolish.ValueFront` | ReversePolishExpression/main.cpp:68-68 | the first digit counts its power of ten |
| `ReversePolish.OperatorsMeanArithmetic` | ReversePolishExpression/main.cpp:75-87 | the four operators are those of arithmetic |
| `ReversePolish.ExecPostorder` | ReversePolishExpression/main.cpp:64-96 | running a postorder never underflows and pushes the tree's value, or meets one of the tree's zero divisors |
| `ReversePolish.TranslateThenRun` | ReversePolishExpression/main.cpp:10-96 | translating and running an expression gives its right-grouping value |
| `ReversePolish.HarmlessEqual` | ReversePolishExpression/main.cpp:36-51 | when in every run only the last operator is `-` or `/`, grouping to the right has the usual value |
| `ReversePolish.HarmfulDiffers` | ReversePolishExpression/main.cpp:36-51 | any other shape has numbers for which the two values differ |
| `ReversePolish.UsualExactlyWhenHarmless` | ReversePolishExpression/main.cpp:10-96 | the usual value for all numbers exactly when in every run only the last operator is `-` or `/` |
| `ReversePolish.RightGroupingExample` | ReversePolishExpression/main.cpp:38-39 | 1-1+1 is evaluated to -1 |
| `ReversePolish.ProgramExample` | ReversePolishExpression/main.cpp:134-138 | (1+2)/10+6/3+7+8 has the value 17.3, as the program checks |
| `ReversePolish.ReversePolishExpression.SplitExp` | ReversePolishExpression/main.cpp:111-129 | maximal digit runs, and every other character by itself |
| `ReversePolish.ReversePolishExpression.PushAdd` | ReversePolishExpression/main.cpp:36-47 | `*` and `/` on top are emitted before a `+` or `-` is pushed, and nothing else |
| `ReversePolish.ReversePolishExpression.ReadNumber` | ReversePolishExpression/main.cpp:117-120 | the maximal digit run at a position |
| `ReversePolish.ReversePolishExpression.SetExp` | ReversePolishExpression/main.cpp:10-62 | the translation; for a well-formed expression the postorder of its right-recursive tree |
| `ReversePolish.ReversePolishExpression.Calculate` | ReversePolishExpression/main.cpp:64-96 | the value of the tree whose postorder was set |
| `Kmp.NextCandidate` | KMP/main.cpp:30-32 | after a mismatch the next candidate is the longest border of the failed one, and no longer border is missed |
| `Kmp.CandidateFound` | KMP/main.cpp:28-29 | a candidate that agrees gives the longest border of the next prefix |
| `Kmp.BorderOfBorder` | KMP/main.cpp:30-32 | the shorter of two borders is a border of the longer one |
| `Kmp.FirstCandidate` | KMP/main.cpp:28-29 | the longest border just written is the first candidate for the next prefix |
| `Kmp.GetNext` | KMP/main.cpp:19-36 | `next[0]` is -1 and `next[j]` the longest proper border of the first j characters, in at most two rounds per character; the highest cell written is `len`, one past the source's table |
| `Kmp.OccursMeans` | KMP/main.cpp:45-56 | an occurrence, character by character |
| `Kmp.SlideSkipsNothing` | KMP/main.cpp:50-52 | sliding the pattern to its longest border skips no occurrence |
| `Kmp.OverlapIsBorder` | KMP/main.cpp:50-52 | an occurrence that starts inside the matched part overlaps it in a border |
| `Kmp.MatchGrows` | KMP/main.cpp:48-49 | an agreeing character extends the match |
| `Kmp.Kmp` | KMP/main.cpp:38-60 | the leftmost occurrence, -1 exactly when there is none, 0 for an empty pattern, in at most 2n+1 rounds; no cell that the source's table lacks is read |
| `StringMultiply.NumberByDigits` | StringMultiplication/main.cpp:14-17 | a numeral is read in decimal, digit by digit |
| `StringMultiply.DecimalExample` | StringMultiplication/main.cpp:7-30 | "144" is 144, the product of "12" and "12" |
| `StringMultiply.CanonicalUnique` | StringMultiplication/main.cpp:22-29 | a number has one canonical numeral, so the result is determined as a string |
| `StringMultiply.RowContinues` | StringMultiplication/main.cpp:14-18 | one digit product keeps the value of cells and carry equal to the partial product |
| `StringMultiply.RowEnds` | StringMultiplication/main.cpp:19-19 | the cell that takes the last carry was still zero, and the row is multiplied in |
| `StringMultiply.ProductZero` | StringMultiplication/main.cpp:8-8 | a product is zero exactly when one operand has no digit but zeros |
| `StringMultiply.OneZeroAtMost` | StringMultiplication/main.cpp:22-22 | at most one leading cell of the product is zero |
| `StringMultiply.MultiplyRow` | StringMultiplication/main.cpp:12-20 | one outer round: all cells stay digits, the carry stays at most 9, one more row is multiplied in |
| `StringMultiply.Render` | StringMultiplication/main.cpp:23-27 | the cells from a position on, as characters |
| `StringMultiply.StringMultiply` | StringMultiplication/main.cpp:7-30 | the canonical numeral of the product; "0" for an empty operand or a leading zero, right exactly when an operand is all zeros |
| `QuickSort.Pivot` | qsort/main.cpp:13-14 | the three-sample formula; as the code calls it, the larger of the last and the middle element, so it occurs in the range |
| `QuickSort.Partition` | qsort/main.cpp:17-26 | the range is rearranged into below, equal and above the pivot, and the middle part is not empty |
| `QuickSort.Swap` | qsort/main.cpp:20-22 | a swap inside the range keeps it a rearrangement |
| `QuickSort.ThreeWaySorted` | qsort/main.cpp:28-29 | a three-way partition whose outer parts are sorted is sorted |
| `QuickSort.PartsSorted` | qsort/main.cpp:28-29 | sorting the two outer parts sorts the range |
| `QuickSort.SortedFromMeans` | qsort/main.cpp:6-30 | what sorted means here: the same numbers, in order from `s` to `e`, and nothing else moved |
| `QuickSort.SortTwo` | qsort/main.cpp:8-11 | two elements are put in order |
| `QuickSort.Qsort` | qsort/main.cpp:6-30 | the range is rearranged into sorted order, nothing else changes, and both recursive ranges are shorter |
| `MergeLists.MergedNodes` | mergeSortedLists/main.cpp:23-54 | the merge has exactly the given nodes |
| `MergeLists.MergedSorted` | mergeSortedLists/main.cpp:31-37 | the merge of sorted lists is sorted |
| `MergeLists.FirstKeepsOrder` | mergeSortedLists/main.cpp:31-37 | the nodes of the first list keep their order |
| `MergeLists.SecondKeepsOrder` | mergeSortedLists/main.cpp:31-37 | the nodes of the second list keep their order |
| `MergeLists.TiesFromSecond` | mergeSortedLists/main.cpp:31-37 | on a tie the second list's node comes first |
| `MergeLists.MergedNoRepeats` | mergeSortedLists/main.cpp:39-51 | the merge visits no node twice |
| `MergeLists.Link` | mergeSortedLists/main.cpp:39-40 | one node is appended to the linked part |
| `MergeLists.Finish` | mergeSortedLists/main.cpp:42-50 | the rest of the other list completes the result |
| `MergeLists.SplitTakesFirst` | mergeSortedLists/main.cpp:31-33 | taking the smaller head of the first list keeps the partial merge |
| `MergeLists.SplitTakesSecond` | mergeSortedLists/main.cpp:34-37 | taking the head of the second list, also on a tie, keeps the partial merge |
| `MergeLists.MergeSortedLists` | mergeSortedLists/main.cpp:23-54 | relinks the given nodes into the null-terminated list of their merge |

## Left out

- Serialisation, sockets, RPC clients, server mains, scripts and generated code: a request to a server is one atomic step.
- Files and parsing: a reload takes its blocks of key/value pairs, the byte map its buffer.
- Hash bit mixing (`bytes_hash_functions.h`): a hash is any function of the key.
- `lr_sgd/Source.cpp`: floating point, randomness and files.
- Logging, timing, memory exhaustion, floating-point rounding and wrap-around of version counters and vector sizes.
- ThreadPool and ReloadProtocol are step systems over values: their subject is the interleaving, so updates in place are not captured there.
- The five-second sleep before the clear: the protocol allows a clear at any moment and records which gets it overtakes.
- The thrown error of `enqueue` on a stopped pool is a step without effect; futures and the bodies of tasks are not modelled.
- The copy of the chained table in the storage server's sources has the same logic and is modelled once.
- A refused insert aborts a debug build of the storage server (`DLOG(FATAL)`); the model is the release build, which goes on.
- Freeing memory: entries of a chained table that is reset are dropped.
- ReversePolish.ReversePolishExpression.SetExp: requires that no closing parenthesis comes without an open one, where the source reads an empty vector.
- ReversePolish.ReversePolishExpression.Calculate: requires operands for every operator and non-zero divisors, since doubles divide by zero and reals do not.
- Proxy.CannonServiceHandler.Reload: runs without other calls in between; interleavings are the subject of the protocol module.
- ByteHashMap.ImmutableHashMap.LoadKvs: requires a positive record size, a buffer of whole records, and zero in the index cells that it counts in, as on a map that was not loaded before; with a partial last record the source counts a record that is not there.
- ByteHashMap.ImmutableHashMap.BuildIndexes: requires zero in the index cells that it counts in; `Buckets.StaleCellsShiftBuckets` shows that the bucket starts are wrong otherwise.
