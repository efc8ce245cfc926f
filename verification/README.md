# A verified model of the shmcache store

The repository is a key-value store in shared memory (`shmc.c`, `shmc.h`), its hash function (`hash.c`), and a
memcached-style server in front of it (`netshell/`). This project models them in Dafny and proves that the
store's linked structures always implement a simple cache, and what that cache guarantees.

`dafny verify dfyconfig.toml` checks everything.

## How the model is built

Two descriptions of the store are proved to agree.

* **Cache** (`Cache.dfy`) is the specification: a map from keys to values and flags, one recency sequence of keys
  per size class, and per class the number of free chunks and of pages. Every public operation is a function from
  cache to cache and reply. `Conservation.dfy` and `Runs.dfy` prove what holds of it over all runs.
* **Store** (`Store.dfy`) is the code: a class whose fields are the arrays and counters of the mapped area. Links are
  relative addresses, as in the code; the fields of the item at address a are `next[a]`, `prev[a]`, `hnext[a]` and
  `meta[a]`, and its key and value are bytes of `raw` behind a 64-byte header. Methods follow the C functions branch
  by branch. Ghost fields record which chunk is on which list (`Links`) and which cache the arrays mean. `Valid()`
  says that every list is a well-formed linked list, that every carved chunk is in exactly one place, that chunks do
  not overlap, that chains and hash agree, and that every item's header and bytes are those of the cache. The lemmas
  behind it are in `Lists.dfy` and `Heap.dfy`.

Each public method ensures `Valid()` and that the new cache and the reply are those of the specification
function applied to the old cache, so all theorems about the cache hold of the arrays; `Client.Execute` states this for
whole runs of calls (`Calls.dfy`), dumps and loads included.

Around this core:

* `Slabs.dfy`: the chunk sizes, and the class an item belongs to. `Layout.dfy`: the sections of the mapping.
* `Lookup3.dfy`: the hash. One reference definition on the zero-padded key, and the three little-endian readers as
  methods that compute it. The store's index relies on the result: insertion hashes the caller's key, eviction the stored
  copy, which may be aligned differently.
* `Outcomes.dfy`: what an operation tells its caller and what the caller finds afterwards, in terms of the state before and
  of plain numbers and bytes.
* `Counter.dfy`: the decimal cells of incr and decr.
* `DumpFormat.dfy`, `Reload.dfy`, `Backup.dfy`: the text of a dump; the buffered loader, with its exact behaviour when a
  full buffer ends with a line; the round trip through a file; the two C functions over the arrays. `Instances.dfy`:
  stores that do not survive it.
* `Image.dfy`, `Readers.dfy`: processes that share the mapping. A step is one access to shared memory: readers walk
  the chain, take the mutex, perform the nine writes of a relink one by one, and copy the value byte by byte, while
  others do the same. A writer's call appears as arbitrary disarray of the memory under the write lock followed by an
  image of the result; that the methods of the store end in such an image is `Client.Write`.
* `Numbers.dfy`: atoi and strtoul.
* `Token.dfy`, `Requests.dfy`, `Writes.dfy`: the tokenizer, request framing and partial writes of the server.

## Where the code falls short of what one would expect

These are properties that are false of the code as written. The model keeps the code's behaviour; each has its exact
condition and a concrete instance.

* item_size_ok does not keep item_clsid inside the slab table (`Slabs.SizeOkSufficesIff`, `Slabs.DefaultGap`). set and add
  therefore require, as the code silently does, that an item accepted by the size check has a class (`SetDefined`,
  `AddDefined` in `Cache.dfy`), and a counter update that needs a new cell requires both (`ArithDefined`), the size check
  being an assertion in item_alloc. replace, prepend and append call item_clsid before any size check, so for a key
  that is there they require a class for every size (`ReplaceDefined`, `GrowDefined`), and their size error is reachable
  for one size only (`Runs.LateSizeIff`, `Runs.LateSizeHappens`).
* incr or decr on a value that is not a counter cell yet may evict the very item it updates, and then reports success
  although the item is gone (`Runs.OwnKey`, `Runs.CounterStoredIff`, `Runs.SelfEvictionHappens`).
* An append or prepend that moves the item writes the new flags into the old chunk, and the item keeps what the header of
  its new chunk held: exactly when the value changes its class (`Runs.GrowFlagsIff`, `Store.Shmc.Grow`,
  `Client.AppendLosesFlags`).
* load ends early and reports success when a full buffer ends with the end of a line (`DumpFormat.LoadIff`,
  `Instances.LoadLosesItem`).
* A key or value with a NUL, which includes every counter, does not survive a dump (`Reload.ReloadIff`,
  `Counter.CellHoldsNul`, `Instances.CounterNotReloaded`, `Instances.CounterLost`), and may take other items with it
  (`Instances.CounterSwallows`).
* A request line that ends in a backslash hides its own terminator from the tokenizer, which goes on with whatever lies
  behind it in the header buffer (`Requests.AstrayIff`, `Requests.StrayLine`).
* onWrite compares errno with -1, which it never is after a refused write, so a reply that the socket does not take at once
  closes the connection (`Writes.Sender.OnWrite`, `Writes.RefusedWriteCloses`).

Conditions assumed throughout: at least one bucket, item_size_max a multiple of 8 (otherwise a class may get no chunk
at all), the first pages of all classes fit the pool, and the growth factor is a fraction whose product is rounded down.

## Model

| member | source | states |
|---|---|---|
| Slabs.Clamp | shmc.c:307-309 | the stored factor is the larger of the caller's and 3/2, which is what makes the size loops end, and every other attribute is the caller's |
| Slabs.AlignSize | shmc.c:136-138 | the result is a multiple of 8, not below the argument and less than 8 above it |
| Slabs.GrowsByHalf | shmc.c:155-198 | rounding down included, one step multiplies a size by at least 3/2 less one half |
| Slabs.Grow | shmc.c:155-198 | one step is the product with the factor, rounded down |
| Slabs.ScheduleShape | shmc.c:155-198 | for every starting size the chunk sizes start with it aligned, strictly increase, are multiples of 8 within the limit, each is the aligned product of the one before, and they go on until the product reaches the limit |
| Slabs.CountOfSlabs | shmc.c:155-166 | the loop ends and counts exactly the sizes that format_slabs will use |
| Slabs.FormatSizes | shmc.c:168-198 | the table filled by the formatting loop is the schedule that was counted, with the chunks per page of each size |
| Slabs.ConfigValid | shmc.c:168-198 | when item_size_max is a multiple of 8 above the smallest size, every class has at least one chunk per page |
| Slabs.Config.ClassOf | shmc.c:144-153 | for every size up to the last chunk size: a class that is large enough whose predecessor is not |
| Slabs.Config.ClassLeast | shmc.c:144-153 | no smaller class would have done |
| Slabs.WasteBound | shmc.c:136-198 | beyond the first class, the chunk chosen is smaller than factor times item plus the alignment |
| Slabs.SizeOkSufficesIff | shmc.c:66-67 | item_size_ok keeps item_clsid inside the slab table if and only if item_size_max is at most one above the last chunk size |
| Slabs.DefaultGap | shmc.h:211-215 | with the default attributes it does not: the last size is 524288, and 600000 passes item_size_ok |
| Lookup3.MixReversible | hash.c:80-88 | mix is a bijection on triples of words, with an explicit inverse on both sides |
| Lookup3.Mix | hash.c:80-88 | the eighteen assignments compute that bijection |
| Lookup3.FinalReversible | hash.c:115-124 | final is a bijection on triples of words, with an explicit inverse on both sides |
| Lookup3.Final | hash.c:115-124 | the fourteen assignments compute that bijection |
| Lookup3.Masks | hash.c:166-182 | masking a 32-bit load drops exactly the bytes behind the end of the key |
| Lookup3.JoinIsSum | hash.c:254-295 | adding four shifted bytes equals one little-endian load |
| Lookup3.HashBytes | hash.c:254-295 | the byte reader computes the reference hash of the zero-padded key, for every key |
| Lookup3.HashHalves | hash.c:207-252 | the 16-bit reader with its fall-through switch computes the same hash |
| Lookup3.HashWords | hash.c:139-183 | the 32-bit reader computes the same hash, whatever bytes lie behind the key in its last word |
| Lookup3.HashAt | hash.c:127-299 | the hash depends on the key alone: not on its address, nor on what follows it |
| Lookup3.BlocksInjectiveInState | hash.c:258-275 | over any number of blocks, different states stay different |
| Lookup3.OneBlockDiffers | hash.c:258-275 | two keys of one length that differ in exactly one block before the last reach different states after the loop |
| Lookup3.KnownValue | hash.c:127-299 | the hash of a text of thirty bytes is the value published for it, which fixes every constant and rotation |
| Lookup3.TwelveBytes | hash.c:258-299 | a text of just twelve bytes is one last block, not a block and an empty rest |
| Counter.CellFits | shmc.c:553-576 | every 64-bit number and its terminator fit the 21-byte cell |
| Counter.SafeStrtoull | shmc.c:524-537 | the scan loop reads the leading decimal digits of at most 20 bytes, modulo 2^64 |
| Counter.CellRoundTrip | shmc.c:524-602 | a number printed into a cell reads back as itself, whatever longer digits the cell held before |
| Counter.ReadBounded | shmc.c:524-537 | any value at all reads as a 64-bit number |
| Numbers.ReadIsMod | shmc.c:524-537 | it reads as the digits of its first twenty bytes, a number of any size, modulo 2^64 |
| Cache.GrowKeeps | shmc.c:466-519 | allocating for a growing item never evicts that item |
| Conservation.ApplyKeeps | shmc.c:368-624 | every operation keeps: keys partitioned by class over the recency sequences, free plus used chunks equal to pages times chunks per page, pool bytes equal to the pages' bytes and below the limit |
| Conservation.FreshInv | shmc.c:168-198 | a formatted store is empty and satisfies all of that |
| Runs.RunKeeps | shmc.c:368-917 | all of that holds after every run of operations, from any store in which it holds; nothing is assumed of the states in between |
| Runs.StepKeepsOthers | shmc.c:368-624 | an operation changes its own key only, except that at most one other item may be lost, and then it is the least recently used of a class that has no free chunk and no room for a page |
| Runs.OwnKey | shmc.c:368-624 | under its own key every operation does what it would do to a dictionary, except exactly when a counter update evicts its own item |
| Outcomes.Replies | shmc.c:368-624 | every operation answers with each status exactly under a condition on the state before it, and a read with the value and flags that are there |
| Outcomes.Stores | shmc.c:407-453 | a set, add or replace that succeeds has stored its value and flags; an add that is refused changed nothing |
| Outcomes.Extended | shmc.c:455-522 | a prepend that succeeds has put the new bytes in front of the old ones, an append behind them, nothing lost or repeated, wherever the item is now |
| Outcomes.Counts | shmc.c:588-598 | the number incr reports is old plus argument modulo 2^64, the one decr reports is old minus argument, or 0 where that is negative |
| Outcomes.CounterFlags | shmc.c:577-588 | a cell keeps its flags, any other item gets the caller's if there are any, and the flags reported are those stored |
| Runs.NothingIff | shmc.c:845-893 | item_alloc returns null if and only if eviction is off, the class has no free chunk and one more page does not fit |
| Runs.EvictingNeverFails | shmc.c:368-624 | a store that may evict never reports that it is out of memory, for any operation |
| Runs.NoMemoryIff | shmc.c:368-624 | every operation reports that it is out of memory if and only if it needs a chunk of a class that has no free one, no page more fits and eviction is off; a set or replace has lost the old item by then, any other changed nothing |
| Runs.SetFailsIff | shmc.c:407-425 | for set, where the old item's chunk counts as free, and the key is then absent |
| Runs.LateSizeIff | shmc.c:435-487 | replace, prepend and append, which look for the class first, give the size error if and only if the item has exactly item_size_max bytes and does not stay in its chunk |
| Runs.LateSizeHappens | shmc.c:455-471 | a concrete append that ends so |
| Runs.TightClassesMade | shmc.c:155-198 | the attributes that give the slab table of that store |
| Runs.SameClassOverwrite | shmc.c:407-425 | a set whose size stays in the old item's class succeeds, loses no other item and takes nothing from the pool |
| Runs.RunOrdered | shmc.c:368-602 | after every run, each class's recency sequence is strictly decreasing in the time of last touch |
| Runs.VictimLeastRecent | shmc.c:876-886 | in any store reached from a new one, the next victim was touched before every other item of its class |
| Runs.CounterRun | shmc.c:539-612 | over any run in which a counter stays alive, it holds the fold of additions modulo 2^64 and subtractions floored at zero, whatever else the run does |
| Outcomes.CounterSums | shmc.c:539-612 | after increments alone it holds its start plus their sum modulo 2^64, after decrements alone its start less their sum, or 0 |
| Runs.CounterStoredIff | shmc.c:539-602 | a number that incr or decr reports has been stored, if and only if the update did not evict its own item |
| Runs.SelfEvictionHappens | shmc.c:557-577 | a concrete store in which an increment reports 8 and the item is gone |
| Runs.OneChunkMade | shmc.c:155-198 | the attributes that give the slab table of that store |
| Runs.GrowFlagsIff | shmc.c:466-519 | a successful prepend or append is sure to store its flags if and only if the item stays in its chunk; otherwise the flags are whatever the header of the new chunk held |
| Runs.ItemsListed | shmc.c:756-788 | the recency sequences together hold each item once |
| Heap.LinkLru | shmc.c:756-769 | pushing a chunk keeps all LRU lists well formed, next and prev inverse to each other and heads and tails the true ends |
| Heap.UnlinkLru | shmc.c:771-788 | so does unlinking, from any place of the list |
| Heap.PushFree | shmc.c:908-917 | pushing a chunk on a free list disturbs no other free or LRU list although they share the next array |
| Heap.ChainInsert | shmc.c:814-822 | inserting keeps every chain acyclic, and every item in the chain of its key's bucket and no other |
| Heap.ChainDelete | shmc.c:824-843 | so does deleting through the pointer that led to the chunk |
| Heap.ChainMiss | shmc.c:796-812 | a walk that ends without a match proves the key absent from the whole index |
| Heap.ChainedItems | shmc.c:814-843 | the chains together hold each item once |
| Store.Shmc.ItemClsid | shmc.c:144-153 | the loop over the slab table finds the least class that fits |
| Store.Shmc.ItemLink | shmc.c:756-769 | the pointer writes put the chunk at the front of its class's list and leave every list in order |
| Store.Shmc.ItemUnlink | shmc.c:771-788 | the pointer writes take the chunk out of its list and leave every list in order; on an unlisted chunk with null links they do nothing |
| Store.Shmc.ItemRelink | shmc.c:790-794 | the chunk is moved to the front, and nothing else changes |
| Store.Shmc.ItemFree | shmc.c:908-917 | the chunk goes to the free list of the class it was carved for |
| Store.Shmc.AssocFind | shmc.c:796-812 | the chain walk returns the item of the key if there is one, and null otherwise |
| Store.Shmc.AssocInsert | shmc.c:814-822 | the new item is first in its bucket's chain, and all chains stay in order |
| Store.Shmc.AssocDelete | shmc.c:824-843 | the walk through the pointer to the current chunk removes exactly the key's item, if present |
| Store.Shmc.CarveLoop | shmc.c:861-869 | the carving loop turns one page into disjoint free chunks of its class |
| Store.Shmc.EvictTail | shmc.c:871-881 | the eviction branch removes exactly the last item of the class's list, and its chunk becomes the first free one |
| Store.Shmc.ItemAlloc | shmc.c:845-906 | a chunk of the right class on no list, header filled in except for its flags, or null exactly when free list, pool and permitted victim all fail; the retry after eviction always succeeds; which chunk it is follows from the state before |
| Store.Shmc.Publish | shmc.c:417-420 | inserting and linking before the key is copied leaves only that one item's bytes undefined |
| Store.Shmc.Close | shmc.c:420-422 | once key, value and header are copied every item's bytes are again what the cache says |
| Store.Shmc.Get | shmc.c:368-386 | all lists and bytes in order before and after; value, flags and return code those of the cache, the item most recently used even when the copy cannot be allocated, nothing else changed |
| Store.Shmc.Getf | shmc.c:388-405 | likewise into a buffer of the caller; the item becomes most recently used even when the buffer is too small |
| Store.Shmc.Set | shmc.c:407-425 | all lists and bytes in order; the new cache has the value under its key, has lost at most the victim, and has lost the key itself when no memory is found |
| Store.Shmc.Add | shmc.c:427-433 | all lists and bytes in order; an existing key is left alone, another is set |
| Store.Shmc.Replace | shmc.c:435-453 | all lists and bytes in order; a missing key stays missing, a value of the same class is overwritten in its chunk, any other is deleted and set anew |
| Store.Shmc.Grow | shmc.c:455-522 | prepend and append: on both paths the value has the new bytes in front of the old ones, or behind them; a moved item is in another chunk, the one item_alloc takes, and has the flags that chunk's header held before, which for an evicted item's chunk are that item's |
| Store.Shmc.Arith | shmc.c:539-612 | incr and decr: all lists and bytes in order; the number reported is the sum of the old one and the argument modulo 2^64, or their difference, or 0, and it is stored in a cell except when the update evicts its own item |
| Store.Shmc.Del | shmc.c:614-624 | all lists and bytes in order; success and the key is gone and its chunk free, or not found and nothing changed |
| Store.Shmc.constructor | shmc.c:168-198 | an empty store with one page of free chunks in every class |
| Store.Shmc.CountsAgree | shmc.c:756-843 | nitems equals the number of items, the total length of the LRU lists and the total length of the chains |
| Store.Shmc.EveryChunkOnce | shmc.c:756-917 | every chunk carved is on the free list of its class, or on the LRU list of its class and the chain of its key's bucket, and on nothing else |
| Store.Shmc.ChunksDisjoint | shmc.c:857-869 | chunks carved are pairwise disjoint, inside the raw area and below mem_used |
| Client.PerformSingle | shmc.h:53-128 | each operation on the arrays is one step of the specification |
| Client.Perform | shmc.h:53-142 | so is each call, a dump or a load of a file included |
| Client.Execute | shmc.c:368-713 | any run of calls on the arrays, dumps and loads among them, gives the results and the cache of the same run of the specification, and leaves every list in order |
| Client.Write | shmc.h:69-142 | a writer that performs its call can commit: what it leaves in the arrays is the image that the concurrent model's step asks for |
| Client.WriteOn | shmc.h:69-142 | in any execution in which a thread has just taken the write lock for an allowed call, the call can be performed on the memory as it is, and the execution goes on with its commit |
| Client.AppendLosesFlags | shmc.c:466-519 | a new store in which k holds a with flags 5: an append with flags 7 moves the item, reports success and leaves flags 0 |
| Client.TwoClassesMade | shmc.c:155-198 | the attributes that give the slab table of that store |
| Calls.SinglesRun | shmc.c:368-624 | a run of calls that are single operations is the run of these operations |
| DumpFormat.ParseWhole | shmc.c:638-693 | a dumped line parses back to its key and value, whatever follows it |
| DumpFormat.ParsePart | shmc.c:673-687 | a line cut short anywhere never parses |
| DumpFormat.ParseFill | shmc.c:667-696 | from the first n bytes of a dump the inner loop takes exactly the lines that are wholly there |
| DumpFormat.LoadExact | shmc.c:648-713 | loading the dump of any NUL-free records whose lengths fit an int gives the first records in order, how many following from line lengths alone, through all buffer fills |
| DumpFormat.LoadIff | shmc.c:626-713 | all records come back if and only if none holds a NUL, no line exceeds the buffer, and no fill but the last ends with the end of a line |
| Reload.PutStops | shmc.c:667-710 | a load sets records with flags 0 up to the first that is refused, gives its status, and sets none behind it |
| Reload.PutReproduces | shmc.c:626-713 | setting the dumped records one by one in a new store never fails and never evicts, and yields the same keys and values, flags 0, every recency sequence reversed, and no more pages in any class |
| Reload.ReloadIff | shmc.c:626-713 | dump then load into a new store succeeds with the same contents if and only if no NUL occurs, every item passes item_size_ok, no line exceeds the buffer and no fill but the last ends on a line end |
| Reload.NulFreeLoadDefined | shmc.c:648-713 | loading the dump of a NUL-free store whose lengths fit an int never looks past the slab table and never reads a number that is no length |
| Instances.LoadLosesItem | shmc.c:697-708 | four items set in a new store with the default attributes; its dump is these four, and loading it into another new store reports success with the least recently used item missing |
| Instances.CounterNotReloaded | shmc.c:566-602 | a store that holds a counter never comes back whole from its dump |
| Instances.CounterLost | shmc.c:566-709 | a new store in which a counter was incremented once; loading its dump into a new store ends with the size error and no item |
| Instances.CounterSwallows | shmc.c:626-713 | a dump with a counter in front: the load takes the start of the next line for the counter's value, goes on at a newline that atoi skips, and reports success with one item lost |
| Counter.CellHoldsNul | shmc.c:566-602 | every cell holds a NUL right behind its digits |
| Backup.Dump | shmc.c:626-646 | the walk along heads and next writes the records of the cache class by class, most recent first |
| Backup.ParseAt | shmc.c:669-691 | finding the spaces, overwriting them for atoi (white space, sign and digits) and restoring them parses one record and leaves the buffer unchanged |
| Backup.Load | shmc.c:648-713 | the buffered loop over the file sets what the specification of load says, with its return code, and leaves every list in order |
| Backup.Copy | shmc.c:626-713 | over the arrays: dumping a store and loading the file into a new one succeeds with the same contents if and only if the store is dumpable, and then rebuilds it with every recency list reversed |
| Image.ValidIsRep | shmc.c:368-624 | what every operation leaves in the arrays is an image the concurrent model accepts |
| Image.ValidIff | shmc.c:368-624 | a store is valid if and only if its arrays are disjoint and hold such an image |
| Image.Attached | shmc.c:256-293 | from every such image a process that attaches gets a valid store |
| Image.WritesRelink | shmc.c:756-794 | the nine memory writes of a relink, one after the other, lead from a well-formed image to the well-formed image with the item in front |
| Readers.StepInvariant | shmc.h:53-142 | locks, memory, serial log and returned replies stay in order at every memory access of every process |
| Readers.ExecutionInvariant | shmc.h:53-142 | the invariant holds in every state of every interleaving |
| Readers.StoreStarts | shmc.c:168-198 | any store the operations have left is a state in which the concurrent model can start |
| Readers.WritersAlone | shmc.h:69-142 | no writer ever shares its section with a reader or another writer |
| Readers.WriterStarts | shmc.h:69-142 | a writer that takes the lock finds all lists in order, holding the cache of the serial log |
| Readers.QuietIsRep | shmc.c:368-405 | whenever the mutex is free and no writer is at work, all lists are well formed and hold the cache of the serial log |
| Readers.NothingMovesUnderReaders | shmc.c:368-405 | while anybody reads, no step changes a chain, a header, a key, a value or the set of items, and recency sequences are at most permuted |
| Readers.Linearizable | shmc.h:53-142 | every call that has returned, dump and load included, got the result of one serial run of all calls, at a place between its call and its return |
| Readers.RealTimeOrder | shmc.h:53-142 | a call that returned before another was made precedes it in that serial run |
| Readers.ReaderGoesOn | shmc.c:368-405 | the guards of a reader's steps hold whenever it gets there, except for the mutex |
| Readers.NoDeadlock | shmc.c:372-374 | as long as readers are under way, one of them can take its next step |
| Layout.FormatMmap | shmc.c:111-134 | the nine sections lie one behind the other with the lengths that size_of_mmap adds up: version, attributes, two locks, heads, tails, buckets, slab table, raw memory |
| Layout.SizeOfMmap | shmc.c:80-109 | the size is the sum of those lengths |
| Layout.TilesPartition | shmc.c:80-134 | every byte of the mapping lies in exactly one section |
| Layout.Create | shmc.c:200-223 | a process that creates a store keeps the caller's attributes but for the raised factor, and counts and lays out the sections for them |
| Layout.Attach | shmc.c:256-293 | from the stored attributes alone a process computes slab count, size and sections |
| Layout.CreateThenAttach | shmc.c:200-293 | after creation by one process, another that attaches has the same slab count and every section at the same place |
| Layout.TilesUnique | shmc.c:111-134 | sections of the same lengths are the same sections |
| Token.Tokenize | netshell/token.c:5-43 | in any memory where it stays: the loop stores the tokens and the sentinel of the scan, ends every token with a NUL and changes no other byte |
| Token.StandaloneIff | netshell/token.c:12-39 | the tokens of a command depend on the command alone, not on what lies behind its terminator, if and only if the scan ends at the terminator or before |
| Token.OffIff | netshell/token.c:13-36 | it runs past the terminator if and only if the command ends in an open escape that is reached before the tokens are used up |
| Token.ScanApart | netshell/token.c:18-32 | in any memory, tokens are not empty, ordered and disjoint, with at least one byte between them, and none ends behind the place where the scan does |
| Token.RoundTrip | netshell/token.c:5-43 | words joined by one or more spaces, in front of a NUL, come back in order, the first mtokens-1 of them, and the sentinel points behind the first space after them or is null at the end |
| Token.EveryText | netshell/token.c:12-39 | every command without an unescaped NUL and without an open escape at its end is such a text, so the round trip covers all inputs for which the source defines a result |
| Token.TokenStrings | netshell/token.c:18-32 | after the call the string at each token is the word itself |
| Requests.LineEnds | netshell/mcshell.cc:400-500 | a carriage return in front of the newline makes no difference, the line reported is the one without it, and what lies behind the newline is the body as far as one is announced |
| Requests.EmptyLines | netshell/mcshell.cc:416-421 | an empty line is a request of no words; a lone carriage return stays in its line |
| Requests.NoLine | netshell/mcshell.cc:400-414 | a line is too long exactly when the full buffer holds no newline, and waited for exactly while less than that has come without one |
| Requests.LineMeans | netshell/mcshell.cc:432-475 | a line of words closes the connection exactly if it is quit, and announces a body exactly if it is five words of which the first is one of the storing commands, with the length in the fifth |
| Numbers.StrtoulRead | netshell/mcshell.cc:472 | white space, a sign and digits read as that number, wrapped when negative and saturated when out of range |
| Requests.AnySplit | netshell/mcshell.cc:380-632 | the outcome of a request, going astray included, depends on its bytes alone, not on the pieces they arrived in |
| Requests.ProgressStable | netshell/mcshell.cc:380-632 | once a request is complete, its line too long or astray, further bytes change nothing about that |
| Requests.AstrayIff | netshell/mcshell.cc:400-424 | a line is tokenized in one way only, whatever lies behind it in the header buffer, unless it goes astray; it does if and only if it ends in an open escape with fewer than six tokens before |
| Requests.StrayLine | netshell/mcshell.cc:421-472 | a line that goes astray: with a NUL behind it it announces five bytes of value, with a space and a word behind it it is no storing command |
| Requests.Receiver.OnRead | netshell/mcshell.cc:362-508 | header filled, line found and body started agree with the bytes received, all counts within their buffers; quit closes the connection |
| Requests.Receiver.Interpret | netshell/mcshell.cc:421-472 | tokenizing the line in the header buffer, comparing the strings at its tokens and reading one with strtoul (white space, sign, wrap and saturation included) gives the announcement that the line alone determines, and changes nothing behind it |
| Requests.Receiver.OnNRead | netshell/mcshell.cc:588-632 | the body is completed across any number of calls |
| Requests.Receiver.Readable | netshell/mcshell.cc:362-721 | after each readiness event the connection is in the state that all bytes received so far, in one piece, would have led to, unless the line goes astray or the body's size wraps |
| Writes.AdvanceDrops | netshell/mcshell.cc:656-666 | after nn bytes the vector covers exactly the bytes still to go |
| Writes.Account | netshell/mcshell.cc:653-670 | the accounting loop adjusts the vector so, and nsucc equals niov if and only if nothing is left |
| Writes.Sender.OnWrite | netshell/mcshell.cc:636-700 | for any sequence of partial writes the bytes sent are a prefix of header, body and trailer as long as the socket took; the reply is done if and only if it took all; otherwise the stored counts describe the rest and the connection closes unless errno is -1 |
| Writes.RefusedWriteCloses | netshell/mcshell.cc:693-698 | a reply of eight bytes of which the socket takes three before it refuses with EAGAIN: the connection is closed with five bytes unsent |
| Writes.GetReply | netshell/mcshell.cc:638-650 | what goes out for a get reply: header, value and end line, byte by byte |

## Left out

- Store.Shmc.Set: lengths are unbounded naturals, so the wrap-around of size_t in the size check, and the narrowing of the hash value's remainder to int, are not modelled.
- Slabs.GrowsByHalf: the factor is a fraction, not a float; rounding of the float product is not modelled.
- DumpFormat.LoadIff: the lengths of keys and values, which fprintf gets as int, are required to fit one.
- Backup.Load: the file is a sequence of bytes; failing to open it or to allocate the buffer is not modelled. Records that item_clsid cannot place, and numbers that are negative or do not fit an int, for which the code has no defined result, are required not to occur.
- Lookup3.HashAt: the two big-endian readers; the three little-endian ones are complete.
- Layout.FormatMmap: the sizes of the attribute, rwlock and mutex structures are parameters.
- Readers.Linearizable: a writer's call is arbitrary disarray and one commit, not its sequence of writes; that the call can always be performed and committed is `Client.WriteOn`. A call that does not meet what the source asks of its caller never commits, and flock mode is not modelled.
- Store.Shmc.Grow: that the header of a chunk in a new page is still zero is not part of the invariant; the flags of a moved item are tied to that header, whatever it holds.
- Requests.Receiver.Readable: a peer that closes its side, failing recv calls and a body that cannot be allocated are not modelled.
- Writes.Sender.OnWrite: a reply header longer than its 312-byte buffer is not modelled.
- Token.Tokenize: a scan that runs past the end of its memory, which has no defined result, is excluded.
- Requests.Receiver.OnRead: what a connection does after its line went astray, or announced a body whose size wraps to 0 or 1, is not modelled beyond the fact; it depends on stale bytes and may leave the buffers.
- The max_depth statistic, which readers write without a lock and which no result depends on.
- SHMC_FAST absolute addressing, debug tracing, error strings and the attribute setters.
- open, ftruncate, mmap, msync and the initialisation of pthread objects: operating system calls.
- The bodies of the do* commands in the server, statistics, sockets, epoll, option parsing and daemonising: thin calls and plumbing.
- tplock.cc, netshell/mcb.cc, tests and build files: benchmarks and builds.
- Distribution quality of the hash: a statistical claim.
