# pdkv in Dafny

Two servers share this repository: a single-threaded one in C, whose store is a binary search tree in the heap, and a
multi-threaded one in Rust, whose store is a map behind a mutex. This project models what both do between the bytes of a
request and the answer to it, and proves what that keeps, in every run.

`dafny verify dfyconfig.toml` checks everything.

## The C server

| file | models |
|---|---|
| CStrings.dfy, MachineWords.dfy | C strings and their order under `strcmp`; machine words and their order as numbers |
| HashTable.dfy, Hash.dfy | `pd_hash`: the table, the loop on the 64-bit register, and their algebra over XOR |
| Smbuf.dfy | `pd_smbuf`: chains of 1024-byte chunks, built, extended, copied and relinked in place |
| CmdLine.dfy, Cmd.dfy | `pd_cmd`: the parser as a function on byte sequences, and as the loop that fills the argument record |
| TreeShapes.dfy, TreeOrder.dfy, Tree.dfy | `pd_tree`: insertion, transplant and deletion on nodes with parent pointers |
| TreeSearch.dfy, TreeInit.dfy | the searches by hash and by key, and the hash of a node |
| Handlers.dfy, Events.dfy | `pd_hdlr` and the callbacks of `pd_event`, down to one turn of the event loop |
| StoreModel.dfy | the same store as a machine on values, for statements about whole runs |

The main results are `Events.Event.Dispatch` and `Events.Run`: each turn of the event loop refines one step of a machine
on values, so in every run the heap holds the tree that the requests so far prescribe, and every answer is the one they
prescribe. What the machine does in every run is proved in StoreModel.dfy.

Four things the code does, and the model does with it:

- **The root can be stuck.** `pd_tree_transplant` returns at C/pd_tree.c:201-204 without touching the parent of the new
  root. A root that is deleted and leaves a child therefore leaves that child with a stale parent. Deleting this new root
  then leaves it in place, although the answer is ":1". `Trees.TreeSlot.Delete` states both halves.
  `StoreModel.Fatal` says of a run of requests, without looking at the heap, which request is the first to do this;
  `StoreModel.SecondDeleteIsFatal` is a family of runs that get there. About what follows such a request nothing is said.
- **A SET may not be found.** Nodes are inserted by the hash of key XOR value and searched by `strcmp` on the key.
  `StoreModel.GetAfterSet` says exactly what a GET after a SET is answered. In particular a second SET of a key that is
  found changes nothing that a GET can see. `Events.LostUpdate` is a run of three lines in which the value just
  stored is not found.
- **Long tokens bleed.** The parser flushes blocks of 128 bytes to the slot opened last. No byte is lost
  (`CmdLine.ParsedConserves`), but the tokens are right exactly when all are shorter than 128 bytes
  (`CmdLine.RoundTripIff`).
- **The hash is not DJB2.** README.md:7 says so, but the table is that of the CRC-32 generator polynomial
  0x04C11DB7 of section 3.2.9 of IEEE 802.3, most significant bit first, under an update that shifts to the right.
  `HashTable.EntryLinear` and the lemmas of Hash.dfy are about that.

## The Rust server

| file | models |
|---|---|
| Command.dfy | `Command::from_str` |
| Controller.dfy | the handlers as critical sections, and the sequential store they implement |
| Linearizable.dfy | any number of requests at once, each thread moving at its own pace, with several steps under the lock |
| PoolModel.dfy, Pool.dfy | the thread pool as a step system, and the methods that make its steps |

A schedule is any sequence of moves; a thread that waits stays where it is. The main results are
`Linearizable.Linearizability`, for every schedule, and for the pool `PoolModel.Play` (what holds after every schedule),
`PoolModel.FailureAccounting`, `PoolModel.Shutdown` and `Pool.ThreadPool.Drop`.

In rust/src/model/command.rs:18 the length of the line is compared with `&&` where only `||` could ever hold. The check
never strikes, and further tokens behind a command are ignored; the model does the same.

## How the code is split

A C function that does several things one after another is split into methods by line ranges, as the table says. Ghost
parameters carry what the heap is known to hold: `ns` are the nodes of a chain, `chains` those of all slots of the record,
`mine` the objects of these, `ever` every node that was ever in the tree, `s` the state of the machine on values.
`Wrappers`, `CStrings` and `MachineWords` hold what several modules use.

## Model

| member | source | states |
|---|---|---|
| `CStrings.StrcmpZero` | C/pd_tree.c:143-146 | strcmp is zero exactly on equal texts |
| `CStrings.StrcmpSign` | C/pd_tree.c:143-150 | strcmp is negative exactly when the first text is below the second: at the first difference the unsigned bytes decide, and a prefix comes first; swapping the texts changes the sign |
| `CStrings.BelowTotal` | C/pd_tree.c:143-150 | of two texts exactly one is below the other, or they are the same |
| `MachineWords.NumberBack` | C/pd_tree.c:105 | the number kept for a word is that of the word |
| `MachineWords.NumberOrder` | C/pd_tree.c:189 | words compare as their numbers do |
| `MachineWords.NumberWord` | C/pd_tree.c:105 | as a 64-bit word, the number of a 32-bit word is that word |
| `HashTable.EntryLinear` | C/pd_hash.c:38-103 | the table is linear over XOR: entry 1 is 0x04c11db7, entry 2i is x times entry i modulo the CRC-32 generator polynomial, and the entry of a sum of indices is the sum of the entries |
| `HashTable.TopPermutation` | C/pd_hash.c:38-103 | the top bytes of the entries run through all 256 bytes, and IndexOfTop is the inverse of that permutation, on both sides |
| `Hash.WideTurn` | C/pd_hash.c:110 | the assignment on the 64-bit register, with the sign of the char carried into it, is the step on 32 bits; the upper half stays clear |
| `Hash.PdHash` | C/pd_hash.c:105-113 | the loop returns the 32-bit hash of the text in front of the NUL, so every hash is below 2^32 |
| `Hash.StepBijective` | C/pd_hash.c:110 | for every byte, a step is a bijection on all 32-bit states, with an explicit inverse |
| `Hash.FoldInjective` | C/pd_hash.c:109-110 | two states that the same string leads to the same state are equal |
| `Hash.FoldAppend` | C/pd_hash.c:109-110 | hashing a concatenation is hashing on from the state that the first part leads to |
| `Hash.StepApart` | C/pd_hash.c:110 | where two states come from, by how they and their bytes differ: a step back moves the difference up by one byte |
| `Hash.FourBytes` | C/pd_hash.c:105-113 | from one state, two runs of four bytes that lead to the same state are equal |
| `Hash.BurstInjective` | C/pd_hash.c:105-113 | strings of equal length that agree outside a window of four bytes and hash alike are equal |
| `Hash.BurstSeen` | C/pd_hash.c:105-113 | strings of equal length that differ, but only within four consecutive bytes, always hash differently |
| `Hash.StepSum` | C/pd_hash.c:110 | a step of a sum of states by a sum of bytes is the sum of the steps |
| `Hash.FoldSum` | C/pd_hash.c:109-110 | the same for whole strings of equal length |
| `Hash.HashAffine` | C/pd_hash.c:105-113 | the hash is affine: for byte sequences of equal length, the hash of the XOR of three is the XOR of the three hashes |
| `Smbufs.Smbuf.constructor` | C/pd_smbuf.c:40-50 | a fresh chunk is empty, zeroed and linked to nothing |
| `Smbufs.Append` | C/pd_smbuf.c:112-127 | the head of the appended chain becomes the last node, with both its links set, and whatever followed it is cut off |
| `Smbufs.Advance` | C/pd_smbuf.c:62-65 | from a full chunk, a fresh chunk is hung at the end and the writer moves on by exactly one |
| `Smbufs.Write` | C/pd_smbuf.c:67 | the byte goes to the end of the content, with every other chunk unchanged |
| `Smbufs.InsertByte` | C/pd_smbuf.c:62-67 | one turn of the loop adds one byte to the content of the chain and keeps its shape and links |
| `Smbufs.InsertBuf` | C/pd_smbuf.c:52-71 | the chain holds its old content followed by the text: full chunks, a partial one, empty ones, consistent links, old nodes in front and only fresh ones behind |
| `Smbufs.RoomIff` | C/pd_smbuf.c:62-65 | the content is below two chunks exactly when the root or the second chunk is the first that is not full, or the chain is a single chunk: where the single step to the next chunk suffices |
| `Smbufs.Init` | C/pd_smbuf.c:73-85 | a string of any length becomes a fresh chain that holds exactly its text |
| `Smbufs.CopyChunk` | C/pd_smbuf.c:95-101 | a fresh chunk with the bytes of the original and no links |
| `Smbufs.Copy` | C/pd_smbuf.c:87-105 | the copy is a fresh chain of the first min(n, 2) chunks, because the append of a copied tail cuts it to its head |
| `Smbufs.CopyHolds` | C/pd_smbuf.c:87-105 | the copy holds the content cut to 2048 bytes, so all of it whenever there are no more |
| `Smbufs.HeadText` | C/pd_smbuf.h:44-49 | what string functions see of a chain is the text of its first chunk |
| `Smbufs.FirstIs` | C/pd_smbuf.h:40-45 | that is the whole content, or exactly its first 1024 bytes |
| `Smbufs.Nodelen` | C/pd_smbuf.c:138-150 | counts the nodes of the chain |
| `CmdLine.Conserved` | C/pd_cmd.c:77-112 | from every state of the reading loop: what is in the slots at the end is what was there, what is in the work buffer, and the rest of the line without separators |
| `CmdLine.ParsedConserves` | C/pd_cmd.c:65-139 | the concatenation of all slots is the line without its separating spaces and its newline, also across 128-byte flushes |
| `CmdLine.StrippedIsNoSpaces` | C/pd_cmd.c:93-109 | where no two spaces are adjacent, that is the line without any of its spaces |
| `CmdLine.Counted` | C/pd_cmd.c:94-104 | there is one slot for each separator and one more, and at most one further slot when the first token is flushed |
| `CmdLine.Grows` | C/pd_cmd.c:78-135 | slots are only opened and appended to: a slot once opened stays a prefix of what it ends as |
| `CmdLine.TurnFlush` | C/pd_cmd.c:78-91 | a full work buffer goes to the slot opened last, and the parse goes on from there |
| `CmdLine.TurnNext` | C/pd_cmd.c:93-111 | with room in the work buffer, a space opens a slot and takes the next byte as it is; any other byte is collected |
| `CmdLine.ShortLinesInDomain` | C/pd_cmd.c:65-139 | every line of at most 2049 bytes with at most 63 separators fits the record: at most 65 slots of at most 2048 bytes |
| `CmdLine.ParsedTexts` | C/pd_cmd.c:77-112 | no slot contains a NUL |
| `CmdLine.Separating` | C/pd_cmd.c:93-117 | the separator is the space and the end of the line the newline |
| `CmdLine.LongFirst` | C/pd_cmd.c:78-91 | a first token of 128 bytes or more makes one slot too many |
| `CmdLine.LongNext` | C/pd_cmd.c:78-91 | the first 128 bytes of a later long token end up behind the token before it |
| `CmdLine.ReadBackIff` | C/pd_cmd.c:75-135 | reading on from a token that was read exactly, all further tokens come back exactly when all are shorter than 128 bytes |
| `CmdLine.RoundTripIff` | C/pd_cmd.c:75-138 | tokens printed with single spaces and a newline are parsed back exactly when each of them is shorter than 128 bytes |
| `Cmd.CmdArgs.constructor` | C/pd_cmd.c:50-63 | a new record is clean: plen 0, pcmd null, all paux null |
| `Cmd.Open` | C/pd_cmd.c:101-102 | an empty slot gets a fresh chain with the text of the work buffer |
| `Cmd.Extend` | C/pd_cmd.c:103-104 | a slot in use gets the text of the work buffer appended, with the chains of all other slots untouched |
| `Cmd.Deliver` | C/pd_cmd.c:101-104 | one or the other, depending on whether the slot is null |
| `Cmd.Flush` | C/pd_cmd.c:78-91 | a full work buffer goes to the slot opened last, or opens the command slot, and is cleared |
| `Cmd.NextSlot` | C/pd_cmd.c:94-104 | the next slot, the command or the next argument, is opened with the work buffer, and plen counts it; lines 125-135 are the same |
| `Cmd.Collect` | C/pd_cmd.c:111 | the byte joins the work buffer, which never holds more than 128 |
| `Cmd.CutNewline` | C/pd_cmd.c:114-123 | the scan stops at the newline that ends the work buffer, and cuts it off |
| `Cmd.Turn` | C/pd_cmd.c:77-112 | one turn of the reading loop keeps the whole state of the parser in step with the function on byte sequences |
| `Cmd.ParseCmd` | C/pd_cmd.c:65-139 | a clean record ends with the slots of the line, each carried by a well-formed fresh chain, filled without a gap, and plen one less than their number |
| `Cmd.CommandWords` | C/pd_cmd.c:43-48 | the command words are spelled GET, SET, DEL and DELETE |
| `Cmd.InTable` | C/pd_cmd.c:43-48 | a command word with its number of arguments is in the table exactly for GET, DEL and DELETE with one and SET with two |
| `Cmd.ValidateCmd` | C/pd_cmd.c:141-158 | 0 exactly for the commands of the table with their number of arguments, -1 otherwise |
| `Cmd.ReleaseSmbuf` | C/pd_cmd.c:166-179 | the record is clean afterwards exactly when no slot beyond the first plen was in use |
| `TreeShapes.Tree.constructor` | C/pd_tree.c:105-111 | a new node has its hash and data and no links |
| `TreeShapes.ReplacedLinks` | C/pd_tree.c:206-212 | which links each node must carry after the subtree of a node that is not the root is replaced: only the parent and the new subtree change |
| `TreeShapes.MinimumSpliced` | C/pd_tree.c:229-232 | the minimum has no left child, and putting its right child in its place removes exactly it |
| `TreeShapes.SplicedLinks` | C/pd_tree.c:231-235 | which links each node of the right subtree must carry once its minimum is taken out and has taken over the rest |
| `TreeShapes.InsertedNodes` | C/pd_tree.c:177-196 | an insertion adds exactly the new node |
| `TreeOrder.InsertedInorder` | C/pd_tree.c:189-195 | the new node comes behind every hash that is at least its own and before every smaller one |
| `TreeOrder.InsertedOrdered` | C/pd_tree.c:189-195 | insertion keeps the order: left strictly greater, right less or equal |
| `TreeOrder.ReplacedInorder` | C/pd_tree.c:198-213 | replacing a subtree replaces exactly its stretch of the in-order sequence |
| `TreeOrder.DeletedInorder` | C/pd_tree.c:215-240 | deletion takes exactly the deleted node out of the in-order sequence |
| `TreeOrder.DeletedOrdered` | C/pd_tree.c:215-240 | deletion keeps the order and all other nodes |
| `TreeOrder.OrderedDescending` | C/pd_tree.c:189-195 | the in-order sequence of an ordered tree is descending by hash |
| `TreeOrder.StableInsert` | C/pd_tree.c:177-196 | if the in-order sequence is the stable descending sort of the arrivals, it still is after an insertion |
| `TreeOrder.StableDelete` | C/pd_tree.c:215-240 | and after a deletion, of the arrivals without the deleted node |
| `TreeOrder.StableUnique` | C/pd_tree.c:177-240 | there is only one stable descending sort of given arrivals, so the in-order sequence of every run is determined by them |
| `Trees.Min` | C/pd_tree.c:153-163 | finds the leftmost node |
| `Trees.AttachLeft` | C/pd_tree.c:190-191 | the subtree returned by the recursive call becomes the left child, with its parent set |
| `Trees.AttachRight` | C/pd_tree.c:193-194 | the same on the right |
| `Trees.InsertAt` | C/pd_tree.c:177-196 | the heap carries every link of the tree with the node inserted, and the parent of its root is what it was |
| `Trees.TreeSlot.Insert` | C/pd_tree.c:177-196 | on the variable that holds the root: all links, the search order, the place in the in-order sequence and the stable sort |
| `Trees.TreeSlot.Transplant` | C/pd_tree.c:198-213 | the assignments in each case; and where the replacement fits, the heap carries the tree with the subtree replaced. Without a parent only the root variable is written |
| `Trees.TreeSlot.DetachMin` | C/pd_tree.c:231-235 | the minimum of the right subtree is taken out and has the rest of that subtree as its right child, whether or not it was the child of the deleted node |
| `Trees.TreeSlot.GraftLeft` | C/pd_tree.c:238-239 | the left subtree hangs below the node that takes the place, with its parent set |
| `Trees.TreeSlot.TakeMin` | C/pd_tree.c:229-235 | finds the minimum and takes it out, with everything outside the right subtree untouched |
| `Trees.TreeSlot.Promote` | C/pd_tree.c:237-239 | the minimum takes the place of the deleted node and its left subtree; a root with a stale parent stays |
| `Trees.TreeSlot.Unlink` | C/pd_tree.c:215-240 | in all four shapes of the deletion the heap carries the tree without the node, unless the node is the root and has a stale parent |
| `Trees.TreeSlot.Delete` | C/pd_tree.c:215-240 | removes exactly the node from tree, in-order sequence and stable sort, and keeps links and order, unless it is the root with a stale parent: then it stays the root. The parent of the root is stale afterwards exactly when the root was deleted and left a child, or it was before |
| `Trees.RootDeletedTwice` | C/pd_tree.c:201-204 | a run in which the deletion of a root leaves it in place: two insertions, the root deleted, the new root deleted |
| `TreeSearch.SearchFn` | C/pd_tree.c:124-134 | the recursion over the heap finds what the search on the shape finds |
| `TreeSearch.FoundSound` | C/pd_tree.c:124-134 | with any comparator, what is found is in the tree and compares equal |
| `TreeSearch.FoundExact` | C/pd_tree.c:124-134 | with a comparator that has the sign of the difference, a node of the hash is found exactly when the tree has one |
| `TreeSearch.CdefSign` | C/pd_tree.c:114-117 | the narrowed difference of two 32-bit hashes is zero exactly on equal ones, and has the right sign exactly for differences in [-2^31, 2^31) |
| `TreeSearch.SearchExact` | C/pd_tree.c:119-134 | pd_tree_search finds the hash exactly when the tree has it and every hash compared on the way down is that near |
| `TreeSearch.SearchKey` | C/pd_tree.c:136-151 | the recursion over the heap with strcmp finds what the search on the shape finds, which goes left exactly from a key that is below the one searched for |
| `TreeSearch.KeyFoundSound` | C/pd_tree.c:136-151 | what is found by key is in the tree and has that key |
| `TreeInit.XorChain` | C/pd_tree.c:99-100 | the loop adds the XOR of the chunk hashes of the chain; lines 102-103 are the same |
| `TreeInit.XorHashAppend` | C/pd_tree.c:99-103 | the XOR over the chunks of two chains is that of the two XORs |
| `TreeInit.StoredWord` | C/pd_tree.c:99-105 | the number by which an entry is ranked is, as a 64-bit word, the XOR of the hashes of all its chunks |
| `TreeInit.Init` | C/pd_tree.c:87-112 | the node of a key and a value: as a 64-bit word its hash is the XOR of what pd_hash returns for all their chunks, so it depends on the contents alone and is below 2^32 |
| `TreeInit.NodeHashSymmetric` | C/pd_tree.c:99-103 | key and value can be swapped without changing the hash, and a key stored with itself as the value hashes to 0 |
| `TreeInit.NodeHashSeen` | C/pd_tree.c:99-103 | a key and a value of one chunk each that differ only within four bytes do not hash to 0 |
| `Handlers.FoundLegible` | C/pd_tree.c:136-151 | the node found has the key asked for, and its chunks can be read |
| `Handlers.HandleGet` | C/pd_hdlr.c:48-85 | answers with the first chunk of the value of the node found by key, or that there is none |
| `Handlers.CopyAll` | C/pd_hdlr.c:95-103 | the copy of a chain of at most two chunks holds all of its content |
| `Handlers.NewNode` | C/pd_hdlr.c:95-114 | the node for a SET has fresh copies of key and value and the hash of both |
| `Handlers.HandleSet` | C/pd_hdlr.c:87-118 | one fresh node with the key and the value is inserted, even when the key is there already |
| `Handlers.HandleDelete` | C/pd_hdlr.c:120-138 | the node found by key is deleted and the answer is 1, or nothing changes and it is 0; the answer is 1 also when a stale root stays |
| `Handlers.FirstsAt` | C/pd_hdlr.c:159-168 | each argument stands in its place in the answer to an unknown command |
| `Handlers.HandleInvalid` | C/pd_hdlr.c:140-172 | the answer names the command word and then all arguments, each in its place |
| `StoreModel.ViewInserted` | C/pd_tree.c:189-195 | the heap tree, seen as a tree of entries, changes by an insertion as the state of the store does |
| `StoreModel.ViewFound` | C/pd_tree.c:136-151 | a search in the heap tree ends at the entry at which it ends in the state |
| `StoreModel.ViewDeleted` | C/pd_tree.c:215-240 | the heap tree changes by the deletion of the node found as the state does |
| `StoreModel.OtherAnswers` | C/pd_event.c:128-137 | no answer exactly to nothing; the answer to anything that is no command names its slots one by one |
| `StoreModel.BagOfView` | C/pd_tree.c:177-240 | there are as many nodes as entries |
| `StoreModel.Conservation` | C/pd_hdlr.c:87-138 | in every run, the entries in the tree and those removed are together, as a multiset, those stored |
| `StoreModel.CountExact` | C/pd_hdlr.c:116-136 | the number of entries is the number of SETs answered less the number of DELs answered ":1" |
| `StoreModel.GetSound` | C/pd_hdlr.c:56-83 | a GET of a key is answered with a value only if an earlier SET of the run stored that value under that key |
| `StoreModel.StoredUnder` | C/pd_hdlr.c:56-57 | and the entry that the search ends at is the one of that SET |
| `StoreModel.SeekAfterAdd` | C/pd_tree.c:143-195 | where a search for a key ends after an insertion of that key: where it ended before, if anywhere; otherwise at the new entry exactly when hash and strcmp agree all the way down |
| `StoreModel.GetAfterSet` | C/pd_hdlr.c:48-118 | what a GET right after a SET of its key is answered, in all cases: what it was answered before, if it was found; otherwise the new value exactly when the two orders agree on the way down |
| `StoreModel.SetThenGetMisses` | C/pd_tree.c:143-195 | a family of runs of two SETs after which the key of the second, which is below that of the first, is not found |
| `StoreModel.SecondDeleteIsFatal` | C/pd_tree.c:201-204 | a family of runs in which the fourth request deletes a stale root |
| `Events.ReadFn` | C/pd_event.c:71-99 | what read() brought becomes a request in the record, or leaves it clean; 0 exactly for a valid command |
| `Events.ErrorFn` | C/pd_event.c:128-137 | the record is clean afterwards; nothing read is not answered, anything else is answered as unknown |
| `Events.SilentIff` | C/pd_event.c:86-90 | a connection is not answered exactly when nothing was read, or a newline with nothing in front of it |
| `Events.EmptyLine` | C/pd_event.c:89-90 | an empty line, also with other bytes behind a NUL, is no request |
| `Events.StrncmpPrefix` | C/pd_event.c:104-117 | strncmp over the length of the first text is zero exactly when that text is a prefix of the second |
| `Events.PrefixesTell` | C/pd_event.c:104-121 | after the check, the comparisons of three and six letters pick the right handler |
| `Events.ServeGet` | C/pd_event.c:104-107 | a GET is answered as the state of the store prescribes, and changes nothing |
| `Events.ServeSet` | C/pd_event.c:110-113 | a SET moves the heap to the next state of the store |
| `Events.ServeDelete` | C/pd_event.c:116-120 | a DEL moves the heap to the next state of the store, unless it deletes a stale root; both are decided by the requests so far |
| `Events.Serve` | C/pd_event.c:104-121 | the same for whichever handler is called |
| `Events.WriteFn` | C/pd_event.c:101-126 | and the record is clean afterwards |
| `Events.Handle` | C/pd_event.c:260-269 | the read, error and write callbacks together refine one step of the store, and leave the record clean on every path |
| `Events.Event.constructor` | C/pd_event.c:155-178 | the loop starts with an empty tree, a clean record and nothing seen |
| `Events.Event.Dispatch` | C/pd_event.c:258-273 | every event starts and ends with a clean record, is answered as the run so far prescribes (nothing and the empty line not at all), and leaves the tree that the run prescribes, linked, ordered and stably sorted; the one exception is exact |
| `Events.Run` | C/pd_event.c:223-275 | the whole loop, from the start: whatever lines arrive, as long as none of them deletes a stale root, the answers are those of the machine on values |
| `Events.GetInRun` | C/pd_hdlr.c:56-83 | in the run of the loop, whatever a GET was answered with had been stored under its key by an earlier request |
| `Events.NodesInRun` | C/pd_hdlr.c:116-136 | in the run of the loop, the nodes in the heap tree are as many as the SETs answered less the DELs answered ":1" |
| `Events.RequestTexts` | C/pd_event.c:77-92 | no argument of a request contains a NUL |
| `Events.PrintedRequest` | C/pd_event.c:77-92 | a line of up to 65 printed tokens of up to 127 bytes each arrives as these tokens |
| `Events.LostUpdate` | C/pd_tree.c:143-195 | three lines sent to a fresh server: SET b b, SET a b, GET a, and the last is answered "not found" |
| `Commands.WhiteIs` | rust/src/model/command.rs:16 | white space is exactly the 25 characters with the Unicode property White_Space |
| `Commands.SplitSpaced` | rust/src/model/command.rs:16 | splitting gives back the tokens, whatever white space is around them |
| `Commands.SplitComplete` | rust/src/model/command.rs:16 | every string is its tokens with white space around them |
| `Commands.LowercaseIff` | rust/src/model/command.rs:26 | a word is lower-cased to a command name exactly when it is that name with any letters in upper case |
| `Commands.SaysIff` | rust/src/model/command.rs:15-35 | a command is the result exactly when the tokens spell it: its word in any case, its arguments, anything behind |
| `Commands.ParsesIff` | rust/src/model/command.rs:15-35 | a line is parsed as a command exactly when it is a spelling of it with some white space around the tokens |
| `Commands.RoundTrip` | rust/src/model/command.rs:15-35 | every spelling of a command is parsed as that command, with any case, white space and further tokens; the length check of line 18 never strikes |
| `Commands.SplitJoined` | rust/src/model/command.rs:16 | tokens of printable ASCII joined by single spaces or tabs are split back exactly |
| `Commands.PlainLine` | rust/src/model/command.rs:26-32 | the command word in any case, a space and a printable key are that command; for SET, with a space and a printable value |
| `Commands.ErrorIff` | rust/src/model/command.rs:22-33 | exactly when each of the three errors is returned |
| `Controller.RunIsLastWrite` | rust/src/controller/mod.rs:53-85 | after any sequence of commands, a key has the value last set and not deleted since |
| `Controller.GetsLastWrite` | rust/src/controller/mod.rs:37-51 | a GET is answered with that value |
| `Controller.WritesAnswered` | rust/src/controller/mod.rs:53-85 | a DELETE is answered as a removal exactly when the key has a value, and otherwise that there is none; a SET is always answered in the same way |
| `Controller.Database.constructor` | rust/src/server.rs:20-25 | the map starts empty and the mutex unpoisoned |
| `Controller.Database.HandleGet` | rust/src/controller/mod.rs:37-51 | answers with the value, or that there is none, or fails when the mutex is poisoned; as the sequential store does |
| `Controller.Database.HandleSet` | rust/src/controller/mod.rs:53-69 | the key has the value afterwards, whether it was there or not, and nothing else changes; as in the sequential store |
| `Controller.Database.HandleDel` | rust/src/controller/mod.rs:71-85 | the key is gone afterwards, and the answer tells whether it was there; as in the sequential store |
| `Controller.Database.HandleCmd` | rust/src/controller/mod.rs:25-35 | a command is executed; a line that is none is answered with its error and leaves the map unchanged |
| `Linearizable.ChangeIsApply` | rust/src/controller/mod.rs:43-82 | looking up and then changing, in two steps under the lock, is what the command does in one |
| `Linearizable.Acquired` | rust/src/controller/mod.rs:41-75 | taking the lock puts the request at the end of the order and keeps the invariant |
| `Linearizable.Change` | rust/src/controller/mod.rs:43-82 | the write under the lock keeps the invariant: mutual exclusion makes what was looked up still true |
| `Linearizable.Release` | rust/src/controller/mod.rs:50-84 | dropping the lock keeps the invariant |
| `Linearizable.Told` | rust/src/controller/mod.rs:17-22 | an answer keeps the order in step with real time |
| `Linearizable.ArriveKeeps` | rust/src/controller/mod.rs:11-17 | a new request keeps the invariant, also while others run |
| `Linearizable.DoKeeps` | rust/src/controller/mod.rs:11-85 | whichever thread moves next, the invariant is kept |
| `Linearizable.Play` | rust/src/controller/mod.rs:11-85 | the invariant holds after every schedule |
| `Linearizable.Linearizability` | rust/src/controller/mod.rs:25-85 | after every schedule, the order of lock acquisition explains all answers as those of a sequential run, has each request at most once and respects real time; lines that do not parse are answered with their error and are not in it; whenever the lock is free the map is that of the sequential run |
| `Linearizable.LastWriteSeen` | rust/src/controller/mod.rs:37-85 | after every schedule, every command was answered by the last write to its key among the commands that took the lock before it: a GET with the value if there is one, a DELETE by whether there is one, a SET always in the same way |
| `Linearizable.Progress` | rust/src/controller/mod.rs:41-84 | as long as a request is not answered, some thread can move |
| `Linearizable.CallsAre` | rust/src/controller/mod.rs:11-17 | after every schedule, the requests are those that have arrived, each with the line it came in with |
| `Linearizable.AtMostSix` | rust/src/controller/mod.rs:25-85 | in every schedule, a request is answered after at most six steps of its thread, not counting waits |
| `PoolModel.WorkLock` | rust/src/pool/worker.rs:21-24 | at most one worker is at the receiver, it is the holder of the lock, and the lock is never poisoned, because jobs run without it |
| `PoolModel.WorkTasks` | rust/src/pool/worker.rs:20-36 | tasks are taken in the order in which they were accepted, and each is running in one place or has ended once |
| `PoolModel.WorkLoss` | rust/src/pool/worker.rs:27-33 | a worker is lost only by a failed job, and exits only when the sender is gone and the channel empty |
| `PoolModel.SubmitKeeps` | rust/src/pool/thread_pool.rs:39-52 | an accepted task keeps all of that |
| `PoolModel.Play` | rust/src/pool/worker.rs:20-36 | all of that holds after every schedule of submissions, of the drop of the sender, and of steps of workers |
| `PoolModel.AtMostOnce` | rust/src/pool/worker.rs:26-30 | after every schedule, a task accepted once is started at most once, and then runs in one place or has ended once |
| `PoolModel.FailureAccounting` | rust/src/pool/thread_pool.rs:39-52 | while the sender is there, the live workers are N less the failed jobs, and execute reports ReceiverIsDropped exactly when N jobs have failed |
| `PoolModel.AcceptedAre` | rust/src/pool/thread_pool.rs:45-51 | after every schedule, the tasks accepted are those submitted while the sender was there and fewer jobs had failed than there were workers, in this order |
| `PoolModel.WorkDecreases` | rust/src/pool/worker.rs:20-36 | every step of a worker that can move lowers the measure; one that cannot stays as it is |
| `PoolModel.SomeEnabled` | rust/src/pool/worker.rs:20-36 | without a sender, or with a task in the channel, some worker can move until all are done |
| `PoolModel.Drained` | rust/src/pool/thread_pool.rs:59-68 | when all workers are done, everything accepted was started in order and has ended, unless all N were lost |
| `PoolModel.Shutdown` | rust/src/pool/thread_pool.rs:56-69 | once the sender is dropped the workers make at most Measure turns in whatever order, and where no further turn is possible all are done and the channel is drained, unless all N were lost |
| `PoolModel.ShutdownRun` | rust/src/pool/thread_pool.rs:39-69 | in every run that drops the sender and comes to its end, all of these tasks were started in this order and have ended, unless all N workers were lost |
| `Pool.ThreadPool.Build` | rust/src/pool/thread_pool.rs:20-37 | size 0 is refused; otherwise a pool with that many waiting workers |
| `Pool.ThreadPool.Execute` | rust/src/pool/thread_pool.rs:39-52 | the task goes to the end of the channel and is accepted, or it is refused with the error that applies and nothing changes |
| `Pool.ThreadPool.Lock` | rust/src/pool/worker.rs:21-23 | waits, takes the lock, or ends the thread when the lock is poisoned |
| `Pool.ThreadPool.Recv` | rust/src/pool/worker.rs:24-35 | waits, or comes back with a task or a disconnection; the lock is dropped at the end of the let |
| `Pool.ThreadPool.RunJob` | rust/src/pool/worker.rs:27-30 | the job ends well and the loop goes on, or it fails and the thread ends |
| `Pool.ThreadPool.Turn` | rust/src/pool/worker.rs:20-36 | the next step of a thread is that of the step system |
| `Pool.ThreadPool.Schedule` | rust/src/pool/worker.rs:20-36 | whichever thread that can move is picked, and however a job ends, the invariant is kept and the measure falls |
| `Pool.ThreadPool.Join` | rust/src/pool/thread_pool.rs:62-66 | returns, under every schedule, and then the thread is done |
| `Pool.ThreadPool.JoinAll` | rust/src/pool/thread_pool.rs:59-68 | joins in order, up to the first worker that was lost |
| `Pool.ThreadPool.Drop` | rust/src/pool/thread_pool.rs:56-69 | terminates; it runs through without panicking exactly when no job has failed, and then everything accepted was started in order and has ended |

## Left out

- Sockets, epoll, fcntl, the accept branch of the event loop, closing of descriptors and the `done` flag: a request is what `read()` brought, a reply is a value.
- Allocation failure, `free` and `pd_smbuf_release`: allocation succeeds, released objects are only unlinked; that nodes and chains leak is not stated.
- The exact text of replies, their truncation to 1024 bytes by `snprintf`, log lines, and the texts of errors: replies are a datatype.
- Input outside the domain of the parser: no newline at the end, a second newline, more than 65 slots, a slot of more than 2048 bytes. The C code then runs past its buffers; `Events.Acceptable` excludes it.
- Chains whose first two chunks are full: `__pd_smbuf_insert_buf` then writes past a chunk; the precondition of `Smbufs.InsertBuf` excludes exactly these, for texts that are not empty.
- Trees.TreeSlot.Delete: where the deleted node is a root with a stale parent, states that it stays the root and no more, since the links are then those of no tree.
- Cmd.CmdArgs: `paux`, an array inside the C struct, is a field of type `seq` that the methods reassign, so that it cannot alias another array.
- Events.ReadFn: the constant 0 that `pd_cmd_parse_cmd` returns is not modelled, nor the test of it.
- TreeSearch.SearchFn: the comparator is given the two hashes instead of the two nodes, and searches are for a hash.
- Commands.LowercaseIff: only ASCII letters are folded; no other character is lower-cased to a letter of a command word.
- Controller.Database.HandleGet: the poison flag of the database mutex never changes, since no handler panics with the lock; both branches are modelled.
- The internals of `HashMap`, `Mutex`, `channel` and thread scheduling in Rust: a map, a holder, a sequence with a flag, and arbitrary interleaving of atomic steps; no weak memory.
- Pool.ThreadPool.RunJob: a job that returns an error and one that panics are one outcome, failure.
- `pd_tree_max`, `pd_list.h`, handler registration, `pd_container_of` and conversions of errors: unused, or only easy members.
