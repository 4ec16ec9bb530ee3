# Verified models of the cache and of its messaging library

cacheBench is a memcached-style cache (`cache.c`, `tools/`) on top of a copy of the nanomsg library.
This project models the parts of both that keep intricate state, each in the form the C code has:
classes with fields, arrays and linked nodes where the code rewrites memory, loops where it loops,
and state machines over single steps where threads or peers interleave. Every method is proved
against a function or a relation of its inputs, and the lemmas prove about those functions what the
code is there for.

| files | what they model |
|---|---|
| `TrieKids`, `Trie`, `TrieCounts`, `TrieContract`, `TrieRuns` | the subscription trie of `trie.c` as a value: child arrays, every operation, its effect on the number of subscriptions to every string, its contract, whole runs |
| `TrieNodes`, `Subscriptions` | the same trie in place, node by node, proved to follow the value |
| `Words`, `Slabs`, `SlabManager`, `LinkedList`, `CacheModel`, `CacheSlots`, `CacheSpace`, `Cache`, `CacheRuns`, `CacheAges`, `CacheService` | the slab allocator, the cache over it, its accounts of slots and space, the ages of its values, and any sequence of calls |
| `MsgQueue`, `Sinproc` | the chunked queue of the inproc transport and two sessions that talk through it |
| `Req`, `ReqSends` | the REQ socket with its timer and worker thread, what it sends and that it goes on |
| `Wire`, `PipeHash`, `Routing`, `Rep`, `Exchange` | request headers, the hash of pipes, the way of requests and replies through devices, and the whole exchange |
| `List`, `Priolist`, `PriolistRuns` | the intrusive list and the prioritised round robin |
| `Chunks`, `Dist` | message chunks, references to them, broadcast |
| `Sockets`, `SocketEffects` | the table of sockets, holds and closing, and what each call does |
| `Common` | shared types |

Where a run could fail an assertion or follow a null or dangling pointer, that is modelled as a result
of its own (`Fault`, `None`, `Crash`, a code), and the theorems say when it happens. What the code
asserts of the arguments of a single call is a precondition.

## Where the code does less than its documentation says

In these places the code is modelled as it is. A lemma names an input for which the promise fails,
and another says exactly when it holds.

- A trie node whose child array changes between sparse and dense forgets how often its own string is
  subscribed to (`TrieRuns.NextChildLosesCount` and `TrieRuns.LastChildLosesCount`; exactly when: `TrieContract.SubscribeMeetsContract`,
  `TrieContract.UnsubscribeMeetsContract`, over runs `TrieRuns.RunExact`).
- Unsubscribing a string that is not subscribed can remove another one
  (`TrieRuns.StrayRemovesAnother`; `TrieRuns.UnsubscribeOthers`).
- Matching reads on after the end of the data (`TrieRuns.MatchReadsOn`; `TrieContract.MatchMeetsContract`).
- Eviction spares a value whose 8-bit timer has wrapped round, and a set can give up while the class is
  full of values (`CacheAges.WrappedIsSpared`; `CacheAges.StalestIsOldest`,
  `CacheAges.VictimIsLongestUnused`, and `CacheService.Serve` for code 4).
- A new slab can have fewer free slots than its memory allows, depending on what malloc left in one
  status word (`Slabs.NewSlabWithoutRoom`; `Slabs.NewSlabCapacity`).
- A reply that crosses a network transport and then an inproc pipe does not get back
  (`Routing.MixedPathLosesReply`; `Routing.ReplyReturns`).
- A message that arrives after a REQ socket is done takes the place of the reply
  (`Req.LateArrivalSpoils`; `Req.DoneMeansAnswered`), and a negative resend interval stops the
  program (`Req.NegativeIntervalRun`; `Req.NegativeIntervalFaults`).
- A pipe of a prioritised list can wait without end while others become active again
  (`PriolistRuns.CanWaitForever`; `PriolistRuns.WaitIsExact`).
- Trimming a chunk changes it for its other references too (`Chunks.TrimIsNotShared`).

## Model

| member | source | states |
|---|---|---|
| TrieKids.ReplaceLaw | nanomsg/src/protocols/pubsub/trie.c:277-283 | Writing a child's pointer keeps the shape of the child array and the number of children and changes what is found for that byte only. |
| TrieKids.AddLaw | nanomsg/src/protocols/pubsub/trie.c:304-402 | Adding a child in a sparse, a full sparse (converted) or a dense array keeps the shape, counts one child more and changes what is found for that byte only. |
| TrieKids.RemoveLaw | nanomsg/src/protocols/pubsub/trie.c:515-627 | Removing a child never fails the assertion on the number of children, keeps the shape, counts one child less and changes what is found for that byte only. |
| TrieKids.RemoveConvertLaw | nanomsg/src/protocols/pubsub/trie.c:604-627 | The step from dense to sparse finds exactly eight children, with distinct keys. |
| TrieKids.SizeIsKeys | nanomsg/src/protocols/pubsub/trie.h:45-85 | The count a node keeps of its children is the number of bytes that lead to one, in both layouts. |
| TrieCounts.CompactCount | nanomsg/src/protocols/pubsub/trie.c:203-234 | Merging a node with its only child changes no string's count. |
| TrieCounts.CompactValid | nanomsg/src/protocols/pubsub/trie.c:203-234 | Merging keeps the shape: the joined prefix still fits. |
| TrieCounts.SplitCount | nanomsg/src/protocols/pubsub/trie.c:286-302 | Splitting a prefix changes no string's count. |
| TrieCounts.SplitValid | nanomsg/src/protocols/pubsub/trie.c:286-302 | Splitting a prefix keeps the shape. |
| TrieCounts.BuildCount | nanomsg/src/protocols/pubsub/trie.c:404-438 | The chain of new nodes counts one subscription to its string and none to any other, for strings of any length. |
| TrieCounts.BuildValid | nanomsg/src/protocols/pubsub/trie.c:404-438 | The new nodes have the shape, the last one with a subscriber. |
| TrieCounts.ExtendCount | nanomsg/src/protocols/pubsub/trie.c:304-438 | A new branch counts one subscription more to the new string; the node's own string loses its count exactly if the child array changes mode. |
| TrieCounts.SubscribeValid | nanomsg/src/protocols/pubsub/trie.c:236-439 | Subscribe keeps the shape of the whole trie: prefixes of at most ten bytes, distinct keys, dense arrays with live ends and at least nine children, no leaf without subscribers. |
| TrieCounts.SubscribeCount | nanomsg/src/protocols/pubsub/trie.c:236-439 | Subscribe, for every string: the new one gains one, the string of a node whose array changes mode drops to zero, every other count stays. |
| TrieCounts.FoundCount | nanomsg/src/protocols/pubsub/trie.c:629-656 | Removal at the node itself: the code, the shape of what is left, and every string's count. |
| TrieCounts.PruneCount | nanomsg/src/protocols/pubsub/trie.c:515-627 | Dropping a vanished child: the shape of what is left and every string's count, with the count lost where dense becomes sparse. |
| TrieCounts.UnsubscribeCount | nanomsg/src/protocols/pubsub/trie.c:474-657 | Unsubscribe of a counted string: no fault, code 1 exactly for the last subscription, shape kept, and every other string's count kept unless its node changes mode. |
| TrieContract.KeysAreNextBytes | nanomsg/src/protocols/pubsub/trie.h:45-85 | In a trie that denotes a multiset, the children of a string's node are exactly the bytes that follow the string in live subscriptions. |
| TrieContract.CompactMerges | nanomsg/src/protocols/pubsub/trie.c:203-234 | A node without subscribers that has one child disappears into it if and only if the joined prefix has at most ten bytes; then there is no node for its string any more. |
| TrieContract.SubscribeExact | nanomsg/src/protocols/pubsub/trie.h:101-104 | Subscribe against a multiset of live strings, in the multiset's own terms: who gains, who loses, nobody else. |
| TrieContract.SubscribeMeetsContract | nanomsg/src/protocols/pubsub/trie.h:101-104 | The trie denotes the multiset with the string added if and only if no live proper prefix of it has exactly eight next bytes to which it adds a ninth. |
| TrieContract.GoneIffAlone | nanomsg/src/protocols/pubsub/trie.c:512-519 | The subtree vanishes if and only if the string was its only subscription. |
| TrieContract.UnsubscribeExact | nanomsg/src/protocols/pubsub/trie.h:106-110 | Unsubscribe of a live string against the multiset: no fault, the code, and every count. |
| TrieContract.UnsubscribeMeetsContract | nanomsg/src/protocols/pubsub/trie.h:106-110 | The trie denotes the multiset without the string if and only if no live proper prefix of it goes from nine next bytes to eight. |
| TrieContract.MatchExact | nanomsg/src/protocols/pubsub/trie.c:441-472 | With nothing in memory after the data, match is true if and only if a live subscription is a prefix of the data. |
| TrieContract.MatchBeyondN | nanomsg/src/protocols/pubsub/trie.c:463-470 | With bytes after the data, match is true exactly if a live subscription is a prefix of the data, or the data ends at a node and a live subscription continues it within those bytes. |
| TrieContract.MatchMeetsContract | nanomsg/src/protocols/pubsub/trie.h:112-114 | Match keeps its contract if and only if the walk does not run past the data into such a longer subscription. |
| TrieRuns.RunExact | nanomsg/src/protocols/pubsub/trie.h:101-110 | Over every run that unsubscribes live strings only, the trie denotes the ledger of subscriptions all along if and only if no operation is one of the losing ones. |
| TrieRuns.RunKeepsShape | nanomsg/src/protocols/pubsub/trie.c:236-657 | Over every run that unsubscribes counted strings the shape is kept and nothing faults, also where counts are lost. |
| TrieRuns.NextChildLosesCount | nanomsg/src/protocols/pubsub/trie.c:384-384 | There is a run, right so far, after which one subscribe more makes the trie forget a live subscription to the empty string. |
| TrieRuns.LastChildLosesCount | nanomsg/src/protocols/pubsub/trie.c:604-627 | The other direction: nine one-byte strings, then the empty string, and one of the nine unsubscribed; the run is right up to there, and then the subscription to the empty string is forgotten. |
| TrieRuns.UnsubscribeOthers | nanomsg/src/protocols/pubsub/trie.c:490-512 | Unsubscribing a string that is not subscribed leaves the trie alone and reports no removal if and only if the walk along the string does not run out at a pointer; the code is then -EINVAL if the walk ends at the root, and 0 otherwise. |
| TrieRuns.StrayRemovesAnother | nanomsg/src/protocols/pubsub/trie.c:490-491 | An input that does run out: unsubscribing the empty string removes another subscription. |
| TrieRuns.MatchReadsOn | nanomsg/src/protocols/pubsub/trie.c:441-472 | With subscriptions to two one-byte strings the empty data, which nothing live is a prefix of, matches if the byte in memory after it is one of the two. |
| TrieNodes.TrieNode.CheckPrefix | nanomsg/src/protocols/pubsub/trie.c:156-170 | The loop computes the length of the common prefix. |
| TrieNodes.TrieNode.Next | nanomsg/src/protocols/pubsub/trie.c:179-201 | The loop finds the place of the pointer for a byte, in both layouts, or that there is none. |
| TrieNodes.TrieNode.Compact | nanomsg/src/protocols/pubsub/trie.c:203-234 | In place: the node, or its child with the joined prefix, stands for the merged value. |
| TrieNodes.TrieNode.AddSparse | nanomsg/src/protocols/pubsub/trie.c:312-324 | In place: the byte and its node at the end of a sparse array. |
| TrieNodes.TrieNode.WidenTo | nanomsg/src/protocols/pubsub/trie.c:328-353 | In place: a dense array is widened on either side with null pointers. |
| TrieNodes.TrieNode.AddDense | nanomsg/src/protocols/pubsub/trie.c:326-360 | In place: adding to a dense array, widened first if need be. |
| TrieNodes.Range | nanomsg/src/protocols/pubsub/trie.c:365-374 | The loop computes the lowest and highest byte of the keys and the new one. |
| TrieNodes.SpreadOut | nanomsg/src/protocols/pubsub/trie.c:391-395 | The loop lays the pointers of a sparse array out in a dense one. |
| TrieNodes.TrieNode.ToDense | nanomsg/src/protocols/pubsub/trie.c:362-402 | The node with the dense array that takes over from a full sparse one, with its subscriptions not taken over. |
| TrieNodes.TrieNode.Split | nanomsg/src/protocols/pubsub/trie.c:286-302 | In place: a new node above this one, which keeps the rest of the prefix. |
| TrieNodes.TrieNode.Extend | nanomsg/src/protocols/pubsub/trie.c:304-438 | In place: steps 3 to 5, with the code. |
| TrieNodes.Build | nanomsg/src/protocols/pubsub/trie.c:404-430 | New nodes that stand for a chain with one subscription. |
| TrieNodes.TrieNode.Subscribe | nanomsg/src/protocols/pubsub/trie.c:253-438 | In place from any node: the new value of the subtree is that of the function, new nodes are fresh, and the code is 1 exactly if the string had no subscription. |
| TrieNodes.TrieNode.DropSparse | nanomsg/src/protocols/pubsub/trie.c:521-542 | In place: key and pointer are taken out of a sparse array. |
| TrieNodes.TrieNode.FirstChildAt | nanomsg/src/protocols/pubsub/trie.c:566-571 | The loop finds the first child of a dense array. |
| TrieNodes.TrieNode.LastChildAt | nanomsg/src/protocols/pubsub/trie.c:586-590 | The loop finds the last child of a dense array. |
| TrieNodes.TrieNode.Trim | nanomsg/src/protocols/pubsub/trie.c:571-580 | In place: a dense array is cut to a range of its pointers. |
| TrieNodes.TrieNode.Collect | nanomsg/src/protocols/pubsub/trie.c:613-622 | The loop collects keys and pointers of a dense array, in order and each once. |
| TrieNodes.TrieNode.ToSparse | nanomsg/src/protocols/pubsub/trie.c:604-627 | The node with the sparse array that takes over, or none exactly where the assertion on their number fails. |
| TrieNodes.TrieNode.PruneSparse | nanomsg/src/protocols/pubsub/trie.c:521-556 | In place: a vanished child of a sparse node, with the node deleted or merged where that is due. |
| TrieNodes.TrieNode.PruneDense | nanomsg/src/protocols/pubsub/trie.c:558-627 | In place: a vanished child of a dense node, trimmed or converted. |
| TrieNodes.Found | nanomsg/src/protocols/pubsub/trie.c:629-656 | In place: the end of a removal, with its code. |
| TrieNodes.Unsubscribe | nanomsg/src/protocols/pubsub/trie.c:479-513 | In place, for every trie and every string: it faults exactly where the function says so, and else returns the function's code and leaves nodes that stand for the function's value. |
| TrieNodes.UnsubscribeBelow | nanomsg/src/protocols/pubsub/trie.c:504-627 | The same from where it moves to the next node. |
| Subscriptions.Subscriptions.Match | nanomsg/src/protocols/pubsub/trie.c:441-472 | On nodes: the result of the function, and without bytes after the data, whether a string subscribed to is a prefix of the data. |
| Subscriptions.Subscriptions.Subscribe | nanomsg/src/protocols/pubsub/trie.c:236-439 | On nodes: the count of every string afterwards, and code 1 exactly if there was no subscription to the string. |
| Subscriptions.Subscriptions.Unsubscribe | nanomsg/src/protocols/pubsub/trie.c:474-477 | On nodes: for a string subscribed to, no fault, the code and the count of every string afterwards. |
| Subscriptions.Replay | nanomsg/src/protocols/pubsub/trie.h:95-110 | Any run on an empty trie of nodes ends in nodes that stand for the value the run theorems speak of. |
| Slabs.RemainderIsMod | tools/slabs.c:114-119 | What the whole status words leave of the memory, divided by the class, is the number of bits of the partial word. |
| Slabs.InitStatus | tools/slabs.c:108-126 | The loops leave the unusable bits set, the bits of whole words clear, and the usable bits of a partial word as malloc left them. |
| Slabs.Slab.constructor | tools/slabs.c:104-129 | A new slab has those bits and is not marked full. |
| Slabs.NewSlabCapacity | tools/slabs.c:104-129 | A new slab of class c has at most floor(2^20/c) clear bits, and exactly that many if and only if the memory held zeros in the usable bits of the partial word. |
| Slabs.NewSlabWithoutRoom | tools/slabs.c:104-129 | An input with less: a slab of class 65536, which should hold sixteen values, has no clear bit at all if its memory held ones. |
| Slabs.WholeWordClasses | tools/slabs.c:220-234 | Every class up to 32 KB fills whole words, so its capacity is exact whatever the memory held. |
| Slabs.Slab.FreeIndex | tools/slabs.c:84-102 | One more than the first clear bit, and 0 if and only if all are set. |
| Slabs.Slab.Toggle | tools/slabs.c:47-53 | One bit is flipped and no other. |
| Words.ToggleFlips | tools/slabs.c:47-53 | On the word itself: exclusive or with 0x80000000 >> i flips bit i, counted from the most significant, and no other. |
| Words.OrSets | tools/slabs.c:121-121 | Or with 1 << (31 - j) sets bit j and no other. |
| Words.LeadingOnes | tools/slabs.c:98-99 | If ~w has at least n leading zeros, w starts with n ones. |
| Words.FirstZero | tools/slabs.c:98-99 | If it has no more, the bit after them is the first zero of w. |
| Slabs.Slab.Delete | tools/slabs.c:57-61 | Exactly that bit is flipped, whichever way it was, and the full mark goes. |
| Slabs.RegionsDisjoint | tools/slabs.c:215-215 | Two slots of a slab do not overlap and lie inside its memory. |
| SlabManager.SlabClass | tools/slabs.c:71-81 | The loop over a zero-terminated table finds the first class that is large enough, or the last. |
| SlabManager.ClassForLaw | tools/slabs.c:71-81 | Over the default classes that is the smallest class that holds the size, and one megabyte for anything larger. |
| SlabManager.FitIffRoom | tools/slabs.c:201-216 | There is a first fit if and only if the class has room. |
| SlabManager.AddressInSlab | tools/slabs.c:174-188 | The address of a slot lies in its slab, and dividing gives the slot back. |
| SlabManager.TakeAccounted | tools/slabs.c:201-216 | The allocation bits stay exactly the slots taken and not given back, besides those that were set without an allocation, when a clear slot is taken. |
| SlabManager.GiveAccounted | tools/slabs.c:57-61 | They stay so when a taken slot is given back. |
| SlabManager.StrayAccounted | tools/slabs.c:57-61 | They stay so when a slot is given back that was not taken. |
| SlabManager.Manager.Add | tools/slabs.c:131-136 | One slab at the end of the list; all others, their bits and their bytes as before. |
| SlabManager.Manager.GetSlab | tools/slabs.c:140-154 | The first slab of the class that is not marked full. |
| SlabManager.Manager.GetAddress | tools/slabs.c:201-216 | The first clear slot of the first slab of the class that has one, which becomes taken and is the only bit that changes; none if and only if the class is full. The recursion ends because each call marks one more slab. |
| SlabManager.Manager.Locate | tools/slabs.c:157-168 | The slab that holds an address, and none if and only if no slab does. |
| SlabManager.Manager.Delete | tools/slabs.c:175-198 | Flips the bit of exactly the slot at the address: a taken slot is given back, a slot that was not taken is accounted for as stuck or free; an address in no slab changes nothing. |
| LinkedList.LinkedList.Append | tools/list.c:20-38 | The object at the end of the list. |
| LinkedList.LinkedList.Find | tools/list.c:41-50 | The first object that matches, or none. |
| LinkedList.LinkedList.Delete | tools/list.c:55-89 | Exactly the first object that matches is unlinked. |
| CacheModel.DeleteKeepsStored | cache.c:388-393 | Releasing one key's slot leaves every other key its own allocated slot and its bytes. |
| CacheModel.TakeKeepsStored | cache.c:266-267 | A slot just allocated is nobody's. |
| CacheModel.StoreKeepsStored | cache.c:337-348 | Writing a value into a slot that is nobody's leaves every other value as it is. |
| CacheModel.DeleteLeased | cache.c:388-393 | If the slots taken are those the live keys own, they still are after a key and its slot are given up. |
| CacheModel.StoreLeased | cache.c:337-348 | They are again once the slot taken for a value is linked to its key. |
| CacheModel.ScanFindsOldest | cache.c:229-250 | What the scan over the buckets finds is an entry of the class with the largest timer, and nothing only if all timers of the class are zero. |
| CacheModel.ReleaseGivesRoom | cache.c:256-257 | After a slot of a class is released an allocation in the class succeeds. |
| CacheSpace.SpaceUsed | cache.c:398-414 | The sizes in the buckets add up to the sizes of the live values, which are at most one megabyte a slab. |
| CacheSlots.SlotsConserved | tools/slabs.c:57-61 | In every class, free slots and live values are together exactly as many as the slabs of the class had free slots when they were made. |
| CacheSlots.NoRoomIsNoneFree | tools/slabs.c:84-102 | A class has no room if and only if none of its slots is free. |
| CacheSlots.CapacityIsExact | tools/slabs.c:220-234 | For each class up to 32 KB the slabs were made with floor(2^20 / class) free slots each. |
| Cache.FindIn | tools/list.c:41-50 | The index of the first record with the key. |
| Cache.TickTable | cache.c:191-216 | The loops move every timer on by one, modulo 256. |
| Cache.Oldest | cache.c:229-250 | The loops find a record of the class with the largest timer above zero, and of several the first in their order. |
| Cache.Cache.constructor | cache.c:95-120 | An empty cache whose limit is between one slab and 4 GB. |
| Cache.Cache.Conserved | cache.c:263-277 | In every state of the cache no slot is lost or counted twice, and a class is full if and only if it has as many live values as its slabs had free slots when made. |
| Cache.Cache.RoomAfterDelete | cache.c:316-318 | Giving a key's slot back makes room in its class and changes nothing for any other class. |
| Cache.RefusedIff | cache.c:291-314 | A set is turned away if and only if its key or value is not to be held, with a code for the first reason. |
| Cache.Cache.GetMeta | cache.c:86-91 | A record is found if and only if the key is live, and it is the key's. |
| Cache.Cache.UpdateTimers | cache.c:191-216 | All timers move on; nothing a user sees changes. |
| Cache.Cache.Delete | cache.c:381-396 | The key is gone, its slot free, every other value as it was; an absent key changes nothing. |
| Cache.Cache.Get | cache.c:357-376 | The stored bytes, or NULL exactly for an absent key, or the failing assertion exactly if the value has a zero byte inside; the timer restarts. |
| Cache.Cache.Expand | cache.c:170-179 | One slab more exactly if more than a slab's worth of memory is left; the size stays the slabs' total and below the limit. |
| Cache.Cache.FreeSpace | cache.c:263-277 | If the class has room: the first clear slot of its first slab that has one, and no slab bought. If not: a slab is bought exactly if there is the memory, and a slot found exactly if that slab has a clear bit. The slot found is the only slot taken that no live key owns. |
| Cache.Cache.Evict | cache.c:227-259 | Exactly one entry goes, of the class and with the largest timer, the first such in the order of the scan, and the class then has room; none goes if and only if all timers of the class are zero. |
| Cache.Cache.SpaceUsed | cache.c:399-414 | The loops compute the total size of the live values, at most one megabyte a slab. |
| Cache.Cache.Set | cache.c:284-352 | The code for every input; on success the key has the value and at most one other entry, the oldest of the class, is gone; on code 4 only the old value of the key is. When a slab is bought, when an entry is evicted and when code 4 is returned are each stated as an if and only if on the state before. The invariant of the whole cache, by which the slots taken are exactly those of the live keys, holds afterwards. |
| CacheRuns.StateIsLastWrite | README.md:9-9 | A key is in the cache if and only if its last successful set was not undone by a delete, an eviction or a set that returned 4, and then with that value. |
| CacheRuns.GetReturnsLastWrite | README.md:9-9 | A get returns the value of the last set byte for byte, or nil exactly if there is none, and never a deleted value. |
| CacheRuns.StringsNeverFail | cache.c:373-373 | If every value set is a string with its only zero byte at the end, no get fails its assertion. |
| CacheService.Serve | README.md:9-9 | The cache itself under any sequence of calls, from empty: between all calls its contents are the state of the events, its timers are the ages modulo 256, and free slots and live values add up in every class. Every set is decided as follows: refused at the door or not; a slab is bought if and only if the live values of the class, none of them the key's own, fill every slot and the memory for one is left; a value is evicted if and only if that does not help and some other value of the class shows an age, and it is the one that shows the most; code 4 if and only if none shows an age and a second slab does not help either. |
| CacheService.FilledIsFull | cache.c:263-277 | A class has no room, also not once the key's old value is gone, if and only if its live values fill every slot its slabs were made with and the key's is not among them. |
| CacheService.LiveIsStorable | cache.c:291-314 | Over every run, whatever is in the cache is a string under a key of fewer than 32 characters, within the size of a class and the limit of the cache. |
| CacheAges.AgeIsTicksSince | cache.c:343-344 | A live key has been set or read, and its age is the ticks of all calls since: one for a value stored, one for a value taken out. |
| CacheAges.SetKeepsAges | cache.c:284-352 | After a successful set every timer holds the age of its key modulo 256, also with an overwritten key and a victim. |
| CacheAges.DeleteKeepsAges | cache.c:381-396 | So it does after a delete, and after a set that gave up. |
| CacheAges.OthersKeepAges | cache.c:357-376 | So it does after a get, which starts the age of its key anew, and after calls that change nothing. |
| CacheAges.StalestIsOldest | cache.c:227-259 | The entry that the scan picks is the key of the class whose age, modulo 256, shows the most at that moment. |
| CacheAges.FreshIsYoung | cache.c:227-259 | The scan finds nobody if and only if all these ages show zero. |
| CacheAges.VictimIsLongestUnused | cache.c:343-344 | As long as no age of the class has reached 255, that is the value that has gone unused for longest. |
| CacheAges.WrappedIsSpared | cache.c:206-209 | A run after which it is not: the value unused for 256 ticks is spared, and the one unused for 255 goes. |
| CacheAges.GivenUpOnMultiples | cache.c:330-334 | After a set that returned 4, every other live value of the class is a multiple of 256 ticks old. |
| MsgQueue.KeepsBound | nanomsg/src/transports/inproc/msgqueue.c:80-146 | A queue of two or more messages stays below the memory limit. |
| MsgQueue.AcceptsIff | nanomsg/src/transports/inproc/msgqueue.c:80-89 | A message is refused only if the queue with it would break the bound. |
| MsgQueue.MemIsBytes | nanomsg/src/transports/inproc/msgqueue.c:87-93 | The memory counted is the number of bytes of all headers and bodies. |
| MsgQueue.MsgQueue.constructor | nanomsg/src/transports/inproc/msgqueue.c:31-49 | An empty queue. |
| MsgQueue.MsgQueue.EmptyIsOneChunk | nanomsg/src/transports/inproc/msgqueue.c:51-73 | An empty queue occupies one chunk. |
| MsgQueue.MsgQueue.Send | nanomsg/src/transports/inproc/msgqueue.c:80-115 | Accepts if and only if the queue is empty or all its bytes with those of the message stay below the limit, and then appends; the counters stay right. |
| MsgQueue.MsgQueue.Recv | nanomsg/src/transports/inproc/msgqueue.c:117-146 | Takes the oldest message, or says there is none; the stale link of a reused chunk is never followed. |
| MsgQueue.MsgQueue.Drain | nanomsg/src/transports/inproc/msgqueue.c:51-73 | The loop empties the queue and leaves one chunk. |
| Sinproc.StartInv | nanomsg/src/core/pipe.c:75-93 | Two sessions that have just become active are in step in both directions. |
| Sinproc.ApplyKeeps | nanomsg/src/transports/inproc/sinproc.c:391-425 | No step of either peer fails an assertion or raises an event that is still queued, and both directions keep their invariant. |
| Sinproc.AssertionsHold | nanomsg/src/transports/inproc/sinproc.c:391-425 | What the code asserts where a step is taken, spelt out, holds in every state the two peers get to: pipe states, a message to take, no event raised that is still queued. |
| Sinproc.RecvKeeps | nanomsg/src/transports/inproc/sinproc.c:164-200 | The same for a receive, with or without a message held back. |
| Sinproc.EveryRunIsSafe | nanomsg/src/transports/inproc/sinproc.c:136-200 | In every interleaving from two active peers: no fault, what one side has sent is what the other has received, then what is queued, then at most one message in flight, and a message is held back only while it and what is queued reach the limit. |
| Sinproc.ApplyRecords | nanomsg/src/transports/inproc/sinproc.c:136-200 | A send adds its message to what was sent, a receive one message to what was received, and no other step adds to either. |
| Sinproc.FirstInFirstOut | nanomsg/src/transports/inproc/sinproc.c:136-200 | In every run from the start, the n receives of one side have got the first n messages that the other has sent, in order. |
| Sinproc.StepsRunOut | nanomsg/src/core/pipe.c:102-217 | Unless a user sends more, the two peers take only so many steps. |
| Sinproc.QuietMeansDelivered | nanomsg/src/transports/inproc/sinproc.c:181-197 | When no step is left every message has been received and both sides may send: back-pressure never gets stuck. |
| Req.EveryRunIsSafe | nanomsg/src/protocols/reqrep/req.c:361-615 | In every run of the socket with its timer and its worker: no bad state, action or source, the timer is only started when idle, nothing is queued twice. |
| Req.TaskKeeps | nanomsg/src/aio/timer.c:90-177 | The worker's tasks, in any phase of the timer, meet the timer in a state that expects them. |
| Req.FireKeeps | nanomsg/src/aio/timer.c:90-177 | So does an expired timer, also one that was stopped after it had expired. |
| ReqSends.AssertionsHold | nanomsg/src/protocols/reqrep/req.c:361-615 | What the code asserts where an action is taken, spelt out: the timer is idle when started, no task or event is queued twice, the worker and every event meet a state that expects them. |
| Req.RunFacts | nanomsg/src/protocols/reqrep/req.c:621-676 | A pipe is in use exactly in ACTIVE, and the latest request was sent last by it; a timeout is pending only there, a request is held back only while no pipe is ready, and every transmission is the request submitted, header and body. |
| Req.RequestIds | nanomsg/src/protocols/reqrep/req.c:241-264 | Requests are numbered one up from the first id, with the top bit set on the wire. |
| Req.DoneMeansAnswered | nanomsg/src/protocols/reqrep/req.c:146-201 | DONE is entered only by the arrival, in ACTIVE, of the answer to the latest request. What the user collects is left by the last arrival: the accepted answer if and only if nothing came later or the last that did is an answer with the same body, otherwise that other answer or, if it is none, a message already released. |
| Req.LateArrivalSpoils | nanomsg/src/protocols/reqrep/req.c:146-201 | The whole run: a request is sent and answered, and before the user collects the reply another message arrives; the user gets that one, or a message already released if it is no answer. |
| Req.NegativeIntervalFaults | nanomsg/src/protocols/reqrep/req.c:297-315 | With a negative resend interval exactly the transmissions fail. |
| Req.NegativeIntervalRun | nanomsg/src/protocols/reqrep/req.c:297-315 | The run: the interval is set to -1, a pipe appears, a request is submitted; each can happen, and the last fails. |
| ReqSends.TransmitsLatest | nanomsg/src/protocols/reqrep/req.c:621-650 | An action transmits in exactly the cases named, and then it sends one message: the latest request, by the pipe chosen, with the timer started; any other action sends nothing. |
| ReqSends.PipesFollow | nanomsg/src/protocols/reqrep/req.c:621-676 | The pipes ready are those announced and not removed or used up since; the interval is the one set last. |
| ReqSends.SubmitCancels | nanomsg/src/protocols/reqrep/req.c:443-451 | A request submitted while another is on its way, or its answer is, replaces it: nothing is sent until the other's timer has stopped, and no answer to the other is handed over. |
| ReqSends.RequestsAreSubmitted | nanomsg/src/protocols/reqrep/req.c:241-264 | In every run the requests are the bodies submitted, in order. |
| ReqSends.SentIsSubmitted | nanomsg/src/protocols/reqrep/req.c:621-650 | In every run, in ACTIVE what was sent last is the body submitted last, under its own id, by the pipe whose loss is watched for. |
| ReqSends.OnlyItsAnswer | nanomsg/src/protocols/reqrep/req.c:146-201 | In every run a reply under the id of an earlier request is taken for the answer if and only if that request is a multiple of 2^31 older. |
| ReqSends.ResendFollows | nanomsg/src/protocols/reqrep/req.c:479-535 | After a timeout, a lost pipe or a request that replaces another: the worker's steps and the next event can be taken, and send the latest request once more or, without a pipe, leave it to wait. |
| ReqSends.TimeoutResends | nanomsg/src/protocols/reqrep/req.c:463-472 | From ACTIVE the timer can expire at any moment, and the request is sent again or waits. |
| ReqSends.LossResends | nanomsg/src/protocols/reqrep/req.c:452-458 | The loss of the pipe in use does the same with the pipes left. |
| ReqSends.AnswerFollows | nanomsg/src/protocols/reqrep/req.c:436-442 | After an answer was accepted the worker's steps and the next event make it ready, and it is handed over once. |
| ReqSends.RefusedIff | nanomsg/src/protocols/reqrep/req.c:273-295 | In every run of an open socket a receive is refused if and only if no request is outstanding. |
| ReqSends.CloseFollows | nanomsg/src/protocols/reqrep/req.c:337-366 | Closing stops the socket at once or once the worker has stopped the timer, and nothing is sent after it. |
| Wire.PutLInto | nanomsg/src/utils/wire.c:51-57 | Four bytes of the buffer are written, no other. |
| Wire.GetPut | nanomsg/src/utils/wire.c:43-57 | Reading back a written number gives the number. |
| Wire.PutGet | nanomsg/src/utils/wire.c:43-57 | Writing a number read gives the same bytes. |
| Wire.TopComesFirst | nanomsg/src/utils/wire.c:43-57 | The top bit of a number is that of its first byte. |
| Wire.OrderOfBytes | nanomsg/src/utils/wire.c:43-57 | Numbers are ordered as their bytes are, read from the first. |
| Wire.SameWithTop | nanomsg/src/protocols/reqrep/req.c:241-264 | Two ids give the same header exactly if they differ in the top bit at most. |
| Routing.ScanHeader | nanomsg/src/protocols/reqrep/xrep.c:210-228 | The loop finds the end of the header, or that there is none. |
| Routing.StackIsHeader | nanomsg/src/protocols/reqrep/xrep.c:210-236 | A backtrace of any length in front of any body is split off exactly where it ends. |
| Routing.HeaderIsStack | nanomsg/src/protocols/reqrep/xrep.c:210-236 | Nothing but a backtrace, keys without and an id with the top bit, is ever split off. |
| Routing.RequestArrives | nanomsg/src/protocols/reqrep/xrep.c:191-249 | Through any number of hops, over any mix of transports, a request arrives with its body intact under the keys of the pipes it came by. |
| Routing.ReplyReturns | nanomsg/src/protocols/reqrep/xreq.c:178-205 | The reply gets back to the requester, by the same pipes in reverse and with exactly the original id, if and only if all these pipes still stand ready and no pipe that keeps header and body apart comes after one that does not. |
| Routing.MixedPathLosesReply | nanomsg/src/protocols/reqrep/xreq.c:187-202 | A path, inproc to a device and a network transport to the server, on which the reply is lost. |
| Rep.KeysRepeat | nanomsg/src/protocols/reqrep/xrep.c:105-107 | Two pipes of a socket get the same key if and only if their numbers differ by a multiple of 2^31. |
| Rep.XRep.Add | nanomsg/src/protocols/reqrep/xrep.c:86-112 | The pipe gets the next key; the assertion that the key is free fails exactly if a live pipe has it, and not before 2^31 pipes. |
| Rep.XRep.Rm | nanomsg/src/protocols/reqrep/xrep.c:114-127 | The key is nobody's, all other peers as before. |
| Rep.XRep.Out | nanomsg/src/protocols/reqrep/xrep.c:140-146 | The peer is ready. |
| Rep.XRep.Send | nanomsg/src/protocols/reqrep/xrep.c:154-189 | The top key picks the pipe and is taken off, or the message is dropped exactly if the header is too short, the key unknown or the pipe not ready. |
| Rep.XRep.Recv | nanomsg/src/protocols/reqrep/xrep.c:191-249 | The header split off the body if the transport did not keep it apart, under the key of the pipe; malformed requests refused. |
| Rep.Rep.Recv | nanomsg/src/protocols/reqrep/rep.c:117-142 | The backtrace of the request is stored; an older one is forgotten, also if the request is malformed. |
| Rep.Rep.Send | nanomsg/src/protocols/reqrep/rep.c:92-115 | One reply for each request, under its backtrace; a second is refused with EFSM. |
| Rep.ReplyGoesToAsker | nanomsg/src/protocols/reqrep/rep.c:92-142 | The reply goes to the pipe that has the key of the last request's pipe, with the header the request had. |
| Exchange.ExchangeCompletes | nanomsg/src/protocols/reqrep/req.c:146-201 | In every run of the requester, whenever a request is in ACTIVE: through any hops it arrives with its body intact, and the reply is accepted as its answer if and only if the pipes of the way still stand ready and none that keeps header and body apart comes after one that does not. |
| PipeHash.Hash.constructor | nanomsg/src/utils/hash.c:33-44 | An empty map in 32 slots. |
| PipeHash.Hash.Get | nanomsg/src/utils/hash.c:123-140 | The live item for the key, or none exactly if there is none. |
| PipeHash.Hash.Insert | nanomsg/src/utils/hash.c:90-112 | The map with the item added; the assertion fails exactly if the key is there; half the slots at most are in use until there are 2^31. |
| PipeHash.Hash.Rehash | nanomsg/src/utils/hash.c:55-87 | Twice the slots, the same map: nothing lost, nothing twice. |
| PipeHash.Hash.Erase | nanomsg/src/utils/hash.c:114-121 | The map without the key. |
| List.List.Insert | nanomsg/src/utils/list.c:72-87 | The item stands before the position given; all links are right. |
| List.List.Erase | nanomsg/src/utils/list.c:89-111 | The item is out and marked so, the rest is linked, and the result is what followed it. |
| List.List.Empty | nanomsg/src/utils/list.c:41-44 | Whether there is no item. |
| List.List.Prev | nanomsg/src/utils/list.c:56-63 | What comes before a position, or before the end. |
| Priolist.NextOrder | nanomsg/src/protocols/utils/priolist.c:157-164 | Serving moves the first pipe of a level to the end of the order, or takes it out. |
| Priolist.InsertOrder | nanomsg/src/protocols/utils/priolist.c:111-120 | A pipe that becomes active comes after those still ahead of the cursor and before those behind it. |
| Priolist.RemoveOrder | nanomsg/src/protocols/utils/priolist.c:71-87 | Removing a pipe keeps the order of the others. |
| Priolist.Priolist.GetPipe | nanomsg/src/protocols/utils/priolist.c:142-147 | The pipe at the cursor of the highest level that has one, or none exactly if there is none. |
| Priolist.Priolist.Activate | nanomsg/src/protocols/utils/priolist.c:104-135 | The pipe joins its level; the current level stays the highest with a pipe, -1 exactly if there is none. |
| Priolist.Priolist.Advance | nanomsg/src/protocols/utils/priolist.c:149-176 | The cursor moves on; the same invariant. |
| Priolist.Priolist.Rm | nanomsg/src/protocols/utils/priolist.c:60-102 | The pipe leaves, active or not, at the cursor or not; the same invariant. |
| PriolistRuns.WaitIsExact | nanomsg/src/protocols/utils/priolist.c:104-176 | In every run the place of a waiting pipe, with the turns of its level and the pipes that left from before it, is its first place and the pipes that became active while it was behind the cursor: an equation. |
| PriolistRuns.ServedInOneRound | nanomsg/src/protocols/utils/priolist.c:149-176 | If none becomes active while it is behind the cursor, a pipe is served, or removed, within as many turns as its level has pipes. |
| PriolistRuns.RoundInOrder | nanomsg/src/protocols/utils/priolist.c:149-176 | One round serves the pipes in order and each once, releases included. |
| PriolistRuns.CanWaitForever | nanomsg/src/protocols/utils/priolist.c:111-116 | Otherwise a pipe may wait for any number of turns. |
| PriolistRuns.Act | nanomsg/src/protocols/utils/priolist.c:67-176 | The operations of the list take exactly the steps of these runs. |
| PriolistRuns.Replay | nanomsg/src/protocols/utils/priolist.c:67-176 | For every run the list ends with the levels, and has served the pipes, that the theorems on runs speak of. |
| Dist.Memory.Term | nanomsg/src/utils/chunk.c:146-166 | One reference less; the chunk goes exactly with its last reference. |
| Dist.Memory.StartMsg | nanomsg/src/utils/chunkref.c:142-150 | As many references more to each chunk of the message as copies are to be made. |
| Dist.Dist.Out | nanomsg/src/protocols/utils/dist.c:60-64 | The pipe joins; the count is the length of the list. |
| Dist.Dist.Rm | nanomsg/src/protocols/utils/dist.c:51-58 | The pipe leaves if it is there; the count is the length of the list. |
| Dist.Dist.Send | nanomsg/src/protocols/utils/dist.c:66-107 | Every pipe but the excluded one gets a copy; each chunk's count changes by the number of copies less one; released pipes leave the list and the count stays its length. |
| Dist.ReceiversAre | nanomsg/src/protocols/utils/dist.c:66-107 | The copies go to the pipes other than the excluded one, each place once and in order. |
| Dist.LeftAre | nanomsg/src/protocols/utils/dist.c:94-102 | The pipes that stay are the excluded one and those the send did not release, in order. |
| Chunks.TrimsDrop | nanomsg/src/utils/chunk.c:183-216 | After any trims the data is the original without the bytes trimmed, and offset and tag still lead to the chunk. |
| Chunks.TrimIsNotShared | nanomsg/src/utils/chunk.c:201-202 | Another reference to the same chunk keeps its data over a trim if and only if nothing is trimmed. |
| Chunks.Chunk.constructor | nanomsg/src/utils/chunk.c:60-96 | A chunk whose data pointer decodes and whose data is what the memory held. |
| Chunks.Chunk.GetPtr | nanomsg/src/utils/chunk.c:207-216 | The offset stored before the data is the distance to where it began. |
| Chunks.Chunk.Trim | nanomsg/src/utils/chunk.c:183-205 | The pointer moves on and decodes; the assertion on 32 bits fails exactly for larger distances. |
| Chunks.ChunkRef.constructor | nanomsg/src/utils/chunkref.c:42-56 | Up to 31 bytes are kept in the reference, more in a chunk; in both cases the data is what that memory held. |
| Chunks.ChunkRef.Trim | nanomsg/src/utils/chunkref.c:127-140 | The data loses its first bytes, inline or in a chunk. |
| Sockets.PutKeeps | nanomsg/src/core/global.c:506-525 | Taking a slot: it was empty, and the stack again lists exactly the empty slots without repeats. |
| Sockets.DropKeeps | nanomsg/src/core/global.c:598-603 | Giving a slot back keeps the same. |
| Sockets.Global.constructor | nanomsg/src/core/global.c:226-248 | The fresh table. |
| Sockets.Global.Create | nanomsg/src/core/global.c:501-527 | In place: an empty slot is taken, or -1 exactly if there are 512 sockets. |
| Sockets.Global.Remove | nanomsg/src/core/global.c:598-603 | In place: the slot is given back. |
| Sockets.HoldTells | nanomsg/src/core/global.c:1426-1451 | A descriptor is accepted if and only if the library is not terminating and a socket that nobody is closing is in that slot. |
| Sockets.EveryRunIsSafe | nanomsg/src/core/global.c:563-612 | In every interleaving of open, use, close and terminate: no pointer to a freed socket is used, the stack is exact, each socket has at most one closer, its semaphore has been posted once if nobody holds it and never otherwise, and a socket in use keeps its slot. |
| Sockets.FinishAlone | nanomsg/src/core/sock.c:226-243 | When a socket is freed nobody holds it. |
| Sockets.CloserIsWoken | nanomsg/src/core/sock.c:1182-1188 | Once the closer has done its releases and the last user has left, the wait succeeds. |
| SocketEffects.OpenTells | nanomsg/src/core/global.c:487-531 | nn_socket gives a socket if and only if the library is not terminating, fewer than 512 are open and there is one of the kind. |
| SocketEffects.OpenTakes | nanomsg/src/core/global.c:506-525 | The new socket takes a slot that was empty and is accepted from then on; the other sockets and threads are as before, and so is what callers are told. |
| SocketEffects.OpenFails | nanomsg/src/core/global.c:487-531 | Without success nothing changes for anybody. |
| SocketEffects.HoldTakes | nanomsg/src/core/global.c:1426-1451 | A call with a descriptor that is accepted holds that socket for the thread; any other changes nothing. |
| SocketEffects.ReleaseGives | nanomsg/src/core/sock.c:1182-1188 | When the call is over the socket has one user less, and nothing else changes. |
| SocketEffects.CloseStops | nanomsg/src/core/global.c:563-585 | After nn_close of a descriptor that is accepted it is refused, the thread is its closer, and every other socket, thread and descriptor is as before; any other call changes nothing. |
| SocketEffects.CloserGoesOn | nanomsg/src/core/global.c:580-603 | A thread in nn_close can go on, unless it waits, and then if and only if the socket has no user left. |
| SocketEffects.CloseGoesThrough | nanomsg/src/core/global.c:580-612 | On a socket without users the steps of nn_close can be taken one after the other; then the socket is gone, its slot empty, the count one less, and everything else as before. |
| SocketEffects.FinishEmpties | nanomsg/src/core/global.c:594-612 | The last step empties the slot; other descriptors are told as before unless it was the last socket. |
| SocketEffects.TermEnds | nanomsg/src/core/global.c:394-410 | After nn_term every descriptor is refused with ETERM and no socket is opened; those in use stay. |

## Left out

- Cache.Cache.Set: a call that no check turns away with a key of exactly 32 characters, a value of zero bytes or a value of more than 2^20 bytes is excluded, because the code then reads or writes outside the memory meant for it.
- Cache.Cache.Get: a value is its bytes; that the returned pointer stays valid only until the next call is not modelled.
- Cache.Cache.Delete: the null cache pointer, which every function of the cache turns away, is not modelled.
- SlabManager.Manager.Delete: an address behind the slots of a slab, in what is left of its memory or in its status words, is excluded; no caller passes one.
- Slabs.InitStatus: a status word is 32 booleans, and what the code does to words is proved of single words in `Words`. For class 64 the code also sets the bits of the word behind the last status word, which holds the full mark; the mark is cleared right afterwards, and this write is left out.
- Cache.FindIn: the buckets are sequences in the cache; the linked lists of `tools/list.c` are proved on their own in `LinkedList`.
- TrieNodes.TrieNode.Subscribe: descends by recursion where the code loops through a pointer to a pointer, so that every node above can be said to stand for its new value; the same holds of `TrieNodes.Build`.
- TrieNodes.Unsubscribe: after a fault nothing is said about the nodes.
- TrieCounts.SubscribeCount: the 32-bit wrap-around of a reference count is not modelled.
- MsgQueue.MsgQueue.Send: a message has a protocol header and a body; the third part of a message, its ancillary headers, is not modelled.
- Sinproc.EveryRunIsSafe: the connecting handshake and the teardown are not modelled; both peers start active.
- Req.EveryRunIsSafe: each message a pipe delivers is a step of its own; the order of shutdown of a whole socket is not modelled, and which pipe the load balancer picks is a parameter.
- Routing.ReplyReturns: the devices pass header and body on as they are; how they pack them into ancillary data is not modelled.
- Rep.XRep.Recv: which pipe the fair queue picks is a parameter.
- Priolist.Priolist.Activate: the lists are sequences; the linked list of `list.c` is proved on its own in `List`, and so it is for `Dist` and `PipeHash`.
- PipeHash.Hash.Insert: holds for any hash function; the one the code computes is not modelled.
- Dist.Dist.Send: the counters are unbounded numbers, and a send on a pipe is only whether it releases the pipe.
- Sockets.EveryRunIsSafe: the two releases of nn_close happen outside the global lock and are taken as atomic steps; the wait for the endpoints is left to the scheduler, and a wait cut short by a signal is not modelled.
- Chunks.Chunk.constructor: the overflow check of a requested size and nn_chunk_realloc are not modelled.
- `resize_keys` of the cache is not modelled: it is never called.
- The server, the client and the workload simulator are input and output.
- Surveyor and respondent repeat REQ and REP; the other protocols are thin layers over the structures modelled here.
- The network transports, poller, threads, clocks, options, statistics and error texts are not modelled.
