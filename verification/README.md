# Verified models of the hust proxies

Dafny models, with proofs, of the parts of this repository whose behaviour is hardest to see from the code:

- the shared-memory dictionary (`ngx_shm_dict`): a hash-ordered search tree and a recency queue threaded
  through the same nodes, bounded memory, expiry in milliseconds (`Bytes`, `ShmTree`, `ShmSpec`, `ShmContract`,
  `ShmExact`, `ShmRuns`, `ShmDict`);
- the smooth weighted round robin of the patched nginx upstream, with its bitmap of tried peers and failover to
  backups (`SmoothRoundRobin`, `PeerSpec`, `PeerFails`, `RoundRobin`, `RoundRobinRuns`);
- the chained hash table `c_dict` (`Bits`, `CDict`);
- the key-value proxy `hustdbha`: the 1024-slot table and its generator, migrations, the two-master write
  protocol with its sync records, and reading (`GenTable`, `HaTable`, `HaBuild`, `HaMigrate`, `HaWrite`, `HaBinlog`,
  `HaRead`);
- the rendezvous of task producers and workers in `hustmqha` (`MqQueues`, `MqSpec`, `MqRuns`, `MqAnswers`,
  `MqRendezvous`).

Code that changes state is modelled by classes and methods with the same branches and loops, each proved against
a function on plain values or an invariant; the promises are then lemmas about those functions over every
input, run or reachable state. `Options`, `Words` and `Sequences` hold what several of them share. `dafny verify dfyconfig.toml` checks everything.

What lies outside the modelled code enters as a parameter that may take any value: the slab allocator (a sequence
of granted or refused requests), clocks, health checks, the statuses and versions of subrequests, whether a header,
buffer, log line or subrequest can be produced, checksums, and the shapes nginx's rotations give the tree (any
shape with the same in-order sequence).

Where code and comments disagree, or the code does something a caller may not expect, the model follows the code:

- `hustdb_ha_write_handler.c:199-205` documents that one skipped answer beside a success is a 200; lines 212-220
  make it a 404 (`HaWrite.TableDeviation`).
- `ngx_shm_dict_writer.c:88,162` multiplies the lifetime by 1000 in 32 bits (`ShmSpec.DeadlineExact`).
- A replacement of a different length frees the old entry before it allocates, so a failed write can lose the key
  (`ShmContract.LosesKeyExactlyWhen`).
- `ngx_shm_dict.c:172-175` returns from `flush_expired` on an empty queue with the mutex locked
  (`ShmDict.ShmDict.FlushExpired`).
- An entry in the millisecond of its deadline is found by a lookup but not counted, and may be reclaimed
  (`ShmSpec.ListedVersusLive`).
- `hustdb_ha_table_def.c:95-100` names the second master of the lower half twice in the read list of the upper half.
- Task timeouts in the message queue leave the token stored, and tokens belong to records rather than to tasks, so a
  result can reach a request that never asked for it (`MqRuns.RightRequest`).
- Ends of middle table items are not bounded by the table (`HaBuild.EndsUnchecked`), and a lone item that ends early is
  accepted over slots that pass the review already (`HaBuild.LoneEarlyItem`).
- Waiting tasks and waiting workers are served last in, first out.

## Model

| member | source | states |
|---|---|---|
| ShmTree.InsertInOrder | lib_hustngx/nginx/src/core/ngx_shm_dict_utils.c:130-166 | the leaf position the insert walk reaches is the position that keeps the in-order sequence strictly increasing by (hash, key bytes), for any shape of the tree |
| ShmTree.HangBelowSpot | lib_hustngx/nginx/src/core/ngx_shm_dict_utils.c:130-166 | relinking one child pointer below that position turns the wired tree into the tree with the node inserted, and disturbs no other link |
| ShmTree.LessTotal | lib_hustngx/nginx/src/core/ngx_shm_dict_utils.c:143-149 | the comparison by hash, then by key bytes, leaves no two different keys incomparable |
| ShmTree.SearchTree.Find | lib_hustngx/nginx/src/core/ngx_shm_dict_utils.c:176-211 | the search returns a node with the hash and key exactly when one is a member, whatever the shape and however many hashes collide |
| ShmTree.SearchTree.Insert | lib_hustngx/nginx/src/core/ngx_shm_dict_utils.c:130-166 | a new node becomes a member, and nothing else changes, under any rebalancing that keeps the in-order sequence |
| ShmTree.SearchTree.Delete | lib_hustngx/nginx/src/core/ngx_shm_dict_utils.c:112-120 | exactly the given node stops being a member, under any rebalancing that keeps the in-order sequence |
| Bytes.CompareTransitive | lib_hustngx/nginx/src/core/ngx_shm_dict_utils.c:147-149 | the byte comparison the tree is ordered by is transitive, on keys of any lengths |
| ShmDict.EightByteCollision | lib_hustngx/nginx/src/core/ngx_shm_dict_utils.c:3-14 | two 8-byte keys that share their first four bytes get the same hash, so lookup really has to compare keys |
| ShmSpec.DeadlineExact | lib_hustngx/nginx/src/core/ngx_shm_dict_writer.c:88 | the deadline written for a lifetime in seconds is the requested one exactly up to 4294967 seconds, and wraps in 32 bits beyond that |
| ShmSpec.GapIsDifference | lib_hustngx/nginx/src/core/ngx_shm_dict_utils.c:113-117 | the 64-bit difference read back as signed is the true difference for every clock and deadline below 2^63 |
| ShmSpec.LifetimeRoundTrip | lib_hustngx/nginx/src/core/ngx_shm_dict_reader.c:38-47 | the remaining lifetime reported right after a write is the one requested, when the product does not wrap |
| ShmSpec.ListedVersusLive | lib_hustngx/nginx/src/core/ngx_shm_dict.c:74-82 | a key that the key count leaves out as expired is still readable exactly in the millisecond of its deadline |
| ShmSpec.ExpireTakesTail | lib_hustngx/nginx/src/core/ngx_shm_dict_utils.c:92-127 | one reclaiming pass keeps a prefix of the queue: it drops the oldest entry by force when its counter starts at 0, and then only expired entries, as many as stand at the old end up to two |
| ShmContract.EvictTakesTail | lib_hustngx/nginx/src/core/ngx_shm_dict_writer.c:121-138 | the forced eviction rounds keep a prefix of the queue and take at most three entries each, thirty times at most |
| ShmContract.SetOutcome | lib_hustngx/nginx/src/core/ngx_shm_dict_writer.c:6-177 | after any write: the key with its new value, type, flags and deadline at the head of a prefix of the old queue without the key, at most 92 entries shorter; on removal just the prefix; on failure only old entries |
| ShmContract.SafeKeepsOthers | lib_hustngx/nginx/src/core/ngx_shm_dict_writer.c:121-138 | a `safe` write never costs another key an entry that has not reached its deadline, whether it succeeds or not |
| ShmContract.EvictExactly | lib_hustngx/nginx/src/core/ngx_shm_dict_writer.c:139-150 | the eviction loop gets memory exactly if, in one of its thirty rounds, the queue is not exhausted yet and the allocation tried after that round's eviction is granted |
| ShmContract.SucceedsExactlyWhen | lib_hustngx/nginx/src/core/ngx_shm_dict_writer.c:36-154 | a write succeeds exactly when its flags allow it for what the search found, and it either only takes an entry out, or has data that fits the node found, or one of its allocations is granted: the first, or unless it is `safe` one after an eviction |
| ShmContract.FlagContract | lib_hustngx/nginx/src/core/ngx_shm_dict_writer.c:36-77 | when the slab grants the first allocation the flags alone decide: `replace` and `delete` succeed exactly on live keys, `add` exactly on keys not live, a plain write always |
| ShmContract.FlagsNecessary | lib_hustngx/nginx/src/core/ngx_shm_dict_writer.c:36-77 | whatever the slab answers, no `replace` or `delete` succeeds on a key that is not live, and no `add` on a live key before the millisecond of its deadline |
| ShmContract.DeleteRemoves | lib_hustngx/nginx/src/core/ngx_shm_dict.c:36-43 | a delete succeeds exactly on a live key, and then the key is gone |
| ShmContract.LosesKeyExactlyWhen | lib_hustngx/nginx/src/core/ngx_shm_dict_writer.c:78-154 | a write takes away the live entry it found without storing its own exactly when it is no `add` and either has no data, or has data of a different length and none of its allocations is granted |
| ShmContract.SameLengthKeeps | lib_hustngx/nginx/src/core/ngx_shm_dict_writer.c:78-101 | data as long as the stored never costs a live key its entry, whatever the flags and the slab |
| ShmContract.ReplaceCanLoseKey | lib_hustngx/nginx/src/core/ngx_shm_dict_writer.c:103-154 | a concrete failed replace after which the key is gone |
| ShmContract.SetRefinesMap | lib_hustngx/nginx/src/core/ngx_shm_dict_writer.c:6-177 | writes refine updates of a map with expiry as seen by any later reader: a stored value is visible up to its deadline, a removed key is not, every other key keeps what it had or is no longer visible |
| ShmContract.StatusAfterReclaim | lib_hustngx/nginx/src/core/ngx_shm_dict_utils.c:202-206 | reclaiming on entry changes what a lookup finds only in the very millisecond of the deadline |
| ShmExact.EvictLeaves | lib_hustngx/nginx/src/core/ngx_shm_dict_writer.c:121-138 | the eviction loop takes one forced pass for each allocation refused and one more for the one granted, and no further ones |
| ShmExact.WriteLeaves | lib_hustngx/nginx/src/core/ngx_shm_dict_writer.c:6-177 | what a write leaves, for every case: refused by its flags, nothing but the entry-time reclaim is lost; in place or with the first allocation granted, the others stay as the reclaim left them; after an eviction, as the passes up to the first granted allocation left them; on failure, as all of them did |
| ShmExact.RoomCostsNothing | lib_hustngx/nginx/src/core/ngx_shm_dict_writer.c:128-154 | a write that finds a node of the right length, or room at its first allocation, costs no other key an entry before its deadline |
| ShmExact.ReadExactly | lib_hustngx/nginx/src/core/ngx_shm_dict_reader.c:4-51 | a read returns an entry exactly if it is stored under the key, survives the entry-time reclaim and is not past its deadline; it costs nothing but that reclaim |
| ShmExact.StoredIsFound | lib_hustngx/nginx/src/core/ngx_shm_dict_reader.c:4-51 | every stored entry without a deadline, or before it, is found |
| ShmExact.FoundWasStored | lib_hustngx/nginx/src/core/ngx_shm_dict_reader.c:4-51 | nothing is found that is not stored, belongs to another key, or is past its deadline |
| ShmExact.ReadAfterWrite | lib_hustngx/nginx/src/core/ngx_shm_dict_reader.c:4-51 | data written without a lifetime is read back, with its type and flags, at any time; data written for up to 4294967 seconds until they are over, and never after, but for a possible reclaim in the last millisecond |
| ShmDict.ShmDict.SetImpl | lib_hustngx/nginx/src/core/ngx_shm_dict_writer.c:6-177 | the pointer code refines the write on the queue for every flag combination and every behaviour of the slab, keeps tree, queue and allocated blocks the same set of nodes, and releases the mutex |
| ShmDict.ShmDict.ReplaceNode | lib_hustngx/nginx/src/core/ngx_shm_dict_writer.c:78-113 | an entry of the same length is overwritten in place, any other is removed before a new one is allocated |
| ShmDict.ShmDict.ExpireFrom | lib_hustngx/nginx/src/core/ngx_shm_dict_utils.c:92-127 | the reclaim loop takes the tail it should and reports how many entries it freed |
| ShmDict.ShmDict.Lookup | lib_hustngx/nginx/src/core/ngx_shm_dict_utils.c:169-214 | reports live, expired or absent as the queue says, and moves the found entry to the head |
| ShmDict.ShmDict.Delete | lib_hustngx/nginx/src/core/ngx_shm_dict.c:36-43 | the entry point is the write of the null type with a null value |
| ShmDict.ShmDict.Get | lib_hustngx/nginx/src/core/ngx_shm_dict_reader.c:4-51 | a value comes back exactly when the key is live after the entry-time reclaim, with its remaining lifetime, and the entry moves to the head |
| ShmDict.ShmDict.FlushAll | lib_hustngx/nginx/src/core/ngx_shm_dict.c:144-161 | every entry is outdated and one forced reclaiming pass is made, in any state |
| ShmDict.ShmDict.FlushExpired | lib_hustngx/nginx/src/core/ngx_shm_dict.c:164-201 | returns how many entries it removed; the mutex stays locked exactly when the queue was empty |
| ShmDict.ShmDict.GetTotalKeys | lib_hustngx/nginx/src/core/ngx_shm_dict.c:45-96 | the count is the number of listed keys; the mutex is held during the traversal and free afterwards |
| ShmDict.ShmDict.GetKeys | lib_hustngx/nginx/src/core/ngx_shm_dict.c:45-141 | the array sized by the first traversal is filled exactly by the second, in queue order, but for the keys the pool had no room to copy |
| ShmSpec.KeysExact | lib_hustngx/nginx/src/core/ngx_shm_dict.c:106-117 | a key is listed exactly when an entry for it is stored and, unless expired ones are asked for, has not reached its deadline |
| ShmExact.AllListed | lib_hustngx/nginx/src/core/ngx_shm_dict.c:106-117 | with expired keys asked for, every entry is listed, in queue order |
| ShmExact.FlushMatchesListing | lib_hustngx/nginx/src/core/ngx_shm_dict.c:164-201 | a `flush_expired` without a limit removes exactly the entries whose deadline has come; what is left is what the listing without expired keys names, in order, and what it returns is the difference of the two key counts |
| ShmExact.FlushAllExactly | lib_hustngx/nginx/src/core/ngx_shm_dict.c:144-161 | `flush_all` frees the three oldest entries and leaves every other one in place with a deadline long past |
| ShmRuns.LeastRecentlyUsed | lib_hustngx/nginx/src/core/ngx_shm_dict_utils.c:92-214 | over every run from the empty dictionary the queue is ordered by last use, most recent first, and no key is stored twice |
| ShmRuns.EvictsOldest | lib_hustngx/nginx/src/core/ngx_shm_dict_utils.c:92-127 | over every run, whatever a read or write costs other keys was last used before everything it keeps |
| ShmRuns.FlushAllHides | lib_hustngx/nginx/src/core/ngx_shm_dict.c:144-161 | after `flush_all` no earlier value is visible to get, replace or delete at any later time, whatever else happens, until the key is stored anew |
| ShmRuns.FlushExpiredExact | lib_hustngx/nginx/src/core/ngx_shm_dict.c:164-201 | exactly the first n expired entries from the old end go (all of them when n <= 0), and the survivors keep their order |
| ShmRuns.Replay | lib_hustngx/nginx/src/core/ngx_shm_dict.c:164-201 | any sequence of events on the real structure ends with the contents of the abstract run; only a `flush_expired` of an empty dictionary, which keeps the mutex, cuts it short |
| PeerSpec.ChooseConserves | patch/nginx/src/http/ngx_http_upstream_round_robin.c:589-613 | whoever is eligible, a pick keeps the sum of the current weights of the group |
| PeerSpec.RunKeeps | patch/nginx/src/http/ngx_http_upstream_round_robin.c:540-694 | over every run of picks and releases from rest: current weights sum to 0, effective weights stay in 0..weight, connection counts are the picks outstanding, never above a limit, never negative if releases are paired with picks |
| PeerSpec.PickedWithinLimit | patch/nginx/src/http/ngx_http_upstream_round_robin.c:577-579 | a pick never takes a peer beyond its connection limit |
| PeerSpec.PickExactly | patch/nginx/src/http/ngx_http_upstream_round_robin.c:552-620 | a pick takes the first of the heaviest peers that were not tried, are not reported unhealthy, not down, not within `fail_timeout` of `max_fails` failures and below their limit, and nobody exactly if there is no such peer |
| PeerFails.FailuresCounted | patch/nginx/src/http/ngx_http_upstream_round_robin.c:646-678 | over every run a peer counts no failure that was not reported, and while events follow its failures within `fail_timeout` it counts every one of them |
| PeerFails.FailedOut | patch/nginx/src/http/ngx_http_upstream_round_robin.c:572-577 | over every run a peer that failed `max_fails` times is not picked until `fail_timeout` after its last failure, whatever succeeds on it meanwhile |
| PeerFails.NotKeptOut | patch/nginx/src/http/ngx_http_upstream_round_robin.c:564-587 | before that many failures, or later than that, a peer that is up, healthy, untried and below its limit is passed over only for one at least as heavy |
| PeerFails.Forgiven | patch/nginx/src/http/ngx_http_upstream_round_robin.c:615-678 | a peer picked more than `fail_timeout` after its last failure has no failures left once a request on it succeeds, if none fails in between |
| PeerFails.StepEffective | patch/nginx/src/http/ngx_http_upstream_round_robin.c:589-668 | a failure costs a peer weight/max_fails of its effective weight, down to zero at most, and each pick it takes part in gives one back; nothing else touches it |
| PeerFails.Recovers | patch/nginx/src/http/ngx_http_upstream_round_robin.c:594-596 | over every run without failures the effective weight of a peer is its old one plus the picks it took part in, up to its weight |
| SmoothRoundRobin.Ledger | patch/nginx/src/http/ngx_http_upstream_round_robin.c:589-613 | after k rounds each current weight is k times the peer's weight less total weight times its picks, and the currents stay above minus the total |
| SmoothRoundRobin.NeverAhead | patch/nginx/src/http/ngx_http_upstream_round_robin.c:589-613 | after k rounds no peer has been picked more often than its share of k rounded up |
| SmoothRoundRobin.FullCycle | patch/nginx/src/http/ngx_http_upstream_round_robin.c:589-613 | total-weight picks from rest choose each peer exactly as often as its weight and bring every current weight back to zero |
| SmoothRoundRobin.AnyWindow | patch/nginx/src/http/ngx_http_upstream_round_robin.c:589-613 | the same holds for any window of total-weight consecutive picks |
| PeerSpec.ChooseIsSmooth | patch/nginx/src/http/ngx_http_upstream_round_robin.c:540-620 | with everybody eligible at full weight the code's pick is one round of that scheme, ties included |
| PeerSpec.ExactFairness | patch/nginx/src/http/ngx_http_upstream_round_robin.c:540-694 | in every calm run of picks and releases with total-weight picks each peer is picked exactly `weight` times and all current weights are zero |
| RoundRobin.Scan | patch/nginx/src/http/ngx_http_upstream_round_robin.c:552-600 | the loop over the peer chain raises exactly the eligible peers, adds up their weights, and finds the first of the best |
| RoundRobin.GetPeer | patch/nginx/src/http/ngx_http_upstream_round_robin.c:540-620 | the in-place pick refines the pick on values; the bit it sets is the chosen peer's and was clear |
| RoundRobin.GetRoundRobinPeer | patch/nginx/src/http/ngx_http_upstream_round_robin.c:443-536 | one request is never given the same peer twice across both groups; the backup is asked exactly when the primary has nobody to pick, busy is answered exactly when the last group has nobody either, and what the peers hold is one pick of each group asked; a peer given out is not down, not reported unhealthy, not within its fail window and below its limit, and busy means that every peer of the last group was given before or is one of these |
| RoundRobin.PickedFrom | patch/nginx/src/http/ngx_http_upstream_round_robin.c:564-587 | in terms of the peers themselves: nobody given before, reported unhealthy or out of service is given out, and nobody at all exactly if all of them are |
| RoundRobin.FailOver | patch/nginx/src/http/ngx_http_upstream_round_robin.c:505-515 | the clearing loop covers every word the backup group uses, and stays inside the bitmap |
| RoundRobin.AskUntilBusy | patch/nginx/src/http/ngx_http_upstream_round_robin.c:16-17 | asked until busy, a request gets different peers each time and at most as many as both groups have members |
| RoundRobin.GetSingle | patch/nginx/src/http/ngx_http_upstream_round_robin.c:460-474 | a single peer is taken exactly when it is up and below its limit |
| RoundRobin.FreeRoundRobinPeer | patch/nginx/src/http/ngx_http_upstream_round_robin.c:624-694 | a failed peer loses weight/max_fails, never going below zero; a peer that passed a check since forgets its failures; every release takes one connection off |
| RoundRobinRuns.DeskRuns | patch/nginx/src/http/ngx_http_upstream_round_robin.c:443-694 | however the calls of many requests on one group interleave, its peers go through the run of their picks and releases |
| RoundRobinRuns.TracePaired | patch/nginx/src/http/ngx_http_upstream_round_robin.c:624-694 | in that run every release is paired with a pick, and the picks outstanding at a peer are the requests that hold it |
| RoundRobinRuns.SharedKeeps | patch/nginx/src/http/ngx_http_upstream_round_robin.c:443-694 | for any number of interleaved requests on peers at rest, current weights sum to 0 and each peer's connections are exactly the requests holding it, within its limit |
| RoundRobinRuns.Replay | patch/nginx/src/http/ngx_http_upstream_round_robin.c:443-694 | the peers, bitmaps and pointers in memory end as the interleaving on values says |
| CDict.ComputeHash | lib_hustngx/nginx/src/core/c_dict.c:12-20 | the loop computes the 32-bit hash, sign extension of characters included |
| CDict.HashSnoc | lib_hustngx/nginx/src/core/c_dict.c:12-20 | one more byte multiplies the hash by 33 in 32 bits and mixes the sign-extended byte in; the hash of nothing is 5381 |
| Bits.XorDigits | lib_hustngx/nginx/src/core/c_dict.c:12-20 | exclusive or has a digit exactly where its operands differ |
| CDict.OffsetAligned | lib_hustngx/nginx/src/core/c_dict.c:22-37 | the value lies at the first pointer-aligned offset behind the key's terminator |
| CDict.BucketIsMod | lib_hustngx/nginx/src/core/c_dict.c:39-44 | masking with a power of two less one is the remainder |
| Bits.MaskIsMod | lib_hustngx/nginx/src/core/c_dict.c:39-44 | the masking identity for every word and every power of two |
| CDict.UnlinkChain | lib_hustngx/nginx/src/core/c_dict.c:170-181 | redirecting the reference that points at a node takes exactly that node out of its chain |
| CDict.UnlinkShape | lib_hustngx/nginx/src/core/c_dict.c:170-181 | the same for the whole table: all other chains and the bucket of every node stay right |
| CDict.Dict.GetRef | lib_hustngx/nginx/src/core/c_dict.c:95-112 | a reference is returned exactly for a stored key, and it is the field that points at its node |
| CDict.Dict.Get | lib_hustngx/nginx/src/core/c_dict.c:132-136 | the lookup answers as the map does |
| CDict.Dict.Set | lib_hustngx/nginx/src/core/c_dict.c:138-168 | the table refines the map update; it fails, and then changes nothing, exactly when a new key finds no memory for its node or for doubling |
| CDict.Dict.Remove | lib_hustngx/nginx/src/core/c_dict.c:170-181 | the table refines removal from the map, of absent keys too |
| CDict.Dict.Resize | lib_hustngx/nginx/src/core/c_dict.c:53-93 | every node is in the bucket of its hash afterwards and the map is unchanged, also when the reallocation fails and nodes go back to the old buckets; the bucket count is a power of two or zero |
| CDict.FlatExact | lib_hustngx/nginx/src/core/c_dict.c:183-210 | bucket by bucket, chain by chain, every key occurs exactly once |
| CDict.Dict.Next | lib_hustngx/nginx/src/core/c_dict.c:191-210 | from the wrapped index -1 on, one step yields the next key in that order, or null at the end |
| CDict.Dict.NextBucket | lib_hustngx/nginx/src/core/c_dict.c:198-209 | leaving a chain, the step goes on to the head of the next bucket that has one |
| CDict.Dict.Keys | lib_hustngx/nginx/src/core/c_dict.c:183-210 | iterating an unchanged table yields every key exactly once and then null |
| GenTable.GenKeys | samples/hustdbha/nginx/conf/gen_table.py:25-44 | from two parts on, exactly the requested number of contiguous intervals from 0 to 1024, all non-empty exactly up to 1024 parts, with widths w and w/2 only |
| GenTable.RingOnce | samples/hustdbha/nginx/conf/gen_table.py:60-64 | without repeated hosts each host is once first and once second master, never both of one interval |
| GenTable.RingNext | samples/hustdbha/nginx/conf/gen_table.py:60-64 | interval i has host i first and the first master of the next interval second, the last one that of interval 0; a host listed again has the same pair again |
| HaTable.CheckedChains | samples/hustdbha/nginx/src/addon/hustdb_ha_table_checker.c:142-169 | the item checks chain all intervals from slot 0 on, through the two halves of an increase |
| HaTable.ChainCrosses | samples/hustdbha/nginx/src/addon/hustdb_ha_table_checker.c:142-169 | a chain from 0 to 1024 crosses every slot, even if items in the middle step backwards |
| HaTable.SlotOrigin | samples/hustdbha/nginx/src/addon/hustdb_ha_table_def.c:35-56 | a covered slot holds what the last interval covering it wrote, and that interval's number |
| HaTable.EverySlotServed | samples/hustdbha/nginx/src/addon/hustdb_ha_table_def.c:279-312 | every slot the intervals reach holds the lists of an interval that contains it, the last such one |
| HaTable.ReviewPasses | samples/hustdbha/nginx/src/addon/hustdb_ha_table_checker.c:171-207 | the review can reject nothing but a table whose lone item ends early |
| HaTable.ItemOf | samples/hustdbha/nginx/src/addon/hustdb_ha_table_def.c:166-194 | every interval written comes from one item, and items in front of it wrote all the earlier ones |
| HaTable.MigrationSafe | samples/hustdbha/nginx/src/addon/hustdb_ha_table_def.c:78-164 | in plain, increase and decrease items every interval writes only where it reads, to two hosts, one of them an old master |
| HaTable.HalvesRead | samples/hustdbha/nginx/src/addon/hustdb_ha_table_def.c:78-111 | each half of an increase goes on reading from the old master of its own end, and from the other one exactly when both are the same host |
| HaTable.RemovedHostGone | samples/hustdbha/nginx/src/addon/hustdb_ha_table_def.c:139-164 | a decrease takes the removed host off its interval exactly when the two old masters differ |
| HaBuild.SetTableItem | samples/hustdbha/nginx/src/addon/hustdb_ha_table_def.c:35-56 | exactly the slots of the interval are overwritten |
| HaBuild.BuildTableItem | samples/hustdbha/nginx/src/addon/hustdb_ha_table_def.c:166-194 | an item is expanded exactly when all hosts of its lists are known |
| HaBuild.BuildBucketTable | samples/hustdbha/nginx/src/addon/hustdb_ha_table_def.c:209-244 | one bucket per run of slots with equal bounds; fails exactly when there are more runs than intervals written |
| HaBuild.BucketsExact | samples/hustdbha/nginx/src/addon/hustdb_ha_table_def.c:209-244 | with increasing intervals the buckets are the intervals written, in order |
| HaBuild.CheckDecrease | samples/hustdbha/nginx/src/addon/hustdb_ha_table_checker.c:227-266 | accepts exactly when no host is both removed and a replacement |
| HaBuild.ReplacementStays | samples/hustdbha/nginx/src/addon/hustdb_ha_table_checker.c:227-266 | in an accepted decrease no item brings in a host another item takes out |
| HaBuild.ReviewTable | samples/hustdbha/nginx/src/addon/hustdb_ha_table_checker.c:187-207 | accepts exactly when every slot has a read list and a write list of two |
| HaBuild.BuildTable | samples/hustdbha/nginx/src/addon/hustdb_ha_table_def.c:279-312 | a table is accepted exactly if every item passes its check with known hosts, the decrease and review checks pass, and the runs of slots fit the intervals written; it then leaves the slots and buckets its intervals describe |
| HaBuild.SlotServed | samples/hustdbha/nginx/src/addon/hustdb_ha_table_def.c:279-336 | every slot a checked table reaches is served, in any migration phase, by the last item whose intervals cover it: the slot lies in that item's range, has two hosts to write to, all among those it reads, and one of that very item's old masters among them |
| HaBuild.LoneEarlyItem | samples/hustdbha/nginx/src/addon/hustdb_ha_table_checker.c:129-207 | a lone item that ends early is accepted exactly if every slot behind it already passes the review and records the bounds of the interval the item writes last |
| HaBuild.ServedUnlessLone | samples/hustdbha/nginx/src/addon/hustdb_ha_table_def.c:279-336 | acceptance serves every slot, except that a lone item that ends early leaves exactly the slots behind it as they were |
| HaBuild.FreshServed | samples/hustdbha/nginx/src/addon/hustdb_ha_table_def.c:279-336 | a table accepted over initially empty slots reaches the end of the key space and serves every slot |
| HaBuild.EndsUnchecked | samples/hustdbha/nginx/src/addon/hustdb_ha_table_checker.c:142-169 | a concrete table passes all checks although a middle item ends far beyond the slots |
| HaBuild.GenerateAndBuild | samples/hustdbha/nginx/conf/gen_table.py:46-66 | generating a table for 2 to 1024 known hosts and handing it to the builder succeeds, with one bucket per host: the generated intervals in order, each with its two hosts |
| HaBuild.GeneratedAccepted | samples/hustdbha/nginx/conf/gen_table.py:46-66 | a generated table for 2 to 1024 known hosts meets every condition of acceptance whatever the slots held before, and its buckets are the generated intervals in order |
| HaMigrate.IncreaseAccepted | samples/hustdbha/nginx/src/addon/hustdb_ha_table_checker.c:8-123 | a generated table is accepted with increases exactly if each of them cuts its interval in two, keeps the old masters at their own ends, and gives each half a known guest that is neither of them |
| HaMigrate.DecreaseAccepted | samples/hustdbha/nginx/src/addon/hustdb_ha_table_checker.c:89-266 | a generated table is accepted with decreases exactly if each of them replaces a master of its interval by a known host and no host that goes is brought in anywhere |
| HaMigrate.IncreaseServes | samples/hustdbha/nginx/src/addon/hustdb_ha_table_def.c:58-111 | the slots of a growing interval: the lower half reads and writes its old master and its guest, the upper half writes its guest and its old master and reads these and the other guest; other intervals keep their masters |
| HaMigrate.DecreaseServes | samples/hustdbha/nginx/src/addon/hustdb_ha_table_def.c:113-164 | the slots of a shrinking interval read and write the master that stays and the replacement |
| HaWrite.WriteContext.constructor | samples/hustdbha/nginx/src/addon/hustdb_ha_write_args.c:32-60 | the protocol starts at the first master alive, with the first counted as failed if it is down |
| HaWrite.WriteContext.UpdateError | samples/hustdbha/nginx/src/addon/hustdb_ha_write_handler.c:129-197 | the counters and both peer pointers keep telling what became of the write at each master |
| HaWrite.WriteContext.PostWriteData | samples/hustdbha/nginx/src/addon/hustdb_ha_write_handler.c:206-221 | what is done once both masters are settled depends on their verdicts alone |
| HaWrite.WriteContext.WriteBinlog | samples/hustdbha/nginx/src/addon/hustdb_ha_write_binlog.c:233-250 | reached only with both peer pointers set, to different masters: one that took the write and one that did not |
| HaWrite.WriteContext.WriteSyncData | samples/hustdbha/nginx/src/addon/hustdb_ha_write_binlog.c:104-151 | a record naming the missed master is logged exactly when it can be encoded and written, even if the reply then is an error |
| HaWrite.WriteContext.OnMaster1Complete | samples/hustdbha/nginx/src/addon/hustdb_ha_write_handler.c:223-248 | the second master is asked exactly when it is up; otherwise it counts as failed and the write is decided |
| HaWrite.WriteContext.OnBinlogComplete | samples/hustdbha/nginx/src/addon/hustdb_ha_write_handler.c:260-275 | a refused binlog request falls back to the local log |
| HaWrite.WriteContext.SwitchState | samples/hustdbha/nginx/src/addon/hustdb_ha_write_handler.c:277-296 | each state hands a completed subrequest to its own handler, and the next subrequest is the one the new state waits for |
| HaWrite.WriteContext.OnSubrequestComplete | samples/hustdbha/nginx/src/addon/hustdb_ha_handler_base.c:33-68 | only successful answers touch the version |
| HaWrite.NewestIsLargest | samples/hustdbha/nginx/src/addon/hustdb_ha_handler_base.c:33-68 | the version kept is the largest any successful answer reported |
| HaWrite.Serve | samples/hustdbha/nginx/src/addon/hustdb_ha_write_handler.c:298-313 | every run of the handlers, for any liveness, statuses and failures, comes to an end and is the run of the one-formula description |
| HaWrite.AtMostThree | samples/hustdbha/nginx/src/addon/hustdb_ha_write_handler.c:183-296 | at most three subrequests: masters in order, each at most once, then at most one binlog request, sent to a master that took the write for one that did not; log records name only such a missed master |
| HaWrite.AcknowledgedExactly | samples/hustdbha/nginx/src/addon/hustdb_ha_write_handler.c:183-296 | a 200 reply is given exactly when both masters took the write, or one did and a record naming the other was stored and announced, and it carries the newest version |
| HaWrite.CountsTell | samples/hustdbha/nginx/src/addon/hustdb_ha_write_handler.c:206-221 | once both masters are settled successes, skips and failures add up to two, and the two tests on the counters single out the cases they stand for |
| HaWrite.TableDeviation | samples/hustdbha/nginx/src/addon/hustdb_ha_write_handler.c:199-221 | as long as nothing but masters fails, a run of the handlers replies 200 exactly when the documented decision table says so, except for exactly one case, one skipped answer beside a success, which it reports as not found |
| HaWrite.DeleteAnsweredNotFound | samples/hustdbha/nginx/src/addon/hustdb_ha_write_handler.c:142-221 | that case on real input: a delete answered 200 by one master and 404 by the other ends in a 404 |
| HaWrite.AnswersDecide | samples/hustdbha/nginx/src/addon/hustdb_ha_write_handler.c:142-221 | with both masters up and nothing else failing the two answers decide: beside a 200, a 404 to a removing method or a 412 to a method from code 2 to 8 makes the reply 404 without a third subrequest; any other answer leads to a record naming the master that gave it and the reply 200; without any 200 the reply is 404 |
| HaWrite.OneDown | samples/hustdbha/nginx/src/addon/hustdb_ha_write_handler.c:206-250 | with one master down the other is asked alone; if it takes the write a record naming the one that is down is stored and the reply is 200, otherwise it is 404 |
| HaWrite.NeverAsksDown | samples/hustdbha/nginx/src/addon/hustdb_ha_write_handler.c:223-248 | in every run no subrequest goes to a master reported down at that moment |
| HaBinlog.EncodeHead | samples/hustdbha/nginx/src/addon/hustdb_ha_write_binlog.c:29-95 | the head is the concatenation of its fields, as long as the length field says, and the buffer has room for a NUL behind it |
| HaBinlog.RoundTrip | samples/hustdbha/nginx/src/addon/hustdb_ha_write_binlog.c:29-95 | a head in front of any body decodes to its fields, checksums verified, and to exactly that body |
| HaBinlog.Body.InsertHead | lib_hustngx/nginx/src/http/modules/ngx_http_utils_module.c:559-583 | the chain starts with the head and the announced length stays right |
| HaBinlog.Body.Get | lib_hustngx/nginx/src/http/modules/ngx_http_utils_module.c:460-501 | the chain is copied whole and in order into one buffer |
| HaBinlog.SyncRecord | samples/hustdbha/nginx/src/addon/hustdb_ha_write_binlog.c:104-137 | the bytes handed to the log decode to the write's fields and the request body |
| HaRead.Read.GetNextPeer | lib_hustngx/nginx/src/http/modules/ngx_http_utils_module.c:787-804 | the walk stops at the next node that is alive, or past the end |
| HaRead.Read.GetFirstPeer | lib_hustngx/nginx/src/http/modules/ngx_http_utils_module.c:806-817 | the walk from the head of the list |
| HaRead.Read.Handle | samples/hustdbha/nginx/src/addon/hustdb_ha_read_handler.c:153-160 | success is passed on, anything else moves to the next node alive |
| HaRead.Serve | samples/hustdbha/nginx/src/addon/hustdb_ha_read_handler.c:55-161 | every node is asked at most once in list order, only nodes down at their turn are passed over, the first success is the reply, nothing is found only after the whole list, and a GET that finds no node alive to ask ends in an error |
| HaRead.TrailPassed | lib_hustngx/nginx/src/http/modules/ngx_http_utils_module.c:787-817 | a node the read has gone past was asked or was down at a turn |
| HaRead.KeeperFound | samples/hustdbha/nginx/src/addon/hustdb_ha_read_handler.c:133-161 | one node of the list that stays up and answers the key is enough for a read to find a value |
| HaRead.WriteThenRead | samples/hustdbha/nginx/src/addon/hustdb_ha_table_vars.c:22-39 | under one table accepted over empty slots, a run of the write protocol and a walk of the read list of the key's slot: after an acknowledged write some master of the slot took it, and if one that did stays up and answers the key, the read finds a value |
| HaRead.SwitchThenRead | samples/hustdbha/nginx/src/addon/hustdb_ha_table_def.c:78-111 | a value acknowledged under the plain table and not yet copied is found under the increase table exactly when the master that stays with its half took it, or both masters are one host |
| MqQueues.MoveKeeps | samples/hustmqha/nginx/src/addon/hustmq_ha_do_get_handler.c:70-75 | moving a record to the head of a queue, wherever it was, keeps every record in exactly one queue |
| MqQueues.PartitionIn | samples/hustmqha/nginx/src/addon/hustmq_ha_do_get_handler.c:79-81 | a record is in one of the three queues and in no two of them |
| MqQueues.AllocKeeps | samples/hustmqha/nginx/src/addon/hustmq_ha_do_get_handler.c:54-68 | so does making the head of one queue the head of another |
| MqSpec.TokensDiffer | samples/hustmqha/nginx/src/addon/hustmq_ha_do_get_handler.c:12-52 | no two records of a pool share a token |
| MqRuns.RunKeeps | samples/hustmqha/nginx/src/addon/hustmq_ha_do_get_handler.c:54-199 | in every reachable state the pools are partitioned, requests balance, no task is handed out twice, a timer runs exactly for a record in use, and tokens lead to their records |
| MqRuns.PoolsPartitioned | samples/hustmqha/nginx/src/addon/hustmq_ha_do_get_handler.c:54-199 | in every reachable state each task record is in exactly one of three queues and each worker record in exactly one of two |
| MqRuns.AnsweredOrWaiting | samples/hustmqha/nginx/src/addon/hustmq_ha_do_get_handler.c:54-199 | over every run without task timeouts each request that arrived was answered exactly once or waits in exactly one record, and nobody else was answered |
| MqRuns.StaleNeedsTimeout | samples/hustmqha/nginx/src/addon/hustmq_ha_do_get_handler.c:83-98 | answers to requests answered before need a task timeout |
| MqRuns.HandedApart | samples/hustmqha/nginx/src/addon/hustmq_ha_do_get_handler.c:106-120 | over every run no task is handed to two workers |
| MqRuns.BalanceStep | samples/hustmqha/nginx/src/addon/hustmq_ha_do_get_handler.c:149-199 | exactly one kind of event leaves a task waiting beside a worker: a task arrives while a worker waits, and the reply to it cannot be built |
| MqRuns.AlwaysBalanced | samples/hustmqha/nginx/src/addon/hustmq_ha_do_get_handler.c:149-199 | over every run in which replies to waiting workers can be built no task waits beside a worker |
| MqRuns.WaitingReachable | samples/hustmqha/nginx/src/addon/hustmq_ha_do_get_handler.c:77-199 | over every run in which the dictionary has room, the token of every waiting task is stored and leads to the record that holds it |
| MqRuns.TokenLeads | samples/hustmqha/nginx/src/addon/hustmq_ha_do_get_handler.c:122-133 | in every reachable state a stored token leads to the record it belongs to |
| MqRuns.RightRequest | samples/hustmqha/nginx/src/addon/hustmq_ha_do_get_handler.c:122-147 | over every run a stored token leads the result to the request whose task was handed out under it exactly if no `do_get` has taken that record since the hand-over |
| MqRuns.LateResult | samples/hustmqha/nginx/src/addon/hustmq_ha_do_get_handler.c:83-98 | a concrete run in which the result of a task that timed out reaches the request that took over its record |
| MqRuns.SecondResult | samples/hustmqha/nginx/src/addon/hustmq_ha_do_get_handler.c:122-147 | a concrete run without timeouts in which a second result under an old token reaches the request that took over the record |
| MqAnswers.TurnedAwayExactly | samples/hustmqha/nginx/src/addon/hustmq_ha_do_post_handler.c:125-179 | over every run a worker is turned away exactly if no task is unassigned and all worker records are in use, or its hand-over fails; a task exactly if it is unfit or all task records are in use; a result exactly if it is unfit or its token is not stored |
| MqAnswers.WorkerWaits | samples/hustmqha/nginx/src/addon/hustmq_ha_do_post_handler.c:135-147 | any other worker that finds no task gets no reply and waits in one record, as the newest |
| MqAnswers.TaskWaits | samples/hustmqha/nginx/src/addon/hustmq_ha_do_get_handler.c:149-199 | any other task waits in one record, handed over at once exactly if a worker waits and the reply to it can be built, and as the newest unassigned one otherwise |
| MqAnswers.TimeoutTells | samples/hustmqha/nginx/src/addon/hustmq_ha_do_get_handler.c:83-98 | a timer that runs out, of a task or of a worker, tells the request in its record, ends its wait and nobody else's, and frees the record |
| MqAnswers.NextTaskHanded | samples/hustmqha/nginx/src/addon/hustmq_ha_do_post_handler.c:88-106 | over every run the next fit task goes to the worker that began to wait last, whatever results and timeouts of others come in between, under a token that leads to its record if it could be stored |
| MqAnswers.NextWorkerServed | samples/hustmqha/nginx/src/addon/hustmq_ha_do_get_handler.c:106-120 | over every run the next worker gets the newest unassigned task, whatever happens to other records in between, and the task goes on waiting for its result |
| MqRendezvous.Rendezvous.constructor | samples/hustmqha/nginx/src/addon/hustmq_ha_do_get_handler.c:100-104 | all records free, nothing stored, nobody waiting |
| MqRendezvous.Rendezvous.AllocTask | samples/hustmqha/nginx/src/addon/hustmq_ha_do_get_handler.c:54-68 | the head of the free queue becomes the newest unassigned task, if there is one |
| MqRendezvous.Rendezvous.Get | samples/hustmqha/nginx/src/addon/hustmq_ha_do_get_handler.c:149-199 | allocation, storing, dispatch and timer together do what the value-level `do_get` says, and keep the pools partitioned |
| MqRendezvous.Rendezvous.DispatchDoTask | samples/hustmqha/nginx/src/addon/hustmq_ha_do_post_handler.c:88-106 | the worker that began to wait last gets the task and is freed, or keeps waiting if its reply cannot be built |
| MqRendezvous.Rendezvous.AssignDoTask | samples/hustmqha/nginx/src/addon/hustmq_ha_do_get_handler.c:106-120 | the newest unassigned task becomes claimed, if there is one |
| MqRendezvous.Rendezvous.Claim | samples/hustmqha/nginx/src/addon/hustmq_ha_do_post_handler.c:125-150 | a worker gets the newest unassigned task, or waits if there is none and a record is free, or is told so |
| MqRendezvous.Rendezvous.ReplyDoTask | samples/hustmqha/nginx/src/addon/hustmq_ha_do_get_handler.c:122-147 | the request last held by the token's record is answered, the record freed wherever it was, and the token dropped |
| MqRendezvous.Rendezvous.ReplyTask | samples/hustmqha/nginx/src/addon/hustmq_ha_do_post_handler.c:152-179 | the whole state after a result is brought, the refusals included |
| MqRendezvous.Rendezvous.OnTaskTimeout | samples/hustmqha/nginx/src/addon/hustmq_ha_do_get_handler.c:83-98 | the request is told and its record freed; its token stays stored |
| MqRendezvous.Rendezvous.OnWorkerTimeout | samples/hustmqha/nginx/src/addon/hustmq_ha_do_post_handler.c:108-123 | the worker is told and its record freed |
| MqRendezvous.Simulate | samples/hustmqha/nginx/src/addon/hustmq_ha_do_post_handler.c:181-190 | any sequence of events on the handlers ends in the state of the run on values |

## Left out

- Recency queue of the dictionary and queues of the rendezvous: sequences of nodes or record indices instead of linked `ngx_queue_t` fields; the relinking of neighbours is not captured.
- Child pointers of the search tree, `next` pointers and values of `c_dict`: kept in maps from nodes rather than in fields of the nodes; peers of a group are a sequence rather than a chain.
- nginx's tree rotations, slab pages, event loop, `ngx_crc32_short`, log writing and header lists: parameters or arbitrary choices as described above.
- Dictionary clock: stays below 2^63 less 2^32 milliseconds, so that deadlines do not wrap.
- Value lengths above 32 bits and `int` counters above 2^31 in the dictionary and in `c_dict`: sizes are unbounded here.
- ShmDict.ShmDict.GetKeys: takes the dictionary as unchanged between its two traversals, although the mutex is free then.
- Processes racing on a value after the mutex is released, and the atomic additions of `ngx_shm_dict_code.c`.
- The typed wrappers of the dictionary, which repeat get and set for each type.
- Parsing of upstream configuration and chain building in `init_round_robin`: the groups are given; a group with a backup is never of the single-peer kind.
- Number of connections as an unsigned machine word: an unpaired release makes the modelled count negative where the code wraps.
- RoundRobinRuns.Replay: groups of several peers without backup; failover and the single peer are treated call by call.
- The recursion of `get_round_robin_peer` into the backup group: unrolled, since a backup group has no backup.
- SSL sessions, the copy of the round robin file under `samples/hustlog`, and keepalive fetch connections, which can skip the release of a peer.
- Bucket counts beyond 2^31 and iterators that wrap after 2^32 buckets in `c_dict`.
- HaBuild.BuildTable: takes tables whose items are all present, as `hustdb_ha_precheck_table` sees to, and asks the items the checks let it reach to stay within 0..1024, since the code would write outside its slots otherwise. The slots may hold anything at first, as the checking table of `hustdb_ha_table_setter.c:67` does.
- HaBuild.CheckDecrease: the two dictionaries are sets, and their allocation does not fail.
- JSON parsing of tables, file handling, and the RPC that exchanges them.
- Building of peer lists (`ngx_http_append_peer`): lists of host names, whose allocation does not fail.
- HaWrite.Serve: starts from parsed arguments; the start path with the key in the body, which can send two responses, is not part of this model.
- HaBinlog.EncodeHead: takes heads shorter than 2^32 bytes, so that the 32-bit length does not wrap; the deadline and the parsed version are given.
- The argument string of the binlog subrequest (`__format_binlog_args`).
- Rereading: values and versions the masters hold are not modelled beyond whether a node answers the key.
- Parts of a request body that nginx spooled to a file: read like those in memory.
- MqRendezvous.Rendezvous.ReplyDoTask: an answer for a free record is recorded as a second answer to the request it last held; what sending to an ended request does is outside the model.
- The dictionary of tokens is a map, as `CDict` proves of the table behind it, and tokens are numbers rather than their decimal digits.
- `hustmq_ha_get_idx_cycle`, statistics, status pages, and the other record pools built on the same free and cached lists.
- Code generators, deployment scripts, module configuration, zlog and RSA: no behaviour of depth to state.
