# RuleBaseProxy in Dafny

RuleBaseProxy is a rule-based network tunnel written in Go. This project models the parts of it that
carry state or protocol logic and proves, for all inputs and all runs, what they promise.

| part | files | main results |
|---|---|---|
| LRU cache | `Lru`, `LruAges`, `LruCache` | every key put in is held or was evicted once; without ages the cache is exactly the most recently touched keys; with ages a Get gives out exactly what was last set and has not expired, if there was room for it |
| fake-IP pool | `FakeIp`, `FakeIpRuns`, `FakeIpPool` | host and address directions agree in all runs if and only if the size is in a stated range; exact retention; addresses in range |
| proxy-group sort | `Peeling`, `Groups`, `GroupSort` | sorted if and only if acyclic, members first; the loop report is exactly the nodes between cycles; in which order the groups are listed does not matter to parsing them |
| domain trie | `Trie`, `TrieRuns`, `TrieForms`, `DomainTrie` | search is the first match of a flat pattern list; soundness, completeness and its exact limit; what each form of pattern finds, by its text |
| rule matching | `RuleMatch` | first admissible rule with lazy resolution; the result cache agrees with it if and only if a condition on the rules' guards holds |
| VMess streams | `Vmess`, `VmessConn`, `Wire` | a faithful byte stream in every run, nonce counters included |
| SOCKS5 | `Socks5`, `Socks5Wire`, `Socks5Handshake`, `Socks5Conn`, `Wire` | packet round trip both ways; the two handshakes run against each other under any fragmentation |
| Trojan packets | `Trojan`, `TrojanConn`, `Wire` | every byte arrives in order with the address it was sent to |
| call coalescing | `SingleDo` | safety over all interleavings, and when a shared value and error come from different runs |
| hashing | `Murmur3`, `LoadBalance`, `Sidestep` | streaming equals one-shot; jump hash moves keys to new buckets only; when a choice is stable under growth; round robin starves nobody |
| relay | `Relay`, `RelayLanes` | draining and unwrapping lose, repeat and reorder nothing; each side gets a prefix of the other's stream in every interleaving, and exactly when it gets all |

Where the source updates things in place the model does too: classes with `modifies` clauses, loops
and arrays, each method tied to a function on values; the whole-run theorems are about those
functions. Map iteration orders, short reads, resolver answers, clock readings and what a cache
forgets are arbitrary, so the theorems hold for every choice. `Bytes` holds the shared notion of a
connection that hands out its bytes in pieces of any size, `Collections` what is shared about sequences.

Some properties turned out not to hold unconditionally. Each has its exact condition:

- The fake-IP directions agree in every run, and every lookup can be undone, if and only if
  `1 <= size < M` or `size == M == 1`, where `M = 2^h - 3` is the number of slots of a net with `h`
  host bits (`FakeIpRuns.BijectionIff`). Slot 0 is the address stored as the gateway, and for every net
  and every size there is a run that hands it out (`FakeIpRuns.GatewayHandedOut`).
- A full-length inner trie node without data hides wildcards that match (`TrieRuns.InnerNodeHides`);
  a search succeeds if and only if the first matching node was inserted itself
  (`TrieRuns.SearchSucceedsIff`).
- The rule cache's key leaves out the source port, so a source-port rule can be answered for the
  wrong port (`RuleMatch.PortRuleIsUnsafe`); the exact condition on the rules is `RuleMatch.Safe`, and
  for lists of port-blind and single-port rules the one of `RuleMatch.PortRulesIff`.
- A cache hit leaves the metadata as it came, without the address that `match` may have resolved
  (`RuleMatch.SecondIsUnresolved`). The two leave the same in all runs if and only if whatever the cache
  answers for needs no address by the rule that decides (`RuleMatch.MetadataAgreesIff`).
- `singledo` reads the shared value and error outside the lock; they can be of different runs if and
  only if `wait` is positive (`SingleDo.NeverTornIff`), and are if and only if a run was published
  between the two reads (`SingleDo.TornIffPublished`).
- Consistent hashing can move a destination between two old, living proxies when a dead one is added
  (`Sidestep.DestinationSidesteps`); it does exactly under the condition of `LoadBalance.ChosenGrowsIff`.
- A relay does not deliver both streams whole: the end of one closes both connections and cuts off what
  is left of the other, also when no connection fails of itself (`RelayLanes.HalfCloseCuts`).
  `RelayLanes.BothArriveIff` says when a run
  delivers both, and `RelayLanes.AlwaysWholeIff` when every run does.
- `WritePacket` returns the length of a payload if and only if it had to cut it
  (`Trojan.CountIsPayloadIff`).

`dafny verify dfyconfig.toml` checks the project.

## Model

| member | source | states |
|---|---|---|
| Lru.PruneSplits | common/cache/lrucache.go:207-214 | the clean-up removes a prefix of the list, all of it expired, stops before the first live entry, and does nothing without ages |
| Lru.StepKeeps | common/cache/lrucache.go:126-223 | every operation keeps the keys distinct and the size bounded, and accounts for each key that comes or goes |
| Lru.RunConservesKeys | common/cache/lrucache.go:126-223 | after any run: distinct keys, size within a positive maximum, and as a multiset the keys inserted are those held plus those evicted |
| Lru.GetIsFresh | common/cache/lrucache.go:172-194 | a hit has the key and a value stored for it, not expired when ages are on and stale returns off; after a miss the key is not held |
| Lru.GetIff | common/cache/lrucache.go:172-194 | a Get hits exactly if the key has an entry and, with ages on and stale returns off, its expiry date is still to come; the hit is that entry, its date renewed if and only if the options say so |
| Lru.KeepsMostRecent | common/cache/lrucache.go:126-194 | without ages and deletes a key is held if and only if it was touched and fewer than maxSize other keys were touched since; Get hits exactly those |
| LruAges.GetFindsStored | common/cache/lrucache.go:116-223 | after any run, with any options: as long as fewer than maxSize other keys were touched since, a Get gives out the value last set for the key, unless it was deleted or its date had come at some reading of the clock |
| LruAges.GetGivesStored | common/cache/lrucache.go:116-223 | with a clock that does not go back a Get gives out exactly that, and without room that or nothing |
| LruAges.ListAgrees | common/cache/lrucache.go:116-223 | whatever the list holds of a key is what was last set, with its current date |
| LruAges.OneSecondLater | rule/process.go:14-14 | with the options of the process cache a value is found after one second and gone after two |
| LruCache.CallsAre | common/cache/lrucache.go:216-223 | the callback gets every removed entry once and in order if it is on, and nothing if not |
| LruCache.LruCache.constructor | common/cache/lrucache.go:68-79 | an empty cache with map and list in agreement |
| LruCache.LruCache.Get | common/cache/lrucache.go:83-91 | performs the abstract get on the linked structure and keeps map and list in agreement |
| LruCache.LruCache.Exist | common/cache/lrucache.go:107-113 | true exactly for a held key, and changes nothing |
| LruCache.LruCache.Set | common/cache/lrucache.go:116-122 | the abstract set with the expiry derived from the age; evictions reach the callback in order |
| LruCache.LruCache.SetWithExpire | common/cache/lrucache.go:126-147 | the abstract set: overwrite and move back, or append and evict the front, then clean up; each removed entry is given to the callback once |
| LruCache.LruCache.CloneTo | common/cache/lrucache.go:150-164 | right after the call the target's contents and order are the source's, whatever the target's maximum |
| LruCache.LruCache.SetOnEvict | common/cache/lrucache.go:166-170 | switches the callback on and changes nothing else |
| LruCache.LruCache.GetElement | common/cache/lrucache.go:172-194 | the abstract get: expired entries are deleted, a hit moves to the back and is refreshed when configured |
| LruCache.LruCache.Delete | common/cache/lrucache.go:197-205 | the abstract delete, with its callback |
| LruCache.LruCache.MaybeDeleteOldest | common/cache/lrucache.go:207-214 | the in-place loop removes exactly the prefix that the abstract clean-up removes, each with its callback |
| LruCache.LruCache.DeleteElement | common/cache/lrucache.go:216-223 | one element leaves list and map together and is given to the callback |
| FakeIp.IpOfUint | component/fakeip/pool.go:121-131 | number to address to number is the identity on 32 bits |
| FakeIp.UintOfIp | component/fakeip/pool.go:121-131 | address to number to address is the identity |
| FakeIp.SlotOfAddress | component/fakeip/pool.go:52-53 | the offset formula undoes the address formula modulo 2^32 |
| FakeIp.AddressOfSlot | component/fakeip/pool.go:116-116 | the address formula undoes the offset formula |
| FakeIp.NewShape | component/fakeip/pool.go:134-153 | New fails exactly on /31 and /32; otherwise no bound overflows and there are 2^h - 3 slots |
| FakeIp.SixteenBytes | component/fakeip/pool.go:44-87 | an address in its 16-byte form is looked back and exists as in its four-byte form |
| FakeIp.NoAddress | component/fakeip/pool.go:44-87 | anything of another length or prefix is not found, does not exist and changes nothing |
| FakeIp.ExistIff | component/fakeip/pool.go:75-87 | an address exists exactly if it leads back to a host |
| FakeIpRuns.OverwritesLast | component/fakeip/pool.go:103-119 | the allocator ends on a taken offset only if every offset is taken |
| FakeIpRuns.FreeSlot | component/fakeip/pool.go:103-119 | with fewer bindings than slots the allocator finds a free offset |
| FakeIpRuns.LookupMiss | component/fakeip/pool.go:25-41 | a new host gets both entries, next to each other, and a full cache loses the two entries of its oldest host together |
| FakeIpRuns.LookBackMiss | component/fakeip/pool.go:44-64 | an address that is not bound is not found and changes nothing |
| FakeIpRuns.StepSimulates | component/fakeip/pool.go:25-86 | every operation on the two-entry cache is one use of a list of host-slot bindings, or changes nothing |
| FakeIpRuns.PairedIsBijective | component/fakeip/pool.go:25-64 | adjacent pairs make the two directions inverse to each other |
| FakeIpRuns.BijectionIff | component/fakeip/pool.go:25-153 | in all runs the two directions agree, and in all runs every lookup is undone by a look-back with either form of the address, if and only if 1 <= size < M or size == M == 1 |
| FakeIpRuns.RegimeNeeded | component/fakeip/pool.go:103-119 | for every other size there is a run after which both fail |
| FakeIpRuns.NoSharedAddress | component/fakeip/pool.go:25-64 | two cached hosts with the same address are the same host |
| FakeIpRuns.RetentionIff | component/fakeip/pool.go:25-64 | a host keeps its address exactly as long as fewer than `size` other hosts were used since its last use, and is gone after that |
| FakeIpRuns.AddressInRange | component/fakeip/pool.go:103-153 | every address handed out in any run lies in [base + 1, base + 2^h - 3], for any size |
| FakeIpRuns.GatewayHandedOut | component/fakeip/pool.go:103-153 | for every net and every size there are a run and a host that gets the address after the base, which is stored as the gateway |
| FakeIpRuns.FirstAddress | component/fakeip/pool.go:103-119 | the first host of a new pool with more than one slot gets the address after the gateway |
| FakeIpPool.NewPool | component/fakeip/pool.go:134-153 | no pool exactly for fewer than two host bits, otherwise the initial state, with the gateway at base + 1 |
| FakeIpPool.Pool.Lookup | component/fakeip/pool.go:25-41 | the object performs the abstract lookup |
| FakeIpPool.Pool.LookBack | component/fakeip/pool.go:44-64 | the object performs the abstract look-back |
| FakeIpPool.Pool.Exist | component/fakeip/pool.go:75-86 | true exactly for an IPv4 address whose offset is bound |
| FakeIpPool.Pool.Search | component/fakeip/pool.go:103-115 | the loop ends within max - min turns on the offset that the probe sequence names |
| FakeIpPool.Pool.Allocate | component/fakeip/pool.go:103-119 | a new binding at the searched offset, and its address |
| Peeling.Round | config/utils.go:73-94 | one round of peeling keeps the degrees, the queue and the removal order right, and never touches a missing node |
| Peeling.PeeledOut | config/utils.go:73-99 | when the queue is empty the nodes left are exactly those that some cycle reaches |
| Groups.DepsAre | config/utils.go:37-62 | the dependency graph is what the groups list, and is closed |
| Groups.NoFaultIff | config/utils.go:37-53 | no error exactly if all groups decode and their names are distinct |
| Groups.FaultIff | config/utils.go:37-53 | the error is a given one if and only if some group causes it and those before are in order: it does not decode, or an earlier one has its name |
| Groups.AllEmitted | config/utils.go:73-99 | if every node is removed in order, the groups written are a permutation of the input with members before the groups listing them |
| Groups.NamesPermute | config/utils.go:73-99 | a permutation of groups that can be decoded and have distinct names is such a list too, with the same names |
| GroupSort.BuildGraph | config/utils.go:37-62 | the graph with its multiplicities as in-degrees, or the first decoding or duplicate-name error |
| GroupSort.TopologicalSort | config/utils.go:63-94 | for any map order: peels the graph to the end and writes the removed groups in front of those already written, at the end of the slice |
| GroupSort.LinkAll | config/utils.go:102-120 | out-degrees and reverse lists of the nodes left, with multiplicities |
| GroupSort.PeelBackwards | config/utils.go:121-140 | what is left are the nodes from which, against the edges, a cycle is reached |
| GroupSort.CollectNames | config/utils.go:141-147 | exactly the names left, each once |
| GroupSort.TurnRound | config/utils.go:101-140 | among the nodes left, a cycle reached against the edges is a cycle reached along them |
| GroupSort.ProxyGroupsDagSort | config/utils.go:21-148 | sorted if and only if acyclic, then a members-first permutation in place; otherwise the report is non-empty, distinct, and exactly the nodes that some cycle reaches and that reach some cycle |
| GroupSort.ReportsEveryCycle | config/utils.go:101-147 | every node of every closed walk is in the report |
| GroupSort.FindMembers | adapter/outboundgroup/parser.go:130-140 | all members are known, or the first unknown one is named |
| GroupSort.ParseGroups | config/config.go:354-367 | on a members-first list, apart from groups that fail on their own account, a group fails only for a name that is neither a proxy nor any group of the list, or for a name already taken; success exactly if every group fits; a failure is that of the first group that does not, for the first of its reasons |
| GroupSort.LoadGroups | config/config.go:329-367 | sort and parse together, for the groups in any order: unsorted exactly for a faulty or cyclic list, and otherwise the outcome of parsing in terms of the list as it was given |
| Trie.JoinSplit | component/trie/domain.go:26-47 | splitting is inverse to joining, and labels have no dot |
| Trie.ValidAndSplitDomain | component/trie/domain.go:26-47 | the labels, or nothing exactly for an empty label after the first, a lone empty label or a trailing dot |
| Trie.SeekFirst | component/trie/domain.go:108-126 | the backtracking search arrives at the first matching node in the order literal, `*`, dot wildcard, level by level |
| TrieRuns.BuildIs | component/trie/domain.go:56-86 | after any insertions the nodes are the prefixes of the expanded patterns and hold what was inserted there last |
| TrieRuns.SearchIsFirstMatch | component/trie/domain.go:56-126 | the answer is the data of the first matching node of the flat pattern list, and nothing if it has none or none matches |
| TrieRuns.SearchIsSound | component/trie/domain.go:93-126 | what is found is the last data inserted under a matching pattern |
| TrieRuns.LiteralDecides | component/trie/domain.go:93-126 | a node for the domain itself decides, even an inner one |
| TrieRuns.LiteralIsFound | component/trie/domain.go:56-126 | a domain inserted literally is found whatever else is inserted |
| TrieRuns.DotNodeInserted | component/trie/domain.go:56-86 | a dot-wildcard node is never a mere inner node |
| TrieRuns.SearchIsComplete | component/trie/domain.go:73-126 | if every full-length matching node was inserted, a matching pattern is enough |
| TrieRuns.SearchSucceedsIff | component/trie/domain.go:93-126 | a search succeeds if and only if the first matching node was inserted |
| TrieRuns.InnerNodeHides | component/trie/domain.go:93-126 | after "*" and "a.b" a search for "b" finds nothing though "*" matches |
| TrieForms.LabelsIff | component/trie/domain.go:26-47 | a pattern is valid exactly if it is not empty, does not end with a dot and has no two dots in a row; its labels are what lies between the dots |
| TrieForms.QueryIff | component/trie/domain.go:93-96 | a domain can be searched for exactly if it does not start with a dot either |
| TrieForms.FormPaths | component/trie/domain.go:49-71 | the paths of "+.rest", ".rest" and "*.rest" for every domain rest |
| TrieForms.PlusFinds | component/trie/domain.go:49-126 | "+.rest" alone finds rest and everything below it |
| TrieForms.FormsFind | component/trie/domain.go:49-126 | for rest without wildcards: "+.rest" finds exactly rest and what is below it, ".rest" what is below it, "*.rest" what is one label below it, rest itself only rest |
| DomainTrie.Node.constructor | component/trie/node.go:21-26 | a node with its data and no children |
| DomainTrie.DomainTrie.GetChild | component/trie/node.go:9-15 | a label has a child exactly if the table has the path one label longer, and the child is the node at that path |
| DomainTrie.DomainTrie.constructor | component/trie/domain.go:129-131 | a tree with only its root |
| DomainTrie.DomainTrie.AddChild | component/trie/node.go:17-19 | a new empty node under a label keeps the nodes a tree |
| DomainTrie.DomainTrie.InsertParts | component/trie/domain.go:73-86 | the walk adds the missing nodes only and sets the data at the end |
| DomainTrie.DomainTrie.Insert | component/trie/domain.go:56-71 | the object performs the abstract insertion, both paths of a "+" pattern included, and reports invalid domains |
| DomainTrie.DomainTrie.SearchFrom | component/trie/domain.go:108-126 | the recursive search of the nodes arrives where the abstract search does |
| DomainTrie.DomainTrie.Search | component/trie/domain.go:93-106 | the node found is the one whose data the abstract search returns |
| RuleMatch.Match | tunnel/tunnel.go:415-462 | the first admissible rule; the address is resolved only if a resolving rule was reached, by at most one resolver call; a rule returned matches the metadata left, its proxy is known and, for UDP, has UDP; without one the answer is DIRECT |
| RuleMatch.DecideIff | tunnel/tunnel.go:445-461 | an answer is that of `match` if and only if its rule suits and every earlier one, on the metadata it saw, does not match, has no proxy, or is asked for UDP and its proxy has none; or all are passed over so and it is DIRECT |
| RuleMatch.ViewIs | tunnel/tunnel.go:425-443 | the metadata a rule sees: only a missing address is filled in, from the hosts table or, once a rule asked, from the resolver |
| RuleMatch.CacheAgrees | tunnel/matchRuleCache.go:121-161 | after any run of questions, evictions and updates the cached answer is that of `match`, if the rules now in force are safe |
| RuleMatch.AskSuits | tunnel/matchRuleCache.go:121-161 | after any run the cache answers with a rule in force that suits the connection, UDP included, or with DIRECT |
| RuleMatch.CacheAgreesIff | tunnel/matchRuleCache.go:121-161 | agreement over all runs without updates holds if and only if, for every two source ports, a rule admitted first for one and usable as it came for the other is admitted first there too, and falling through to DIRECT is common to both |
| RuleMatch.PortRulesIff | rule/port.go:23-28 | for rules that ignore the source port or match a single one, the rules are safe if and only if no connection is exposed: admitted by a bound rule before any port-blind one, while from some other port of 0 to 65535, or none, no bound rule admits it before the first port-blind one, and that one is usable as the connection came, or there is none and DIRECT exists |
| RuleMatch.FreePortTells | rule/port.go:23-28 | if some port is bound by no rule, that port alone decides whether the rules are safe |
| RuleMatch.PortBlindIsSafe | constant/metadata.go:119-121 | rules that ignore the source port are safe |
| RuleMatch.PortRuleIsUnsafe | constant/metadata.go:119-121 | a source-port rule before a catch-all is answered wrongly after one question for another port |
| RuleMatch.MetadataAgreesIff | tunnel/matchRuleCache.go:121-161 | in all runs without updates the cache leaves the metadata that `match` leaves, if and only if every connection that a cached answer can be used for settles: the rules up to the one that decides add no address to it |
| RuleMatch.SafeSettlesIff | tunnel/tunnel.go:419-462 | for safe rules that is so exactly if every connection settles whose own answer, once cached, is usable for it |
| RuleMatch.SecondIsUnresolved | tunnel/tunnel.go:419-462 | with an address rule in front of a domain rule the second connection to a host is left without the address that `match` resolves |
| RuleMatch.Tunnel.UpdateRules | tunnel/tunnel.go:60-66 | new rules and an empty cache |
| RuleMatch.Tunnel.MatchHashMap | tunnel/matchRuleCache.go:121-161 | the object performs the abstract question, and leaves the metadata alone on a hit and as `match` does otherwise; a rule returned matches it, and its proxy is known and, for UDP, has UDP |
| Vmess.CutKeepsAll | transport/vmess/aead.go:28-63 | the chunks of a write are the write |
| Vmess.ReadsFrame | transport/vmess/aead.go:80-126 | a sealed chunk passes the size check, is opened with the nonce it was sealed with and comes back whole, across the wrap of the counter |
| Vmess.StreamIsFaithful | transport/vmess/aead.go:28-126 | in every run of writes and reads no read fails, the bytes read are a prefix of those written, and a read with room progresses until all is read |
| Vmess.ReadsAdvance | transport/vmess/aead.go:80-126 | each further read delivers a byte or all has been delivered |
| Vmess.StreamDrains | transport/vmess/aead.go:80-126 | enough reads of any sizes deliver exactly what was written |
| Vmess.NonceTells | transport/vmess/aead.go:28-126 | different counts have different nonces |
| Vmess.NonceBytes | transport/vmess/aead.go:28-126 | each byte of the nonce: the count with its high byte first, ten bytes of the vector, zeros |
| Wire.ChunkBytes | transport/vmess/aead.go:28-73 | a chunk is the length of the sealed bytes, high byte first, and the sealed bytes |
| Wire.ChunkSizes | transport/vmess/aead.go:28-73 | all chunks of a write but the last fill 16384 bytes, the last is not empty and no longer |
| Wire.ChunkRead | transport/vmess/aead.go:80-126 | any chunk of at most 17408 bytes is opened under the nonce of the count, which goes on, after 65535 with 0, also if that fails; what does not fit the buffer is kept |
| Wire.ChunkRefused | transport/vmess/aead.go:91-106 | a greater length is an error, and a chunk that is cut short is not read |
| Wire.LeftFirst | transport/vmess/aead.go:81-89 | what was kept is handed out before anything is read |
| VmessConn.Writer.Write | transport/vmess/aead.go:28-63 | all chunks in order with consecutive counters, or, when a write fails, the count of the bytes whose chunks went out |
| VmessConn.AeadReader.Read | transport/vmess/aead.go:80-126 | the object performs the abstract read on a connection that hands out pieces of any size |
| VmessConn.ChunkReader.Read | transport/vmess/chunk.go:32-72 | the same steps under the plain cipher |
| Vmess.PlainIsLawful | transport/vmess/chunk.go:32-102 | the plain chunk format is an instance of the sealed one, so the stream theorems cover it |
| SingleDo.StepOk | common/singledo/singledo.go:29-60 | every step of every caller keeps the invariant |
| SingleDo.OneRunAtATime | common/singledo/singledo.go:29-60 | in every interleaving at most one function runs, and it is the call in flight |
| SingleDo.ResultIsThere | common/singledo/singledo.go:29-56 | the shared result is never read before it is set |
| SingleDo.SharedIsRecent | common/singledo/singledo.go:29-56 | what is shared without waiting is of finished runs begun no earlier than `wait` before the caller's clock reading |
| SingleDo.JoinedInFlight | common/singledo/singledo.go:37-41 | a caller that waited found that very call in flight when it last took the lock to enter, and it has finished |
| SingleDo.TornIffPublished | common/singledo/singledo.go:32-56 | value and error shared are of one run if and only if nothing was published between the two reads |
| SingleDo.TornRead | common/singledo/singledo.go:32-56 | from every initial state with a positive wait, a run without Reset in which they are of two different runs |
| SingleDo.NeverTornIff | common/singledo/singledo.go:29-60 | no caller in any run gets value and error of different runs if and only if `wait` is 0 |
| SingleDo.ResetForgets | common/singledo/singledo.go:58-60 | after Reset the next caller leads a new run, or waits for the one in flight |
| SingleDo.SharedUntil | common/singledo/singledo.go:29-56 | a published outcome is shared until `wait` has passed since its run began, and then the next caller leads |
| Socks5.SplitsOff | transport/socks5/socks5.go:302-328 | a well-formed address is cut off whatever follows |
| Socks5.WellFormedIff | transport/socks5/socks5.go:302-328 | the three forms of address, byte by byte |
| Socks5.SplitIsWellFormed | transport/socks5/socks5.go:302-328 | whatever is cut off is a well-formed prefix |
| Socks5.PacketRoundTrip | transport/socks5/socks5.go:402-435 | decoding undoes encoding, for every payload |
| Socks5.OnlyEncodingsDecode | transport/socks5/socks5.go:402-435 | whatever decodes is the encoding of what it decodes to |
| Wire.DecodeIff | transport/socks5/socks5.go:402-435 | a packet decodes to an address and a payload if and only if it is three zero bytes, the address and the payload |
| Socks5.ServerGrows | transport/socks5/socks5.go:108-205 | more input continues what the server said and read, and never changes a finished or failed handshake |
| Socks5.ClientGrows | transport/socks5/socks5.go:208-270 | the same for the client |
| Socks5Wire.ServerPlain | transport/socks5/socks5.go:108-205 | without an authenticator: the bytes said, the bytes read and the end, for every greeting and every request |
| Socks5Wire.ServerOdd | transport/socks5/socks5.go:272-299 | an address of an unknown type is refused |
| Socks5Wire.ServerRefuses | transport/socks5/socks5.go:126-165 | credentials that are empty or not accepted get the status 1 and end the handshake |
| Socks5Wire.ServerAdmits | transport/socks5/socks5.go:108-205 | accepted credentials get the status 0, and the request is answered |
| Socks5Wire.ClientPlain | transport/socks5/socks5.go:208-269 | what the client says to a server that wants no credentials, and what it takes from the reply |
| Socks5Wire.ClientWithUser | transport/socks5/socks5.go:208-269 | the same for a server that wants and accepts them |
| Socks5Wire.ClientGivesUp | transport/socks5/socks5.go:208-252 | another version, a method that was not offered, and missing or refused credentials are errors |
| Socks5Handshake.ServerCompletes | transport/socks5/socks5.go:108-205 | on the client's whole text the server finishes with its address and command and no byte left |
| Socks5Handshake.ClientCompletes | transport/socks5/socks5.go:208-270 | on the server's whole text the client finishes with the bind address and no byte left |
| Socks5Handshake.RunOnTrack | transport/socks5/socks5.go:108-270 | under any fragmentation all that is ever received is part of the successful exchange |
| Socks5Handshake.QuietIsComplete | transport/socks5/socks5.go:108-270 | no deadlock: when nothing is on the way the exchange is over |
| Socks5Handshake.QuietIsRefused | transport/socks5/socks5.go:108-270 | without accepted credentials the exchange ends in failure |
| Socks5Handshake.HandshakeIff | transport/socks5/socks5.go:108-270 | when all is delivered both sides succeed, with exactly each other's data and no byte over-read or left, if and only if the credentials are accepted; every run is bounded by the length of the exchange |
| Socks5Handshake.CanGoOn | transport/socks5/socks5.go:108-270 | a run that is not over can go on |
| Socks5Conn.ReadAddress | transport/socks5/socks5.go:272-299 | reads an address of any type from a connection with short reads, and no byte more |
| Socks5Conn.ServerHandshake | transport/socks5/socks5.go:108-205 | the server on a connection behaves as the function of its whole input, error cases and unread bytes included; if a write fails, a proper prefix of what it would have said is out and it fails |
| Socks5Conn.ClientHandshake | transport/socks5/socks5.go:208-270 | the same for the client |
| Trojan.UdpAddrInjective | transport/socks5/socks5.go:69-85 | different destinations have different UDP addresses |
| Trojan.UdpAddrOfIPv4 | transport/socks5/socks5.go:69-85 | the IP and port of an IPv4 destination by its bytes |
| Trojan.UdpAddrOfIPv6 | transport/socks5/socks5.go:69-85 | the IP and port of an IPv6 destination by its bytes |
| Wire.TrojanBytes | transport/trojan/trojan.go:94-108 | a packet is the address, the length with its high byte first, a line end and the payload |
| Wire.TrojanPieces | transport/trojan/trojan.go:110-135 | all pieces but the last have 8192 bytes, the last no more |
| Wire.LongestAddress | transport/socks5/socks5.go:40-41 | 259 bytes are enough for every address and needed for some |
| Trojan.WritePacket | transport/trojan/trojan.go:94-135 | the pieces of at most 8192 bytes in order, each as one packet, and the count returned; if a write fails, the packets before it and the first bytes of its own, with the count that says so |
| Trojan.CountIsPayloadIff | transport/trojan/trojan.go:110-135 | the count returned on success is the payload's length if and only if the payload had to be cut: for a single packet the header is counted |
| Trojan.CutIsWhole | transport/trojan/trojan.go:110-135 | the packets carry the payload, no more and no less, all to the same destination |
| Trojan.ReadsPacket | transport/trojan/trojan.go:137-168 | a packet is read back: as much as fits, its address, and exactly the number of bytes that remain |
| Wire.TrojanGotIff | transport/trojan/trojan.go:137-168 | bytes are read as a packet if and only if they start with an address, a length of at most 8192, two more bytes and as much payload as fits the buffer |
| Wire.TrojanFailsIff | transport/trojan/trojan.go:137-151 | a read fails exactly for an unknown type of address or a greater length, and is refused exactly for a buffer of less than 259 bytes |
| Wire.TrojanRest | transport/trojan/trojan.go:185-210 | while some of a packet remains a read takes as much as buffer, packet and connection give, and keeps the address until the packet ends |
| Trojan.PacketsAreFaithful | transport/trojan/trojan.go:94-219 | in every run, with any payloads, buffers and short reads: nothing breaks, bytes arrive in order with their own address and each read stays inside one packet; every read with room (any inside a packet, 259 bytes at its start) consumes the wire until all has arrived |
| TrojanConn.PacketConn.ReadPacket | transport/trojan/trojan.go:137-168 | the abstract read on a connection with short reads |
| TrojanConn.PacketConn.ReadFrom | transport/trojan/trojan.go:185-219 | the abstract step, with `remain` and the address kept across calls |
| Murmur3.WriteExtends | common/murmur3/murmur.go:19-44 | writing to the digest of some data gives the digest of both together, in both buffering branches |
| Murmur3.PiecesDoNotMatter | common/murmur3/murmur.go:19-44 | however the data is cut, for any mixing function |
| Murmur3.StreamingIsOneShot | common/murmur3/murmur32.go:50-145 | for every seed and every split the streaming hash is the one-shot hash |
| Murmur3.KnownValues | common/murmur3/murmur32.go:50-98 | published values for every length of the tail and for one block, with and without a seed |
| Murmur3.MixBlocks | common/murmur3/murmur32.go:50-67 | the block loop mixes all whole blocks and returns the rest |
| Murmur3.Sum32WithSeed | common/murmur3/murmur32.go:102-145 | the one-shot hash of the data |
| Murmur3.Digest32.constructor | common/murmur3/murmur32.go:32-38 | a digest of nothing |
| Murmur3.Digest32.Reset | common/murmur3/murmur.go:46-50 | a digest of nothing again, with the same seed |
| Murmur3.Digest32.Write | common/murmur3/murmur.go:19-44 | the digest of all bytes so far and these, the 0 to 3 pending ones kept in the buffer in place |
| Murmur3.Digest32.Sum32 | common/murmur3/murmur32.go:69-98 | the hash of all bytes written since the last reset |
| LoadBalance.JumpBounds | adapter/outboundgroup/loadbalance.go:59-69 | a jump goes forward and is at most 2^31 times the bucket plus one, under any rounding that is monotone and exact on the integers involved |
| LoadBalance.FloatsIsValid | adapter/outboundgroup/loadbalance.go:59-69 | so the source's jumps are forward and at most 2^62 |
| LoadBalance.JumpHash | adapter/outboundgroup/loadbalance.go:59-69 | the loop ends at the last bucket below n on the key's way, 0 for no buckets |
| LoadBalance.BucketGrows | adapter/outboundgroup/loadbalance.go:59-69 | when any number of buckets is added a key stays or moves to an added bucket |
| LoadBalance.OneMoreBucket | adapter/outboundgroup/loadbalance.go:59-69 | among n + 1 buckets a key is where it was among n, or in the new one |
| LoadBalance.ConsistentHashing | adapter/outboundgroup/loadbalance.go:119-134 | the first of five tries that finds a living proxy, else the first proxy; always in range, whatever the length's int32 value |
| LoadBalance.ChosenIs | adapter/outboundgroup/loadbalance.go:119-134 | the bucket of the first of the keys h, h + 1, ..., h + 4 that holds a living proxy, else the first proxy |
| LoadBalance.ChosenGrowsIff | adapter/outboundgroup/loadbalance.go:119-134 | when proxies are appended a destination keeps its proxy or moves to an added one, if and only if it does not sidestep: the try that decided before finds a dead added proxy, no try up to it finds a living one, and those after it end at yet another old proxy |
| LoadBalance.ExactFloats | adapter/outboundgroup/loadbalance.go:59-69 | exact arithmetic with the source's keys is a machine that meets everything assumed of rounding |
| Sidestep.DestinationSidesteps | adapter/outboundgroup/loadbalance.go:59-134 | the destination 1.0.0.1, by its Murmur3 hash, moves from proxy 1 to proxy 0 when a dead third proxy is appended to two living ones, under every rounding that is precise to a millionth |
| LoadBalance.RoundRobin.Pick | adapter/outboundgroup/loadbalance.go:103-117 | the next living proxy in cyclic order, or the first proxy exactly if none lives |
| LoadBalance.NobodyStarves | adapter/outboundgroup/loadbalance.go:103-117 | in as many picks as there are proxies every living one is picked |
| Relay.NothingAhead | common/net/bufconn.go:8-43 | with nothing read ahead a wrapped connection gives the stream of the bare one |
| Relay.Read | common/net/bufconn.go:27-29 | reading through any nesting takes the next bytes of the stream |
| Relay.DrainAndUnwrap | tunnel/connection.go:284-311 | bytes sent to the target followed by the bare connection's input are the original stream |
| Relay.Copy | tunnel/connection.go:265-265 | a copy left alone sends everything up to the end of the source, in order, and is a run of its lane's steps |
| Relay.StartLanes | tunnel/connection.go:191-231 | with zero copy or without, what is sent before the lanes start and what each lane has to copy are exactly the two streams |
| RelayLanes.EachGetsAPrefix | tunnel/connection.go:169-276 | in every interleaving of the two lanes each side has received a prefix of the other's stream, and all of it if its lane came to the end of its input |
| RelayLanes.BothArriveIff | tunnel/connection.go:173-176 | both streams arrive whole if and only if at the first close nothing of either is unread or held; after an end of input, nothing of the other |
| RelayLanes.HalfCloseCuts | tunnel/connection.go:231-234 | from every start, and for either stream, there is a run without failures other than those of closed connections in which its end cuts off all of the other that was still to come |
| RelayLanes.AlwaysWholeIff | tunnel/connection.go:231-276 | both streams arrive whole in all runs if and only if the lanes have nothing to copy; so too if only closed connections fail |
| RelayLanes.BothCanArrive | tunnel/connection.go:231-276 | from every start there is a run, without failures other than those of closed connections, in which both arrive whole |
| RelayLanes.RunsEnd | tunnel/connection.go:231-276 | no run is longer than twice the bytes to copy and the steps of ending |
| RelayLanes.RunsGoOn | tunnel/connection.go:231-276 | a run that is not finished can go on by a read, a write, an end of input, a close or the failure of a closed connection |

## Left out

- LruCache.LruCache.CloneTo: the entries it shares with the target are not part of the run theorems, which are about one cache.
- Lru.KeepsMostRecent: says nothing of runs with ages or deletes; those are the subject of `LruAges.GetGivesStored`.
- GetWithExpire (common/cache/lrucache.go:97-104): it only adds the expiry date to Get.
- FakeIpRuns.BijectionIff: sizes are unbounded integers, so an overflow of `size * 2` is not modelled; Gateway, IPNet, PatchFrom and the host filter of LookupHost are left out.
- GroupSort.ParseGroups: which groups fail on their own account (type, `use` providers, health checks) is a parameter. The providers, which the source parses between the sort and the groups, are left out.
- RuleMatch.InfoKey: the key is a tuple of the fields, not the string formatted from them.
- RuleMatch.CacheAgrees: questions are asked one after another; the source inserts outside the lock, and interleaved updates are not modelled. GeoIP, process and other rules are arbitrary predicates on the metadata; process rules look up the source port and are neither port-blind nor bound to one.
- RuleMatch.Match: the metadata is a value that is returned, not updated in place; the hosts list and the special modes of the tunnel are left out.
- Vmess.StreamIsFaithful: the cipher is any one whose opening undoes its sealing under the same nonce; key derivation, the VMess header and buffer reuse are left out.
- SingleDo.SharedIsRecent: a function that panics is not modelled.
- Socks5Conn.ServerHandshake: the authenticator is an arbitrary predicate.
- Trojan.PacketsAreFaithful: a destination is a well-formed address; those that are domain names have no UDP address in the source, and all of them share the tag for none.
- ParseAddr and ParseAddrToSocksAddr (transport/socks5/socks5.go:331-400): text and address conversions of the Go library.
- LoadBalance.JumpBounds: float64 rounding is any monotone rounding that is exact on 32-bit integers and on those times 2^31, and for one witness precise to a millionth, not the bit-level operation.
- LoadBalance.RoundRobin.Pick: one caller at a time; the source keeps the index in a closure without a lock.
- getKey (adapter/outboundgroup/loadbalance.go:40-57): it rests on the public suffix list.
- Relay.DrainAndUnwrap: the writes of the drain succeed; the source ignores their errors.
- RelayLanes.EachGetsAPrefix: deadlines and resets are failures that may come at any time; statistics and the limit on connections are left out.
- The UDP session table of tunnel/tunnel.go: a reader's deferred deletion is by key only and may remove a newer session, so it keeps no one-session invariant.
- DNS clients and caches, listeners, providers and health checks, the REST interface, configuration files, TLS and the other transports: input and output or plumbing.
