# Models of the lumine core

Dafny models of the parts of SniShaper / lumine that carry its logic, with proofs
of what they promise. `dafny verify dfyconfig.toml` checks everything.

| part | modules |
|---|---|
| LRU cache with intrusive rings, and its sharded form | `Rings`, `LruSlots`, `LruView`, `FreeLru`, `RecencyList`, `Bits`, `ShardDimensions`, `ShardedLru` |
| domain matcher and address tries | `DomainRules`, `DomainPatterns`, `Tries`, `DomainTrie`, `IpTrie` |
| ClientHello parser, its printer, and the disguise that prints one | `Wire`, `ClientHello`, `HelloRoundTrip`, `HelloAccept`, `ObfsHello` |
| splitting a ClientHello into records and segments | `RecordSplit` |
| the adapter that holds back the first flight | `FirstFlight`, `SplitStream`, `Outcomes` |
| fake addresses, DNS rewriting, routing, dial plans | `FakeIp`, `FakeIpTrace`, `Routing`, `FakeDns`, `DialPlan`, `PlanCases` |
| Shadowsocks AEAD stream | `ShadowAead` |
| duplicate-call suppression as a step system | `SingleFlight` |
| weighted address pool | `RoundRobin`, `IpPool` |
| UDP session: bounded renewal, two loops, pinned peer | `UdpRelay`, `UdpSession` |
| HTTP disguise, reading side | `HttpObfs` |

Code that changes state is modelled by classes and methods over arrays, maps and
node graphs. Each such method is proved against a function on plain values, and the
lemmas about these functions say what the code is for: refinement of a recency
list, longest-prefix match, round trips, conservation of bytes, bounds over whole
runs. `Common` holds shared datatypes.

Five promises are false of the code as it is. They are stated as equivalences, each
with a concrete input or run that fails:

* Several records with a negative segment count: chunk 0 is not written
  (`enimul/internal/core/fragment.go:109-121`). See `RecordSplit.SplitPreserves`,
  `SplitStream.SplitStreamMeans` and `SplitStream.FirstRecordLost`.
* A first record that does not parse, completed by a write that carries more: the
  tail is sent twice (`enimul/internal/core/tun_bridge.go:84-93`). See
  `FirstFlight.BytesConserved` and `FirstFlight.TailRepeated`.
* A sharded cache for more than 2^31 entries: the shards do not hold them
  (`enimul/internal/freelru/shardedlru.go:77-100`). See `ShardDimensions.Dimension`,
  `ShardDimensions.CapacityLost` and `ShardDimensions.CapacityOverfull`.
* Weighted rounds that span the wrap of the 32-bit counter: some slot gets less than
  its weight (`enimul/internal/core/ippool.go:350-351`). See `RoundRobin.ExactIff` and
  `RoundRobin.WrapBreaksRound`.
* An idle exit although the peer has just sent: its packet is received and not stamped
  yet (`tun2socks/tunnel/udp.go:126-144`). See `UdpSession.SilentExactly` and
  `UdpSession.UnstampedPacketMissed`.

Where the code departs from its documents, the model follows the code. The
extension type it tests for an encrypted ClientHello is 0x00fe. Its alert constants
are 70 for "access denied" and 49 for "protocol version", while section 6 of RFC 8446
has them the other way round. A domain with an empty leftmost label matches as the
loops treat it, so the matcher results hold for all strings.

## Model

| member | source | states |
|---|---|---|
| `Rings.RingRemove` | enimul/internal/freelru/lru.go:206-223 | unlinking any slot of a doubly linked ring leaves the ring of the other slots, in order |
| `Rings.RingTouch` | enimul/internal/freelru/lru.go:189-209 | unlink followed by re-link in front of the head moves one slot to the end of the ring and keeps the order of the rest |
| `Rings.RingRename` | enimul/internal/freelru/lru.go:245-268 | redirecting the neighbours of a slot to a free one puts the free slot in its place in the ring |
| `LruSlots.EvictBuckets` | enimul/internal/freelru/lru.go:212-241 | after an eviction every bucket ring is again exactly the live slots of its bucket, and the start of the bucket is its first slot or empty |
| `LruSlots.PushBuckets` | enimul/internal/freelru/lru.go:363-430 | linking a free slot makes it the entry point of its bucket and leaves every other bucket ring alone |
| `LruSlots.MoveBuckets` | enimul/internal/freelru/lru.go:245-268 | relocating a slot keeps all bucket rings up to the renamed slot |
| `LruView.BucketInRange` | enimul/internal/freelru/lru.go:169-179 | masking or fast-range hashing always gives a bucket inside the table |
| `LruView.BucketExactly` | enimul/internal/freelru/lru.go:169-179 | the bucket is the hash modulo the size for a power of two above 1, and hash times size divided by 2^32 otherwise |
| `LruView.LifetimeExactly` | enimul/internal/freelru/lru.go:292-297 | an added entry is found exactly while less than its lifetime in whole milliseconds has passed, for ever with lifetime 0; with a negative lifetime only when its expiry happens to be 0 |
| `LruView.EvictWf` | enimul/internal/freelru/lru.go:226-241 | an evicted table is well formed and lists the old entries without the evicted one |
| `LruView.RelocateWf` | enimul/internal/freelru/lru.go:245-268 | moving the last slot into a gap changes neither well-formedness nor the recency list |
| `LruView.TouchWf` | enimul/internal/freelru/lru.go:189-209 | moving an element to the head moves its entry to the end of the recency list and nothing else |
| `LruView.PushWf` | enimul/internal/freelru/lru.go:272-286 | inserting a slot appends its entry to the recency list; keys stay distinct, live slots stay 0..len-1 |
| `LruView.NotStored` | enimul/internal/freelru/lru.go:305-327 | a key that the walk of its own bucket misses is nowhere in the cache |
| `LruView.Stored` | enimul/internal/freelru/lru.go:305-327 | a key that the walk finds is the one entry of that key |
| `FreeLru.LRU.constructor` | enimul/internal/freelru/lru.go:149-166 | a fresh cache is well formed and empty |
| `FreeLru.LRU.SetHead` | enimul/internal/freelru/lru.go:189-203 | exactly the four links of the head change |
| `FreeLru.LRU.UnlinkElement` | enimul/internal/freelru/lru.go:206-209 | the two neighbours point at each other; nothing but recency links changes |
| `FreeLru.LRU.UnlinkBucket` | enimul/internal/freelru/lru.go:212-223 | the bucket columns become those of the ring without the slot, including the emptied bucket |
| `FreeLru.LRU.Evict` | enimul/internal/freelru/lru.go:226-241 | one live slot less, unlinked from both rings, with the head passed on when it was the head |
| `FreeLru.LRU.Move` | enimul/internal/freelru/lru.go:245-268 | the slot that moves is copied with its neighbours, bucket start and head redirected; moving onto itself does nothing |
| `FreeLru.LRU.ClearKeyAndValue` | enimul/internal/freelru/lru.go:300-303 | only key and value of the slot are reset |
| `FreeLru.LRU.RemoveAt` | enimul/internal/freelru/lru.go:537-544 | evicting, filling the gap with the last slot and clearing keeps the cache valid and drops exactly one entry of the list |
| `FreeLru.LRU.Touch` | enimul/internal/freelru/lru.go:459-471 | the entry becomes the most recent one; the order of the others stays |
| `FreeLru.LRU.Insert` | enimul/internal/freelru/lru.go:272-286 | the slot holds key, value and expiry, is the head, and len grows by one, for the empty and the non-empty list |
| `FreeLru.LRU.Walk` | enimul/internal/freelru/lru.go:305-327 | the bucket walk terminates, and finds the key or proves that no slot of the bucket has it |
| `FreeLru.LRU.FindKey` | enimul/internal/freelru/lru.go:305-327 | found exactly when the recency list holds the key unexpired; an expired entry is removed and nothing else |
| `FreeLru.LRU.Get` | enimul/internal/freelru/lru.go:459-471 | refines the abstract list: the result is the list lookup and the new contents are the list with the hit moved to the end or the expired entry dropped |
| `FreeLru.LRU.AddNew` | enimul/internal/freelru/lru.go:363-438 | for a key that is absent: drops the oldest entry only at full capacity and appends the new one |
| `FreeLru.LRU.AddWithLifetime` | enimul/internal/freelru/lru.go:360-439 | refines the abstract add and reports an eviction exactly when a new key met a full cache |
| `RecencyList.AddContents` | enimul/internal/freelru/lru.go:360-439 | after an add an entry is present exactly if it is the added one, or was present under another key and is not the evicted oldest |
| `RecencyList.RunInv` | enimul/internal/freelru/lru.go:360-471 | no run of adds and gets stores a key twice or exceeds the capacity |
| `RecencyList.StoredIsLastAdded` | enimul/internal/freelru/lru.go:360-439 | in every run whatever is stored for a key is what was added for it last |
| `RecencyList.HitIsLastAdded` | enimul/internal/freelru/lru.go:459-471 | a hit returns the last added value of the key, unexpired |
| `RecencyList.Retention` | enimul/internal/freelru/lru.go:360-471 | an entry just used is still found after every run that brings fewer than cap distinct other keys to the front |
| `RecencyList.HitIsNewest` | enimul/internal/freelru/lru.go:459-471 | a hit makes the entry it returned the newest one, unchanged |
| `RecencyList.RetentionAfterGet` | enimul/internal/freelru/lru.go:459-471 | what a get returned is returned again after every run that brings fewer than cap distinct other keys to the front and neither overwrites it nor lets it expire |
| `RecencyList.RetentionAfterAdd` | enimul/internal/freelru/lru.go:360-439 | the same for what an add stored |
| `RecencyList.HitProtects` | enimul/internal/freelru/lru.go:360-471 | with capacity 2: add a, add b, get a, add c evicts b and keeps a |
| `RecencyList.GetContents` | enimul/internal/freelru/lru.go:305-327 | a get keeps every entry except an expired one of its key |
| `ShardDimensions.NextPowerOfTwoLeast` | enimul/internal/freelru/shardedlru.go:45-50 | up to 2^31 the result is the least power of two not below the argument; above it is 0 |
| `ShardDimensions.ReduceShards` | enimul/internal/freelru/shardedlru.go:83-90 | the shrinking loop terminates with a power of two that leaves sixteen slots per shard, or with one shard |
| `ShardDimensions.Dimension` | enimul/internal/freelru/shardedlru.go:70-100 | the error cases exactly; shard count and shard size are powers of two; capacity fits the size and the total stays within one rounding of the request if and only if the capacity is at most 2^31 |
| `ShardDimensions.CapacityExact` | enimul/internal/freelru/shardedlru.go:92-100 | the per-shard capacity is between 1 and the shard size and rounds the request up by less than one per shard, exactly for capacities up to 2^31 |
| `ShardDimensions.CapacityLost` | enimul/internal/freelru/shardedlru.go:77-100 | asked for 2^32-1 entries, the constructor works out sixteen shards of one entry each |
| `ShardDimensions.CapacityOverfull` | enimul/internal/freelru/shardedlru.go:77-100 | asked for 2^31+1 entries, it works out shards with more capacity than slots |
| `ShardDimensions.Carve` | enimul/internal/freelru/shardedlru.go:102-112 | the slices given to the shards are disjoint, equally long and cover the backing arrays; the constructor gives each shard the slots of its slice |
| `ShardedLru.ShardedLRU.constructor` | enimul/internal/freelru/shardedlru.go:102-121 | empty shards that share nothing, each on the slots of its slice of the backing arrays |
| `ShardedLru.NewShardedWithSize` | enimul/internal/freelru/shardedlru.go:67-121 | for all inputs: an error exactly for zero capacity or a size below it, else an empty valid cache that provides the capacity if and only if it is at most 2^31, or shards with more capacity than slots, above 2^31 only |
| `ShardedLru.ShardInRange` | enimul/internal/freelru/shardedlru.go:136-146 | the masked upper hash bits always name a shard |
| `ShardedLru.ShardExactly` | enimul/internal/freelru/shardedlru.go:136-146 | the shard is the upper 16 bits of the hash modulo the number of shards |
| `ShardedLru.ShardsAreIndependent` | enimul/internal/freelru/shardedlru.go:136-175 | every run of the sharded cache is, in each shard, the run of a plain cache on the operations whose keys hash there |
| `ShardedLru.StepOwnKeys` | enimul/internal/freelru/shardedlru.go:136-175 | no operation brings a key into a shard it does not hash to |
| `ShardedLru.ShardedLRU.AddWithLifetime` | enimul/internal/freelru/shardedlru.go:136-146 | the add happens in the shard of the key and all other shards are unchanged |
| `ShardedLru.ShardedLRU.Get` | enimul/internal/freelru/shardedlru.go:166-175 | the lookup happens in the shard of the key and all other shards are unchanged |
| `DomainRules.LabelsJoin` | enimul/internal/addrtrie/domain.go:76-120 | cutting a name at its dots from the right loses nothing and leaves no dot in a label |
| `DomainRules.PathIsLabels` | enimul/internal/addrtrie/domain.go:26-53 | the insertion loop walks the same labels as the lookup, except for an empty leftmost label |
| `DomainRules.LookupDecides` | enimul/internal/addrtrie/domain.go:76-120 | the lookup function returns the value of the deciding rule: exact before wildcard, longer before shorter, later before earlier; it returns nothing exactly when no rule matches |
| `DomainRules.DecidesUnique` | enimul/internal/addrtrie/domain.go:76-120 | at most one rule of a history decides a name |
| `Tries.Trie.Descend` | enimul/internal/addrtrie/domain.go:39-42 | stepping to a child creates it when missing and changes no stored value on any path |
| `Tries.Trie.SetValue` | enimul/internal/addrtrie/domain.go:45-52 | writing a node changes the value of its own path only |
| `Tries.Trie.NothingBelow` | enimul/internal/addrtrie/domain.go:91-95 | below a missing node nothing is stored |
| `DomainTrie.DomainMatcher.InsertPattern` | enimul/internal/addrtrie/domain.go:26-53 | the node graph stores, on every path, what the history extended by this rule says |
| `DomainTrie.DomainMatcher.Add` | enimul/internal/addrtrie/domain.go:55-74 | the pattern forms "*", "*.x", "*x", "x.y" and the rejected dotless ones, each extending the history by its rule or leaving it |
| `DomainTrie.DomainMatcher.Find` | enimul/internal/addrtrie/domain.go:76-120 | for every history and every name the loop with its candidate returns the list lookup |
| `DomainPatterns.WildIsUnder` | enimul/internal/addrtrie/domain.go:76-120 | a wildcard path is a proper prefix of the labels of a name exactly if the name ends in a dot and the pattern |
| `DomainPatterns.ExactIsEqual` | enimul/internal/addrtrie/domain.go:76-120 | equal paths mean equal names, up to one leading dot of the name looked up |
| `DomainPatterns.StarMatchesAll` | enimul/internal/addrtrie/domain.go:55-74 | "*" matches every name |
| `DomainPatterns.SubdomainPattern` | enimul/internal/addrtrie/domain.go:55-120 | "*.x" matches the names that end in ".x" and not x |
| `DomainPatterns.SuffixPattern` | enimul/internal/addrtrie/domain.go:55-120 | "*x" with a dot in x matches x and the names that end in ".x" |
| `DomainPatterns.PlainPattern` | enimul/internal/addrtrie/domain.go:55-120 | any other pattern with a dot matches its own name only |
| `DomainPatterns.DotlessRefused` | enimul/internal/addrtrie/domain.go:55-74 | a pattern is refused exactly if it has no dot and is not "*" |
| `IpTrie.GetBit32IsBit` | enimul/internal/addrtrie/ipv4.go:9-11 | shift and mask give bit i of the address, most significant first |
| `IpTrie.GetBit128IsBit` | enimul/internal/addrtrie/ipv6.go:14-19 | the same for the address held in two 64-bit halves |
| `IpTrie.PathIsQuotient` | enimul/internal/addrtrie/ipv4.go:59-81 | two addresses share a trie path of length n exactly when they have equal network parts of length n |
| `IpTrie.LookupDecides` | enimul/internal/addrtrie/ipv4.go:83-117 | the lookup function is longest-prefix match over the insertion history, the later of two equal prefixes winning; nothing exactly when no prefix matches |
| `IpTrie.BitTrie.Insert` | enimul/internal/addrtrie/ipv4.go:59-81 | every accepted prefix extends the history, "*" as the prefix of length 0; a malformed one changes nothing |
| `IpTrie.BitTrie.Find` | enimul/internal/addrtrie/ipv6.go:88-125 | the bit walk with its current best returns the longest-prefix lookup, for 32 and 128 bits alike |
| `ClientHello.ParseClientHello` | enimul/internal/core/tunnel.go:362-482 | the offset-advancing parser computes the parse function: same checks in the same order, same errors, no read out of bounds |
| `ClientHello.ScanExtensions` | enimul/internal/core/tunnel.go:435-482 | the extension loop computes the extension scan |
| `HelloRoundTrip.ExtensionsAreScan` | enimul/internal/core/tunnel.go:437-480 | on a printed extension block the byte-wise loop sees exactly the extensions that were printed |
| `HelloRoundTrip.ParsePrinted` | enimul/internal/core/tunnel.go:362-482 | parsing a printed ClientHello record gives its version and the scan of its extension list |
| `HelloRoundTrip.ScanMeaning` | enimul/internal/core/tunnel.go:437-480 | the scan fails exactly for a malformed or repeated server name, and the flags say whether key_share and the tested ECH type are present |
| `HelloRoundTrip.NameLocated` | enimul/internal/core/tunnel.go:451-478 | the reported range holds the name bytes of the server-name extension |
| `HelloRoundTrip.ParseUndoesPrint` | enimul/internal/core/tunnel.go:362-482 | for every ClientHello that fits one record: accepted exactly when its server names are well formed and unique, flags and name range correct |
| `HelloRoundTrip.ParseInBounds` | enimul/internal/core/tunnel.go:362-482 | for any bytes a reported name range lies inside the input, behind the fixed fields |
| `HelloAccept.SniNameExactly` | enimul/internal/core/tunnel.go:455-476 | a server-name body is read exactly if it is one host_name entry with anything behind it, in a list that fills the extension |
| `HelloAccept.BlockIsScan` | enimul/internal/core/tunnel.go:433-481 | up to three bytes left over in an extension block change nothing |
| `HelloAccept.ScannedIsBlock` | enimul/internal/core/tunnel.go:433-481 | a block scanned without error is the printing of some extensions and at most three more bytes |
| `HelloAccept.FieldsLaidOut` | enimul/internal/core/tunnel.go:392-422 | fields that are read without error are the printing of a session id, cipher suites and compression methods |
| `HelloAccept.HeadersExactly` | enimul/internal/core/tunnel.go:362-391 | the header checks pass exactly for a complete handshake record whose ClientHello of at least 35 bytes fits it |
| `HelloAccept.AcceptedExactly` | enimul/internal/core/tunnel.go:362-482 | for any bytes: accepted if and only if they are a hello record that lays out some hello with a unique and well-formed server name |
| `HelloAccept.ReportOf` | enimul/internal/core/tunnel.go:362-482 | for any bytes that lay out a hello: its version, no error exactly if its server names are in order, and then whether extensions 51 and 254 are there and where the name lies |
| `ObfsHello.MakeClientHelloMsg` | tun2socks/transport/simple-obfs/tls.go:119-195 | the step-by-step message is the printed ClientHello with these extensions whenever its lengths fit 16 bits |
| `ObfsHello.MessagePrinted` | tun2socks/transport/simple-obfs/tls.go:119-195 | the literal header bytes and computed lengths agree with the printer |
| `ObfsHello.ServerRecovered` | tun2socks/transport/simple-obfs/tls.go:119-195 | the parser finds the server name in the message, without key_share |
| `RecordSplit.CutBehindHeader` | enimul/internal/core/fragment.go:13-22 | for a server name behind the record header the cut is inside the record and behind its header |
| `RecordSplit.CutExactly` | enimul/internal/core/fragment.go:13-22 | the cut is the last dot of the name, the middle of a name without one, or the middle of the data when the range is unusable |
| `RecordSplit.PartsJoin` | enimul/internal/core/fragment.go:183-210 | cutting into n parts loses no byte, makes no empty part from non-empty data and no part longer than the data |
| `RecordSplit.PartsCount` | enimul/internal/core/fragment.go:183-210 | n parts, all but the last of the n-th part of the length, or one part when there are fewer bytes than parts |
| `RecordSplit.RecordCount` | enimul/internal/core/fragment.go:101-107 | the peer decodes exactly the number of records asked for, half of them rounded down before the cut, a side too short for its share giving one |
| `RecordSplit.WriteCount` | enimul/internal/core/fragment.go:24-181 | the number of writes for one record in several segments, for several records in several segments, and for a negative segment count |
| `RecordSplit.SplitAndAppend` | enimul/internal/core/fragment.go:183-210 | appends the n parts, each wrapped in a record when a header is given, behind what was there |
| `RecordSplit.ChunksJoin` | enimul/internal/core/fragment.go:101-107 | the record payloads join to the handshake bytes and are non-empty for a cut strictly inside |
| `RecordSplit.SegmentedJoin` | enimul/internal/core/fragment.go:155-180 | the equal segments of the merged records join to them |
| `RecordSplit.SendSegments` | enimul/internal/core/fragment.go:155-180 | the writing loop makes exactly the given number of segments of equal size, the last one taking the rest |
| `RecordSplit.SendSplit` | enimul/internal/core/fragment.go:101-180 | the list of writes for several records, for every segment count |
| `RecordSplit.SendRecords` | enimul/internal/core/fragment.go:24-181 | the exact list of writes for all record and segment counts, and the bytes that the peer receives |
| `RecordSplit.WritesJoin` | enimul/internal/core/fragment.go:24-181 | the writes carry what the peer is to receive, first record missing for a negative segment count |
| `RecordSplit.DecodeRecords` | enimul/internal/core/fragment.go:212-218 | decoding a stream of made records (section 5.1 of RFC 8446) gives back header and payloads |
| `RecordSplit.SplitPreserves` | enimul/internal/core/fragment.go:24-181 | the received bytes decode to non-empty records of the original type and (possibly overridden) version whose payloads join to the handshake bytes, if and only if one record is asked for, or the segment count is negative exactly when the cut is at the header |
| `FirstFlight.SegmentationIndependent` | enimul/internal/core/tun_bridge.go:37-121 | for every way of cutting the stream into writes the state and the bytes sent depend on the whole stream only, outside the repeating case |
| `FirstFlight.BytesConserved` | enimul/internal/core/tun_bridge.go:37-121 | in raw and direct mode, while not closed, sent and pending bytes are the bytes written, if and only if the write completing an unparsable first record carries nothing behind it |
| `FirstFlight.HeldBack` | enimul/internal/core/tun_bridge.go:55-82 | held-back data is everything written so far and less than a record header or a proper prefix of the first record |
| `FirstFlight.ClosedForGood` | enimul/internal/core/tun_bridge.go:41-43 | after a close nothing is forwarded |
| `FirstFlight.TailRepeated` | enimul/internal/core/tun_bridge.go:84-93 | a concrete write whose last byte is sent twice |
| `FirstFlight.EmitPreserves` | enimul/internal/core/tun_bridge.go:175-179 | what the record-fragmenting mode sends for a complete record with a server name means that record, if and only if not several records with a negative segment count |
| `FirstFlight.TunPolicyConn.Write` | enimul/internal/core/tun_bridge.go:37-53 | without a write error the adapter takes the step of the run function; closed it writes nothing; the first write error before the hand-over closes it |
| `FirstFlight.TunPolicyConn.TryHandlePending` | enimul/internal/core/tun_bridge.go:55-106 | every branch of the pending handling, and closing on any write error |
| `FirstFlight.TunPolicyConn.FlushPending` | enimul/internal/core/tun_bridge.go:108-121 | on success all pending bytes are sent once; on failure they stay pending |
| `FirstFlight.TunPolicyConn.HandleTls` | enimul/internal/core/tun_bridge.go:123-200 | the verdict on the record is obeyed: forwarded, refused with the right alert, or flushed unparsed |
| `FirstFlight.TunPolicyConn.SendAlert` | enimul/internal/core/tunnel.go:344-349 | the alert record with the parsed version |
| `Outcomes.RefusedExactly` | enimul/internal/core/tun_bridge.go:55-200 | a first record is refused exactly for a blocked plan, block mode, or a parsed hello in alert mode, without key_share where TLS 1.3 is demanded, or with a readable name whose rule blocks; 49 is the alert exactly for the missing key_share, 70 the one of alert modes, and blocking sends none |
| `Outcomes.JudgeByFields` | enimul/internal/core/tun_bridge.go:123-200 | the verdict by the fields of the parsed hello: the alert bytes, unparsed, forwarded whole, or split exactly in splitting mode with a readable name |
| `Outcomes.FirstRecordOutcome` | enimul/internal/core/tun_bridge.go:37-200 | for every way of cutting a complete first record and any tail into writes: closed if and only if refused, with nothing or exactly the seven alert bytes sent; otherwise everything handed over, the first record as it is or split |
| `Outcomes.ByMode` | enimul/internal/core/tun_bridge.go:55-71 | any data: a blocked plan closes without sending, raw mode sends everything |
| `Outcomes.NonTlsPassed` | enimul/internal/core/tun_bridge.go:55-106 | a stream that does not start as a TLS handshake is passed on unchanged unless blocked |
| `SplitStream.DecodeAppend` | enimul/internal/core/fragment.go:212-218 | records decode one after the other, so a stream of two parts decodes to the records of both |
| `SplitStream.SentDecodes` | enimul/internal/core/fragment.go:24-181 | whatever the counts, the bytes sent for a record are whole records |
| `SplitStream.SplitStreamMeans` | enimul/internal/core/tun_bridge.go:37-200 | for every way of cutting the stream into writes and every tail of records: the peer gets records carrying the payload of the first record, then the records of the tail, if and only if not several records with a negative segment count |
| `SplitStream.FirstRecordLost` | enimul/internal/core/fragment.go:109-121 | every ClientHello of the disguise, cut where the parser and findLastDotOrMidPos say, loses its first part with two records and a negative segment count, and does not with one segment |
| `FakeIp.FirstFreeExact` | enimul/internal/core/fake_ip.go:84-123 | probing size-1 addresses from the next one on finds a free usable address, or none is free |
| `FakeIp.AllocateInv` | enimul/internal/core/fake_ip.go:72-123 | allocation keeps the invariant: both maps mutual inverses, addresses usable, next at the first address only while empty |
| `FakeIp.LookupInv` | enimul/internal/core/fake_ip.go:125-138 | lookup keeps the invariant |
| `FakeIp.RunInv` | enimul/internal/core/fake_ip.go:72-155 | in every run two domains never share an address and all addresses are in the usable range |
| `FakeIp.ExhaustedExactly` | enimul/internal/core/fake_ip.go:84-123 | exhaustion is reported exactly when every usable address is held by a live entry of another domain |
| `FakeIp.AllocateGives` | enimul/internal/core/fake_ip.go:72-123 | a granted address is usable, recorded with its new expiry, the same as before for a live domain, and never taken from a live one |
| `FakeIp.StepKeeps` | enimul/internal/core/fake_ip.go:72-155 | no operation before its expiry touches a mapping, except that allocating its own domain moves the expiry |
| `FakeIp.OwnerChangesAfterExpiry` | enimul/internal/core/fake_ip.go:72-155 | an address changes owner or disappears only at or after its expiry |
| `FakeIp.RunKeeps` | enimul/internal/core/fake_ip.go:72-155 | a mapping that is renewed in time survives any run |
| `FakeIp.LookupUndoesAllocate` | enimul/internal/core/fake_ip.go:72-138 | after any run that keeps it alive the allocated address looks up to the lower-case domain |
| `FakeIpTrace.LifetimeSeconds` | enimul/internal/core/fake_ip.go:157-166 | the lifetime is the TTL in seconds, at least 60 |
| `FakeIpTrace.AllocatesNearest` | enimul/internal/core/fake_ip.go:84-123 | a domain without a live address gets the free usable address nearest ahead of the next pointer, which moves behind it |
| `FakeIpTrace.NextKept` | enimul/internal/core/fake_ip.go:72-138 | renewing and looking up do not move the pointer |
| `FakeIpTrace.EmptyRefused` | enimul/internal/core/fake_ip.go:72-83 | only the empty domain is refused as empty |
| `FakeIpTrace.EntryTraced` | enimul/internal/core/fake_ip.go:72-155 | in every run from an empty store each stored mapping was granted by some allocation of the run, with its domain and expiry |
| `FakeIpTrace.LookupSound` | enimul/internal/core/fake_ip.go:125-138 | in every run a lookup answers only with the domain of an allocation of that run whose lifetime has not passed |
| `FakeIpTrace.LookupEnds` | enimul/internal/core/fake_ip.go:125-138 | at its expiry an address answers nothing and leaves both maps |
| `FakeIp.FakeIPStore.Allocate` | enimul/internal/core/fake_ip.go:72-123 | the mutating method does what the allocation function says, error cases and cleaning included |
| `FakeIp.FakeIPStore.Probe` | enimul/internal/core/fake_ip.go:84-123 | the probe loop terminates although the wrap is not compared with its start, and finds the first free address |
| `FakeIp.FakeIPStore.LookupDomain` | enimul/internal/core/fake_ip.go:125-138 | a live mapping is returned, an expired one is removed from both maps |
| `FakeIp.FakeIPStore.CleanupExpired` | enimul/internal/core/fake_ip.go:140-146 | exactly the expired entries leave both maps, whatever the iteration order |
| `FakeIp.FakeIPStore.DeleteEntry` | enimul/internal/core/fake_ip.go:148-155 | an entry leaves a map only if it is the one stored there |
| `Routing.ClassifiedBy` | enimul/internal/core/gfwlist.go:173-187 | a domain is routed by rule exactly when a rule matches it, by list exactly when no rule but the list and no bypass entry does |
| `FakeDns.FallbackFakeTTL` | enimul/internal/core/dns_hijack.go:229-254 | the smallest positive TTL of all sections, or the default |
| `FakeDns.RewriteFaithful` | enimul/internal/core/dns_hijack.go:101-137 | a rewritten section has no upstream address of the type, keeps all other records in order and answers for exactly the owner names that had one |
| `FakeDns.RewriteStandsFor` | enimul/internal/core/dns_hijack.go:101-217 | each rewritten record stands for the first record of the type with its owner name: same class, same TTL or 60 for none, and the fake address |
| `FakeDns.RewriteAnswers` | enimul/internal/core/dns_hijack.go:97-137 | the loop with its seen names computes that rewrite and allocates once, with the TTL of the first record of the type |
| `FakeDns.BuildFakeAddressResponse` | enimul/internal/core/dns_hijack.go:68-166 | upstream errors, failure codes and unmatched domains pass through; otherwise the allocation and the promised reply |
| `FakeDns.FakeReplyAddresses` | enimul/internal/core/dns_hijack.go:68-166 | every promised reply has an answer of the type, all of them the fake address, other records kept |
| `FakeDns.AllocateFakeIP` | enimul/internal/core/fake_ip.go:183-193 | allocation with the lifetime derived from the TTL |
| `FakeDns.HandleDNSQuery` | enimul/internal/core/dns_hijack.go:44-66 | the address family picks the store and leaves the other alone; all else passes through unchanged |
| `DialPlan.LookupDomainByIP` | enimul/internal/core/resolver.go:23-35 | the fake store of the family answers before the cache |
| `DialPlan.PlanRequest` | enimul/internal/core/dial_plan.go:66-176 | the straight-line code computes the plan function, all error exits included |
| `DialPlan.FakeDomainsMatch` | enimul/internal/core/dial_plan.go:66-176 | a plan for a recovered fake domain carries that domain, is matched unless blocked, and uses the list policy, the generated policy, or the default one when generation finds no rule, never the plain one |
| `PlanCases.ListedExactly` | enimul/internal/core/gfwlist.go:173-196 | a name is on a list exactly if a pattern of it matches |
| `PlanCases.FakedExactly` | enimul/internal/core/gfwlist.go:189-196 | a fake address is used exactly for a non-empty name that a rule matches, or the list and no bypass entry |
| `PlanCases.OrdinaryIsPlain` | enimul/internal/core/dial_plan.go:66-176 | a name that neither rules nor list match is not matched, not recovered, and gets the plain policy unless blocked |
| `PlanCases.RuledKeepsPolicy` | enimul/internal/core/dial_plan.go:66-176 | a name with a rule gets the generated policy, or the default one when generation finds none |
| `PlanCases.AddressKeepsPolicy` | enimul/internal/core/dial_plan.go:66-176 | an address without a recovered domain gets the generated policy and is never a matched domain |
| `PlanCases.DialsExactly` | enimul/internal/core/dial_plan.go:66-176 | port, target and policy of every plan: the port of the policy when positive, the NAT64 mapping exactly when asked for and the target is not an unrecovered fake address |
| `PlanCases.FailsExactly` | enimul/internal/core/dial_plan.go:66-176 | the empty-host and the failed-generation error, exactly |
| `DialPlan.EndToEnd` | enimul/internal/core/dial_plan.go:66-176 | an address handed out in a rewritten DNS answer leads back, after any run that keeps it alive, to its domain and a matched plan |
| `ShadowAead.IncCounts` | tun2socks/transport/shadowsocks/shadowaead/stream.go:200-207 | incrementing is plus one modulo 256^n on the little-endian value |
| `ShadowAead.NoncesDistinct` | tun2socks/transport/shadowsocks/shadowaead/stream.go:200-207 | no nonce repeats before the counter wraps |
| `ShadowAead.Increment` | tun2socks/transport/shadowsocks/shadowaead/stream.go:200-207 | the in-place carry loop computes that increment |
| `ShadowAead.Writer.WriteChunk` | tun2socks/transport/shadowsocks/shadowaead/stream.go:48-60 | one frame: sealed length and sealed payload under two consecutive nonces |
| `ShadowAead.Writer.Write` | tun2socks/transport/shadowsocks/shadowaead/stream.go:31-62 | a write sends the frames of its chunks and advances the nonce by two per chunk; an empty write sends a lone zero length |
| `ShadowAead.ChunkedSizes` | tun2socks/transport/shadowsocks/shadowaead/stream.go:31-62 | every chunk but the last has 16383 bytes and there are as few as possible |
| `ShadowAead.FrameLayout` | tun2socks/transport/shadowsocks/shadowaead/stream.go:48-60 | a frame is the sealed big-endian length followed by the payload sealed under the next nonce |
| `ShadowAead.EncodeAppend` | tun2socks/transport/shadowsocks/shadowaead/stream.go:31-62 | consecutive writes are one encoding with the nonce carried over |
| `ShadowAead.StreamIsEncode` | tun2socks/transport/shadowsocks/shadowaead/stream.go:31-62 | any series of writes is the encoding of all chunks in order |
| `ShadowAead.Reader.ReadChunk` | tun2socks/transport/shadowsocks/shadowaead/stream.go:106-137 | short input, failed authentication and zero length, and the nonces consumed in each case |
| `ShadowAead.ChunkOutcome` | tun2socks/transport/shadowsocks/shadowaead/stream.go:106-137 | what one read of a frame returns and consumes: end, truncation, failed authentication, zero length, or the opened payload of the length in the lower 14 bits |
| `ShadowAead.Reader.Read` | tun2socks/transport/shadowsocks/shadowaead/stream.go:140-161 | the left-over buffer and the direct path compute the receive function |
| `ShadowAead.TakeFrame` | tun2socks/transport/shadowsocks/shadowaead/stream.go:106-137 | reading a frame gives its payload and the writer's next nonce |
| `ShadowAead.ReceiveInStep` | tun2socks/transport/shadowsocks/shadowaead/stream.go:106-161 | reader and writer stay in step: every read returns the next bytes of the stream, and the end only at its end |
| `ShadowAead.DeliveredPrefix` | tun2socks/transport/shadowsocks/shadowaead/stream.go:140-161 | reads of any positive sizes deliver a prefix, and all of it with enough reads |
| `ShadowAead.RoundTrip` | tun2socks/transport/shadowsocks/shadowaead/stream.go:31-161 | whatever is written in any pieces is read back in any sizes |
| `SingleFlight.StepInv` | enimul/internal/singleflight/singleflight.go:70-94 | every atomic step of every caller keeps the invariant of map, calls and callers |
| `SingleFlight.AfterInv` | enimul/internal/singleflight/singleflight.go:70-164 | the invariant holds in every reachable state, for any number of callers |
| `SingleFlight.EnterEnabled` | enimul/internal/singleflight/singleflight.go:70-94 | a caller can always enter |
| `SingleFlight.OneFlightPerKey` | enimul/internal/singleflight/singleflight.go:70-94 | in every reachable state at most one execution per key is in flight |
| `SingleFlight.AfterTraced` | enimul/internal/singleflight/singleflight.go:118-164 | in every run a call has a result exactly if one step of the run executed its function, and only one did |
| `SingleFlight.FinishedAgree` | enimul/internal/singleflight/singleflight.go:70-164 | every finished caller returned the result of the one execution of its call, the call is gone from the map, and shared was reported exactly if two or more callers took part |
| `SingleFlight.FinishedForGood` | enimul/internal/singleflight/singleflight.go:118-133 | nobody joins a finished call and its result never changes |
| `SingleFlight.NewFlightAfterCompletion` | enimul/internal/singleflight/singleflight.go:118-133 | the next caller after completion starts a new call |
| `IpPool.RankedStable` | enimul/internal/core/ippool.go:280-285 | ranking permutes the results, puts nothing behind something with more loss, or as much loss and more latency, and keeps the order of level results |
| `IpPool.RankedBest` | enimul/internal/core/ippool.go:280-285 | no result left out of the first n has less loss, or equal loss and less latency, than one of them |
| `IpPool.CostExactly` | enimul/internal/core/ippool.go:295-302 | the cost is the latency in milliseconds times one plus the loss, plus 0.00001 |
| `IpPool.WeightExactly` | enimul/internal/core/ippool.go:295-302 | the weight is 10000 divided by the cost, rounded down, within 1 and 10000 |
| `IpPool.WeightMonotone` | enimul/internal/core/ippool.go:295-302 | an address that is no slower and loses no more never weighs less |
| `IpPool.Weight` | enimul/internal/core/ippool.go:295-302 | weights lie between 1 and 10000 |
| `IpPool.IPPool.UpdateBest` | enimul/internal/core/ippool.go:275-323 | the slots hold the results that no other beats, fewer losses first and lower latency among equals, with their weights; the rest weigh 0, the total is the sum of the valid weights; an empty scan changes nothing |
| `IpPool.IPPool.Get` | enimul/internal/core/ippool.go:338-360 | the address of the slot that owns the counter residue, never the fallback while an address is valid |
| `IpPool.Choose` | enimul/internal/core/ippool.go:351-359 | the accumulating loop always finds the owning slot |
| `RoundRobin.OneOwner` | enimul/internal/core/ippool.go:351-359 | no residue has two owners |
| `RoundRobin.ExactBeforeWrap` | enimul/internal/core/ippool.go:350-359 | a round of as many calls as the total weight in which the counter does not wrap chooses each slot exactly as often as its weight |
| `RoundRobin.LastSlotShort` | enimul/internal/core/ippool.go:350-359 | with several slots and a total that does not divide the modulus there is a round that chooses the last slot once too seldom |
| `RoundRobin.ExactIff` | enimul/internal/core/ippool.go:350-359 | for positive weights and any counter modulus not below the total: rounds are exact from every counter value if and only if there is one slot or the total divides the modulus |
| `RoundRobin.RoundIsExact` | enimul/internal/core/ippool.go:338-360 | consecutive calls on the 32-bit counter, counted: each slot as often as its weight, without a wrap, with one slot, or with a total dividing 2^32 |
| `IpPool.IPPool.GetMany` | enimul/internal/core/ippool.go:338-360 | a caller that asks for a whole round gets each address as often as its weight says under that condition |
| `IpPool.IPPool.RoundsExactIff` | enimul/internal/core/ippool.go:338-360 | for the weights of any pool: rounds on the 32-bit counter are exact from every value if and only if one address is valid or the total divides 2^32 |
| `RoundRobin.WrapBreaksRound` | enimul/internal/core/ippool.go:350-351 | with weights 1 and 2 the calls at 2^32-2, 2^32-1 and 0 choose the second slot once |
| `UdpRelay.CopyPacketData` | tun2socks/tunnel/udp.go:103-150 | the loop ends at the first turn whose outcome ends it, with that outcome, the deadlines it set and its stamp |
| `UdpRelay.ThirdTimeoutCaps` | tun2socks/tunnel/udp.go:117-139 | three timeouts in a row always reach the cap |
| `UdpRelay.AtMostThreeTimeouts` | tun2socks/tunnel/udp.go:103-150 | whatever the remote side sends, the origin loop takes at most three timeouts after an origin packet, the third ending it |
| `UdpRelay.ThreeTimeoutsHappen` | tun2socks/tunnel/udp.go:103-150 | the bound of three is reached |
| `UdpSession.StepInv` | tun2socks/tunnel/udp.go:103-150 | every atomic step of either loop and of the clock keeps the invariant of stamps, packets and turns |
| `UdpSession.RunInv` | tun2socks/tunnel/udp.go:69-150 | the invariant holds in every reachable state of the two interleaved loops |
| `UdpSession.StampIsLastPacket` | tun2socks/tunnel/udp.go:64-67 | in every reachable state a shared stamp is that of the last stamped packet of its direction, or the start of the session |
| `UdpSession.IdleExit` | tun2socks/tunnel/udp.go:127-138 | a loop timed out at n below its cap ends as idle if and only if everything the other loop has stamped was stamped more than the timeout before n |
| `UdpSession.SilentExactly` | tun2socks/tunnel/udp.go:126-144 | at an idle exit the peer had really received nothing within the timeout if and only if the other loop holds no unstamped packet that came within it |
| `UdpSession.UnstampedPacketMissed` | tun2socks/tunnel/udp.go:126-144 | a run in which a packet received within the timeout and not stamped yet is missed |
| `UdpSession.RenewalBounded` | tun2socks/tunnel/udp.go:103-150 | in every reachable state of the two loops the origin loop has completed at most three timeouts in a row |
| `UdpSession.TurnCompleted` | tun2socks/tunnel/udp.go:117-149 | each loop of the session runs as the copy loop does turn by turn |
| `UdpRelay.SameIpCanonical` | tun2socks/tunnel/udp.go:188-193 | address equality is equality of the 16-byte forms, so it is transitive |
| `UdpRelay.SymmetricNatPacketConn.ReadFrom` | tun2socks/tunnel/udp.go:174-202 | hands out the next datagram of the session, drops the others, and never changes a pinned peer |
| `UdpRelay.OnePeer` | tun2socks/tunnel/udp.go:174-202 | any two delivered datagrams with a UDP address come from the same address and the expected port |
| `UdpRelay.PeerDelivered` | tun2socks/tunnel/udp.go:174-202 | every datagram of the pinned peer is delivered |
| `UdpRelay.DeliveredExactly` | tun2socks/tunnel/udp.go:174-202 | from an unpinned session exactly these are delivered, in order: what has no address, what has another kind of address that reads as the destination, and what comes from the expected port and the address of the first such datagram |
| `UdpRelay.FirstReplyDelivered` | tun2socks/tunnel/udp.go:188-200 | the first datagram from the expected port is delivered, and so is every later one from its address and port |
| `HttpObfs.HeaderEndPrefix` | tun2socks/transport/simple-obfs/http.go:49-60 | the first delimiter is seen as soon as its last byte is, and more bytes do not move it |
| `HttpObfs.HeaderEndExactly` | tun2socks/transport/simple-obfs/http.go:49-60 | the header end is behind the first CR LF CR LF, and there is none exactly if the delimiter is nowhere |
| `HttpObfs.ReadHeader` | tun2socks/transport/simple-obfs/http.go:41-70 | for every segmentation: succeeds if and only if the header ends within 8 KiB and before the connection fails |
| `HttpObfs.HTTPObfs.ReadFirst` | tun2socks/transport/simple-obfs/http.go:41-81 | what does not fit the caller after the header is kept, none lost |
| `HttpObfs.HTTPObfs.CopyKept` | tun2socks/transport/simple-obfs/http.go:31-39 | kept bytes are handed on in order until none is left |
| `HttpObfs.HTTPObfs.Read` | tun2socks/transport/simple-obfs/http.go:30-83 | for all buffer sizes and segmentations: delivered, kept and coming bytes are the stream behind its first header end, in order, none lost or repeated |

## Left out

- The Android application, keep-alive receivers, the VPN service, the gVisor stack, dialers, devices, the REST API and logging: input and output over libraries.
- Upstream DNS clients, JSON decoding, list parsing and textual address parsing: addresses are numbers, patterns of the bit tries arrive parsed.
- Out-of-band data, waiting for acknowledgements, fake packets with a small time to live and send intervals: kernel behaviour; the splitting results hold with these switches off, and the adapter has no TTL mode.
- Panics and Goexit in singleflight: a result stands for a value and an error that the function returned.
- Buffer pools and the shared backing arrays of the shards: buffers are fresh values and each shard owns arrays as long as its slice; that the slices tile the backing arrays is proved by ShardDimensions.Carve.
- Mutexes and atomics other than in singleflight and the UDP session: a locked method is one atomic step.
- Eviction callbacks and metrics of the cache, and its unused operations.
- Clock and counter overflow of 64-bit values: time is an unbounded integer.
- 32-bit platforms: int is taken to be 64 bits wide in the address pool and the parsers.
- FreeLru.LRU.constructor: the error returns for a zero capacity or a size below it are modelled by ShardDimensions.Dimension only; here they are preconditions, which every caller in the program meets.
- ShardedLru.NewShardedWithSize: a cache whose shards have more capacity than slots is reported as its dimensions; what its operations do is not modelled.
- ShardedLru.ShardedLRU.constructor: takes the dimensions that ShardDimensions.Dimension computes, with a capacity that fits the size.
- FakeIp.Lower: lower-cases ASCII letters only; other letters are left alone.
- FakeIp.FakeIPStore.Allocate: the branch that reuses an expired entry met by the probe is left out; cleaning has removed all of them before the probe starts, which FakeIp.FakeIPStore.Probe requires.
- FakeDns.BuildFakeAddressResponse: records without a header and fake addresses that do not parse are not modelled.
- DialPlan.PlanRequest: policy generation, NAT64 mapping and the address-policy test are arbitrary functions; that generation yields a policy when it neither fails nor blocks is a precondition.
- IpTrie.BitTrie.Find: the re-check of the root after the walk is left out; the walk starts with the value of the root.
- ObfsHello.MakeClientHelloMsg: says nothing of messages whose lengths do not fit 16 bits.
- ShadowAead.RoundTrip: for writes of any length; an empty piece counts as no write, since Write sends a lone zero length for it that the reader reports as an error. ReadFrom, WriteTo and failing writes of the underlying stream are left out.
- ShadowAead.Reader.Read: returns the bytes instead of filling a slice.
- SingleFlight.StepInv: completing a call and removing it from the map is one step, as both happen under the mutex.
- IpPool.Weight: computed over the reals, without floating-point rounding.
- IpPool.IPPool.constructor: the number of slots is an 8-bit number in the source, so it is below 256 here.
- UdpRelay.CopyPacketData: clock, reads and the other direction's stamp are inputs of each turn, and a finite list of turns stands for a loop that goes on; UdpSession has the two loops with their shared stamps.
- UdpSession.RunInv: that the end of the origin loop closes both connections is left to the steps in which a read fails.
- HttpObfs.HTTPObfs.Read: the writing side with its random request header is left out.
