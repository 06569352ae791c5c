# MOSN proxy core: model and proofs

A Dafny model of the parts of the MOSN proxy whose correctness spans several functions or whole runs:

- **Membership and the subset load balancer** (`HostDiff`, `Subsets`, `SubsetTrie`, `SubsetBalancer`, `Cluster`,
  `SortedKeys`, `Hosts`). A host-list diff feeds an index of subsets that is updated in place. The main result is that
  after any run of updates every entry of the index equals the naive filter over the current hosts.
- **IoBuffer** (`IoBuffers`). The buffer, with its slice, offset and capacity, refines a byte queue, and the copying done by
  growth is bounded. The bound is three bytes for each byte written, it is tight, and it needs the way `Write` slides:
  `Append` has no bound.
- **Bolt V1** (`Bytes`, `Decimals`, `MapSerializer`, `BoltCodec`, `BoltDispatch`, `Forwarding`). Encoder and incremental
  decoder, independence from how bytes are cut into reads, and the exact condition under which forwarding a command
  through a header map preserves it.
- **Multiplexing and accounting** (`Correlation`, `StreamHistory`, `Accounting`, `Admission`). Responses stay with their requests in every
  interleaving, exactly as long as requests keep their ID for the kind of response they get, forwarded or the proxy's own,
  and the 32-bit ID counter has not come round; circuit-breaker units are conserved; the overshoot of concurrent admission
  is exactly the number of callers less one.
- **Balancing, writing, health, routing** (`RoundRobin`, `WriteLoop`, `HealthCheck`, `VirtualHosts`).

Objects that the program updates in place are classes, loops are methods with invariants, and each is proved against a
specification function about which the properties are then proved. Protocols between goroutines (`Correlation`,
`Admission`, `WriteLoop`) are state machines whose runs interleave steps in any order. The iteration order of Go maps is
left open everywhere. Readers, writers, clocks, the connection outcome, lowercasing and the random choice of a host are
parameters or left open.

Where the code and its comments differ, the model follows the code. The comment on virtual hosts ranks the default domain
above wildcard domains; the code tries wildcards first, except that a default without any exact domain beside it always
wins. A subset without a healthy host is reported as a successful choice of a missing host, whose address is then read;
`ChooseHost` models that as a panic. An unknown request type is meant to close the connection, but the error text is
never equal to the one it is compared with. A threshold of zero in the health checker is met only when the counter wraps.

## Model

| member | source | states |
|---|---|---|
| HostDiff.UpdateDynamicHostList | pkg/upstream/cluster/concreteclusters.go:32-76 | both loops compute the final, added and removed lists of the specification, report a change exactly when one of the two is non-empty, and give every kept host object the weight of the first new host with its address |
| HostDiff.TakeMatching | pkg/upstream/cluster/concreteclusters.go:46-57 | the inner loop shrinks the slice it walks, terminates, and splits it into the hosts with the address and the rest, both in order |
| HostDiff.DeduplicatedFacts | pkg/upstream/cluster/concreteclusters.go:32-76 | only the first host of each address survives and no address is lost |
| HostDiff.KeptOneForOne | pkg/upstream/cluster/concreteclusters.go:32-76 | the final list answers the new list one for one, with the existing object wherever the address already has one |
| HostDiff.DiffMoves | pkg/upstream/cluster/concreteclusters.go:32-76 | for every two lists the diff is a membership change: nothing lost, nothing invented, addresses stay distinct, and the resulting address set is the one asked for |
| HostDiff.DiffChanges | pkg/upstream/cluster/concreteclusters.go:32-76 | added and removed never share an address, and both are empty exactly when the two address sets are equal |
| HostDiff.MetadataFollows | pkg/upstream/cluster/concreteclusters.go:32-76 | the final list carries the metadata asked for if and only if every host that stays was asked for with the metadata it already had |
| HostDiff.DiffSnoc | pkg/upstream/cluster/concreteclusters.go:32-76 | how one more new host changes all three lists, the step of the outer loop |
| HostDiff.WithoutAppend | pkg/upstream/cluster/concreteclusters.go:32-76 | removing hosts keeps the order of the rest |
| SortedKeys.InitSet | pkg/types/upstream.go:375-397 | the same keys, strictly sorted, hence each once |
| SortedKeys.SortedUnique | pkg/types/upstream.go:375-397 | a set of keys has only one strictly sorted form, so selectors and criteria with the same keys agree position by position |
| SortedKeys.BelowIff | pkg/types/upstream.go:375-397 | the order of strings: a proper prefix comes first, otherwise the first difference decides |
| SortedKeys.GenerateSubsetKeys | pkg/upstream/cluster/subsetlbimpl.go:566-586 | every configured selector survives in sorted form, each once, and no other |
| SortedKeys.ExtractMatchCriteria | pkg/router/configutility.go:161-204 | criteria are strictly sorted by key and are exactly the text entries of the metadata, for every order of map iteration |
| Subsets.HostMatches | pkg/upstream/cluster/subsetlbimpl.go:221-235 | true exactly for hosts that carry every pair |
| Subsets.RemoveWhileRanging | pkg/upstream/cluster/subsetlbimpl.go:430-437 | the loop that cuts the backing array it is ranging over, skipping one element and re-reading a stale one, still removes exactly the hosts with that address and keeps the order of the rest |
| Subsets.GetFinalHosts | pkg/upstream/cluster/subsetlbimpl.go:414-440 | equals: append added hosts with new addresses, then drop the addresses removed |
| Subsets.FilterAppend | pkg/upstream/cluster/subsetlbimpl.go:379-412 | filtering keeps the order |
| Subsets.MergedAppend | pkg/upstream/cluster/subsetlbimpl.go:414-428 | hosts that are there stay in place, and hosts with new addresses follow in their order |
| Hosts.HealthyAppend | pkg/upstream/cluster/subsetlbimpl.go:379-412 | the snapshot of healthy hosts keeps the order |
| Subsets.UpdateKeepsExact | pkg/upstream/cluster/subsetlbimpl.go:379-440 | the incremental update turns a subset that is exact before a membership change, or already exact after it, into the exact subset after it |
| Subsets.UntouchedStaysExact | pkg/upstream/cluster/subsetlbimpl.go:187-217 | a subset that no host of the change belongs to needs no visit |
| Subsets.FreshIsExact | pkg/upstream/cluster/subsetlbimpl.go:459-487 | a subset built from the whole host list is exact |
| Subsets.ExactIsUnique | pkg/upstream/cluster/subsetlbimpl.go:414-440 | exactness determines the subset up to order |
| Subsets.PrioritySubset.constructor | pkg/upstream/cluster/subsetlbimpl.go:459-487 | a new subset holds exactly the hosts of the original set that satisfy its predicate |
| Subsets.PrioritySubset.Update | pkg/upstream/cluster/subsetlbimpl.go:379-412 | filters both lists, merges and removes, and takes a snapshot of the healthy hosts |
| Subsets.PrioritySubset.Follow | pkg/upstream/cluster/subsetlbimpl.go:489-499 | after a membership change the subset is exact for the new list |
| SubsetTrie.Trie.FindSubset | pkg/upstream/cluster/subsetlbimpl.go:238-264 | finds the entry of the path, and nothing exactly when the path is empty or not there |
| SubsetTrie.Trie.FindOrCreateSubset | pkg/upstream/cluster/subsetlbimpl.go:268-313 | returns the entry of the path; every older entry keeps its place and only prefixes of the path are added |
| SubsetTrie.Entry.AddChild | pkg/upstream/cluster/subsetlbimpl.go:268-313 | adds one child and leaves every other child reachable as before |
| SubsetBalancer.ExtractSubsetMetadata | pkg/upstream/cluster/subsetlbimpl.go:319-348 | the values of the keys in order, or nothing if one is missing |
| SubsetBalancer.ExtractedIff | pkg/upstream/cluster/subsetlbimpl.go:319-348 | a host contributes a path if and only if the path has the keys of the selector and the host carries all its pairs |
| SubsetBalancer.SubsetLoadBalancer.constructor | pkg/upstream/cluster/subsetlbimpl.go:42-70 | the index is exact from the start |
| SubsetBalancer.SubsetLoadBalancer.Visit | pkg/upstream/cluster/subsetlbimpl.go:187-217 | one visit makes the visited subset exact, keeps exact subsets exact and adds at most that one |
| SubsetBalancer.SubsetLoadBalancer.ProcessSubsets | pkg/upstream/cluster/subsetlbimpl.go:187-217 | whichever of the two lists is processed first, afterwards every subset is exact for the new hosts and every host is in the index under each selector it has the keys for |
| SubsetBalancer.SubsetLoadBalancer.AllDone | pkg/upstream/cluster/subsetlbimpl.go:187-217 | visiting the hosts of a change is enough: subsets not visited are exact too |
| SubsetBalancer.SubsetLoadBalancer.UpdateFallbackSubset | pkg/upstream/cluster/subsetlbimpl.go:154-184 | there is a fallback subset unless the policy is NoFallBack; under AnyEndPoint it holds every host, under DefaultSubset exactly the hosts whose metadata has each default pair, and its healthy hosts are the ones without a health flag |
| SubsetBalancer.SubsetLoadBalancer.FallbackHolds | pkg/upstream/cluster/subsetlbimpl.go:154-184 | the same of every balancer whose fallback subset is exact |
| SubsetBalancer.SubsetLoadBalancer.Update | pkg/upstream/cluster/subsetlbimpl.go:73-102 | the callback keeps the whole index and the fallback exact |
| SubsetBalancer.SubsetLoadBalancer.FindSubset | pkg/upstream/cluster/subsetlbimpl.go:238-264 | for criteria with the keys of a selector: the entry found holds exactly the hosts that carry them, and if there is none no host does; an entry for other keys has no subset |
| SubsetBalancer.SubsetLoadBalancer.ChooseHost | pkg/upstream/cluster/subsetlbimpl.go:105-151 | criteria that lead to an entry give a healthy host of its subset that carries them, and a nil dereference if and only if the entry has no subset or the subset no healthy host; otherwise the host is a healthy one of the fallback subset and, under DefaultSubset, has each default pair, and there is none if and only if there is no fallback or it has no healthy host |
| Cluster.SimpleInMemCluster.constructor | pkg/upstream/cluster/concreteclusters.go:85-93 | an empty cluster whose selectors are the configured ones |
| Cluster.SimpleInMemCluster.UpdateHosts | pkg/upstream/cluster/concreteclusters.go:95-134 | the host list stays as it is, object by object, when no address comes or goes, and is that of the diff otherwise; addresses become those of the new list and stay distinct, every subset agrees with the naive filter, and exactly the weights of hosts met again are taken over |
| Cluster.SimpleInMemCluster.Publish | pkg/upstream/cluster/host.go:72-87 | the host set is replaced before the callback runs, and the balancer follows |
| Cluster.SimpleInMemCluster.SubsetForRoute | pkg/upstream/cluster/subsetlbimpl.go:134-151 | route metadata with the keys of a selector, in any order, finds exactly the hosts that meet it, and nothing only if none does |
| Cluster.CriteriaMeetSelector | pkg/router/configutility.go:161-204 | sorted criteria have exactly the key sequence of the sorted selector with the same keys |
| Cluster.Run | pkg/upstream/cluster/concreteclusters.go:95-134 | after any run of updates on a fresh cluster the hosts are what the updates leave one after the other, the whole index is exact for them under the selectors configured, the fallback subset is what the policy says host by host, with a current snapshot of the healthy ones, and the addresses are those of the last update |
| Cluster.SimpleInMemCluster.ChooseDefault | pkg/upstream/cluster/subsetlbimpl.go:105-132 | without criteria a host is chosen exactly when a host that the policy allows has no health flag, and the choice is such a host |
| Cluster.RunAndChoose | pkg/upstream/cluster/subsetlbimpl.go:105-132 | the same after any run of updates, in terms of the hosts the updates leave |
| IoBuffers.IoBuffer.WithCapacity | pkg/network/buffer/iobuffer.go:384-391 | an empty buffer of that capacity |
| IoBuffers.IoBuffer.FromBytes | pkg/network/buffer/iobuffer.go:400-405 | a buffer that holds the given bytes |
| IoBuffers.IoBuffer.Write | pkg/network/buffer/iobuffer.go:179-187 | appends exactly the given bytes, through every growth path, at the copying cost of the shape function |
| IoBuffers.IoBuffer.TryGrowByReslice | pkg/network/buffer/iobuffer.go:189-197 | succeeds exactly when the capacity allows, and moves nothing |
| IoBuffers.IoBuffer.Grow | pkg/network/buffer/iobuffer.go:199-236 | sliding, reslicing and reallocating all leave the unread bytes unchanged, followed by the room asked for |
| IoBuffers.IoBuffer.Append | pkg/network/buffer/iobuffer.go:262-286 | appends exactly the given bytes |
| IoBuffers.IoBuffer.MakeRoom | pkg/network/buffer/iobuffer.go:262-286 | keeping, sliding or reallocating leaves the contents unchanged |
| IoBuffers.IoBuffer.ReadFrom | pkg/network/buffer/iobuffer.go:139-177 | everything the reader delivers up to and with the first end of file, error or empty delivery ends up at the end of the buffer, however the free space cuts it up; end of file is not an error |
| IoBuffers.IoBuffer.ReadOnce | pkg/network/buffer/iobuffer.go:65-137 | exactly what the rounds take, each offering all free space, until an error, a read that leaves space, or more than MaxRead bytes; what is reported as read is at the end of the buffer, and only bytes that come together with an error are dropped |
| IoBuffers.IoBuffer.Read | pkg/network/buffer/iobuffer.go:48-63 | removes exactly the prefix it returns; end of file exactly for an empty buffer and a non-empty destination |
| IoBuffers.IoBuffer.WriteTo | pkg/network/buffer/iobuffer.go:238-260 | the writer receives a prefix and the buffer keeps exactly the rest; it goes on until the contents are gone, the writer fails, takes nothing or claims too much |
| IoBuffers.IoBuffer.Peek | pkg/network/buffer/iobuffer.go:294-300 | the prefix, or nothing if there are too few bytes, and no change |
| IoBuffers.IoBuffer.Bytes | pkg/network/buffer/iobuffer.go:313-315 | the unread bytes |
| IoBuffers.IoBuffer.Cut | pkg/network/buffer/iobuffer.go:317-332 | the cut part and what remains are the old contents; an offset past the end changes nothing |
| IoBuffers.IoBuffer.Drain | pkg/network/buffer/iobuffer.go:334-341 | removes exactly that many bytes; an offset past the end changes nothing |
| IoBuffers.IoBuffer.Reset | pkg/network/buffer/iobuffer.go:355-359 | the buffer is empty and the slice stays |
| IoBuffers.StepPays | pkg/network/buffer/iobuffer.go:179-236 | an operation pays for its copying with three units a byte written or from the potential if and only if it is not an Append that slides more than has been saved up for |
| IoBuffers.CopyingIsAmortized | pkg/network/buffer/iobuffer.go:179-236 | over any run from an empty buffer in which every step pays, at most three bytes are copied for each byte written |
| IoBuffers.WritingIsAmortized | pkg/network/buffer/iobuffer.go:179-236 | with Write as the only way to add bytes the bound holds for every run |
| IoBuffers.ThreeIsTight | pkg/network/buffer/iobuffer.go:199-236 | no constant below three bounds the copying of Write |
| IoBuffers.AppendingHasNoBound | pkg/network/buffer/iobuffer.go:262-286 | with Append there is no bound at all: for every ratio some run exceeds it |
| IoBuffers.FirstInFirstOut | pkg/network/buffer/iobuffer.go:48-63 | in the byte queue that calls are compared with, what was put in is what has left followed by what is there |
| IoBuffers.Perform | pkg/network/buffer/iobuffer.go:179-341 | one call on a buffer takes from its front and adds to its end what it does to the byte queue, at the cost of the shape function |
| IoBuffers.PerformAll | pkg/network/buffer/iobuffer.go:179-341 | after any run of calls on a new buffer the contents are those of the byte queue and, unless some step slides more than has been saved up for, at most three bytes were copied for each byte written |
| IoBuffers.ReadConserves | pkg/network/buffer/iobuffer.go:139-177 | a read moves bytes from what is pending and loses none |
| IoBuffers.TakesDeliveries | pkg/network/buffer/iobuffer.go:139-177 | reading on never stops at a delivery with data and without an error |
| IoBuffers.RoundsStop | pkg/network/buffer/iobuffer.go:65-137 | ReadOnce stops only with more than MaxRead bytes or after whole deliveries, at least one |
| IoBuffers.WriteStops | pkg/network/buffer/iobuffer.go:238-260 | WriteTo stops short without an error only when the writer took nothing |
| IoBuffers.FailureEndsWriting | pkg/network/buffer/iobuffer.go:238-260 | the first failing call is the last one made and is reported, every call before it took some bytes, and without a failure or an empty call everything is written |
| IoBuffers.FirstBytes | pkg/network/buffer/iobuffer.go:199-236 | the first bytes of a zero buffer go into its 64 inline bytes if they fit, and otherwise into a slice of their size |
| IoBuffers.SlidesFirst | pkg/network/buffer/iobuffer.go:65-137 | ReadOnce moves fewer than 4096 unread bytes to the front first and leaves more where they are |
| Decimals.ParsePrinted | pkg/protocol/sofarpc/adapter.go:50-79 | parsing a printed number as an integer of some width gives it back, or the largest value of the width if it does not fit |
| Decimals.PrintsPositional | pkg/protocol/sofarpc/adapter.go:50-79 | a printed number stands for itself in base ten |
| Decimals.ParseUintIs | pkg/protocol/sofarpc/adapter.go:50-79 | digits are read in base ten; a byte that is no digit makes zero unless the digits before it exceed the width, which makes the largest value |
| Decimals.ParseSigned | pkg/protocol/sofarpc/adapter.go:50-79 | a minus sign negates and clamps at the least value of the width, a plus sign means nothing |
| Decimals.DecimalInjective | pkg/protocol/util.go:54-56 | different numbers have different strings |
| MapSerializer.EncodeMap | pkg/protocol/serialize/simple.go:168-189 | the bytes are the encodings of the entries in some order, whatever the iteration order, and decode to the map |
| MapSerializer.DecodeMap | pkg/protocol/serialize/simple.go:133-160 | computes the specification decoder, with its two ways to fail and with a last value that runs on into the spare capacity of the slice, into a map that may already hold entries |
| MapSerializer.SpareMatters | pkg/protocol/serialize/simple.go:133-160 | spare capacity matters only where the slice itself runs out |
| MapSerializer.RoundTrip | pkg/protocol/serialize/simple.go:133-189 | for every map of short enough strings and every iteration order, decoding the encoding gives the map back |
| MapSerializer.EntryLayout | pkg/protocol/serialize/simple.go:162-189 | an entry on the wire is key and value, each behind its length in four bytes, most significant first |
| MapSerializer.DecodeFaults | pkg/protocol/serialize/simple.go:133-160 | after any whole entries, bytes that end inside a length are reported with the entries kept, and a length beyond the end is out of range, at a key as at a value |
| MapSerializer.EncodingInjective | pkg/protocol/serialize/simple.go:168-189 | equal encodings come only from equal maps |
| MapSerializer.DecodedEntries | pkg/protocol/serialize/simple.go:133-160 | whatever decodes is the encoding of the entries read from it |
| MapSerializer.EncodingNotLonger | pkg/protocol/serialize/simple.go:168-189 | writing a decoded map again, with repeated keys merged, never takes more bytes |
| BoltCodec.EncodeHeaders | pkg/protocol/sofarpc/codec/boltv1codec.go:100-195 | the buffer holds exactly the encoding of the command, field by field; it panics exactly when fixed header, class length and header map add up to a negative capacity |
| BoltCodec.Decode | pkg/protocol/sofarpc/codec/boltv1codec.go:276-421 | a complete frame is drained and returned, and otherwise nothing is touched |
| BoltCodec.DecodeWire | pkg/protocol/sofarpc/codec/boltv1codec.go:276-421 | a frame decodes to its command and leaves exactly what follows |
| BoltCodec.WireLayout | pkg/protocol/sofarpc/codec/boltv1codec.go:100-195 | the position and meaning of every byte of a frame |
| BoltCodec.DecodeIff | pkg/protocol/sofarpc/codec/boltv1codec.go:276-421 | for any bytes: types above 2 are unknown once twenty bytes are there, and otherwise there is a frame exactly when as many bytes are there as its fixed header announces |
| BoltCodec.DecodePrefix | pkg/protocol/sofarpc/codec/boltv1codec.go:276-421 | with fewer bytes the decoder reports either the same frame or that it is incomplete, never another frame |
| BoltCodec.ProperPrefixIncomplete | pkg/protocol/sofarpc/codec/boltv1codec.go:276-421 | no proper prefix of a frame decodes |
| BoltCodec.WireOfDecoded | pkg/protocol/sofarpc/codec/boltv1codec.go:276-421 | whatever decodes is the wire form of its command, except for the protocol byte, which the decoder does not look at |
| BoltCodec.ReencodeIff | pkg/protocol/sofarpc/codec/boltv1codec.go:100-195 | encoding a decoded command reproduces the frame if and only if it said protocol 1 and its class name is shorter than 2^15 bytes |
| BoltCodec.BufferIff | pkg/protocol/sofarpc/codec/boltv1codec.go:104-105 | a decoded command asks for a negative capacity if and only if its class name has 2^15 bytes or more and the frame without content fewer than 2^16, and no command that reproduces its frame does |
| BoltCodec.DecodedNumbers | pkg/protocol/sofarpc/codec/boltv1codec.go:276-421 | what the decoder makes of any fixed header, with every truncation to 16 and 32 bits |
| BoltDispatch.DispatchBuffer | pkg/protocol/sofarpc/protocols.go:95-123 | the loop terminates and yields the commands, leftover bytes and error of the specification |
| BoltDispatch.DispatchExtends | pkg/protocol/sofarpc/protocols.go:95-123 | more bytes do not change what was done with the bytes before them |
| BoltDispatch.ReadsDoNotMatter | pkg/protocol/sofarpc/protocols.go:95-123 | for every byte stream and every way of cutting it into reads: the same commands as in one read, an error exactly when that has one, always the same one and once if it closes the connection, and the same leftover but for bytes behind a close |
| BoltDispatch.StuckReads | pkg/stream/sofarpc/stream.go:155-182 | an unknown request type does not close the connection: the frame is reported again after every read and nothing behind it comes out |
| BoltDispatch.FramesComeOut | pkg/protocol/sofarpc/handler/boltcommandhandler.go:34-44 | any sequence of frames with codes 0, 1 and 2 comes out as it went in, whatever follows |
| BoltDispatch.UnknownCodeStops | pkg/protocol/sofarpc/handler/boltcommandhandler.go:56-77 | a frame with any other code ends the loop with an error; the frames before it come out and exactly the bytes behind it stay |
| BoltDispatch.FaultsStop | pkg/protocol/sofarpc/protocols.go:95-123 | another protocol byte and an unknown type end the loop with their errors, and less than two bytes without one, and take nothing off the buffer |
| BoltDispatch.RestIsSettled | pkg/protocol/sofarpc/protocols.go:95-123 | the leftover contains no further frame |
| Forwarding.DeserializeAllFields | pkg/protocol/sofarpc/handler/boltrequestprocessor.go:110-148 | the header map is the fields of the command with the user headers on top; a short header keeps what was read before it, and spare bytes of the slice count as in decodeMap |
| Forwarding.GetPropertyValue | pkg/protocol/sofarpc/adapter.go:33-48 | the property is returned and taken out of the map |
| Forwarding.ConvertMap | pkg/protocol/sofarpc/codec/boltv1codec.go:197-274 | property by property equals the specification of mapToCmd, including refusal and the choice between request and response |
| Forwarding.LeftForHeader | pkg/protocol/sofarpc/codec/boltv1codec.go:197-274 | what is left for the header map is the user map without the reserved names |
| Forwarding.NotDiverted | pkg/stream/sofarpc/streamhelper.go:28-79 | user headers that avoid the reserved names never divert a command into an error reply or a refusal |
| Forwarding.FateIs | pkg/stream/sofarpc/streamhelper.go:28-79 | for every command and all user headers: answered by the proxy, refused, panicking or relayed, and as which kind, in terms of status, protocol, code and the properties that are there |
| Forwarding.ReservedNames | pkg/protocol/sofarpc/types.go:33-47 | the names a user header must avoid |
| Forwarding.NegativeIsLargest | pkg/protocol/sofarpc/handler/boltresponseprocessor.go:100-140 | negative numbers come back as the largest value of their width |
| Forwarding.TimeComesBack | pkg/protocol/sofarpc/handler/boltresponseprocessor.go:125 | the receive time of a response is read back whole |
| Forwarding.GoodForward | pkg/protocol/sofarpc/codec/boltv1codec.go:197-274 | the conversion to a header map and back is the identity up to clamping of numbers and the request ID |
| Forwarding.ForwardableArrives | pkg/protocol/sofarpc/codec/boltv1codec.go:100-145 | under the condition, header and content decode to one frame with the same fields and the same user headers |
| Forwarding.ArrivedIsForwardable | pkg/protocol/sofarpc/codec/boltv1codec.go:197-274 | and nothing else arrives unchanged |
| Forwarding.ForwardingPreservesIff | pkg/protocol/sofarpc/codec/boltv1codec.go:197-274 | forwarding preserves a request or response, whatever order the header map is written in, if and only if the user headers avoid the reserved names, the class name is below 2^15 bytes, content and timeout below 2^31 and the status not negative |
| Forwarding.BareArrives | pkg/protocol/sofarpc/codec/boltv1codec.go:197-274 | of requests that differ in the timeout only, exactly those below 2^31 arrive, so both sides of the condition occur |
| Correlation.IdsDistinct | pkg/protocol/util.go:33-41 | stream IDs are distinct until the 32-bit counter comes round |
| Correlation.IdSurvives | pkg/stream/sofarpc/streamhelper.go:28-79 | a request ID survives being kept as a header string |
| Correlation.KeepsIdIff | pkg/protocol/sofarpc/handler/boltrequestprocessor.go:110-148 | a request keeps its ID, for forwarded responses and for own ones, unless a user header named requestid reads as another: user headers are written over the fields of the frame, a forwarded response parses 32 bits without sign and one built by the proxy a signed number cut to 32 bits |
| Correlation.NumberIs | pkg/protocol/sofarpc/types.go:291-293 | the number every printed header value stands for, signed and unsigned, for both kinds of response |
| Correlation.RecognisedIff | pkg/stream/sofarpc/stream.go:184-212 | a request opens a stream exactly when the user headers leave protocol 1 or 2 and type 1 |
| Correlation.RepliesIff | pkg/protocol/sofarpc/types.go:282-320 | the proxy can answer a request itself exactly when the user headers leave protocol 1, cut to a byte |
| Correlation.RelaysIff | pkg/stream/sofarpc/streamhelper.go:28-79 | a request reaches the upstream exactly when the user headers leave protocol 1 and code 1 and no status diverts it |
| Correlation.ReceiveConsistent | pkg/stream/sofarpc/stream.go:184-212 | a stream is opened for a recognised request only and keeps the ID of the header map; the invariant stays and the new stream ID is in use nowhere |
| Correlation.SendConsistent | pkg/stream/sofarpc/stream.go:106-118 | a client stream and its frame lead back to the request that owns the ID |
| Correlation.ReplyConsistent | pkg/stream/sofarpc/stream.go:120-147 | a reply, repeated or late, reaches only the stream of the request it answers |
| Correlation.AnswerReachesOwner | pkg/stream/sofarpc/stream.go:120-147 | the client stream under an ID leads to the connection of the request that has the ID |
| Correlation.EndStreamConsistent | pkg/stream/sofarpc/stream.go:268-328 | a response restores the ID the stream kept, in the reading of its kind, a request that is answered is no longer active, and a response that cannot be encoded writes nothing |
| Correlation.StepConsistent | pkg/stream/sofarpc/stream.go:106-328 | every step of every connection keeps the invariant |
| Correlation.RespondConsistent | pkg/stream/sofarpc/stream.go:268-328 | a response of the upstream, forwarded, replaced by one of the proxy or not encodable, keeps the invariant and answers no request twice |
| Correlation.LocalReplyConsistent | pkg/proxy/downstream.go:758-765 | a reply of the proxy itself keeps the invariant and answers no request twice, also when it comes late or again |
| Correlation.ResponsesAreCorrelated | pkg/stream/sofarpc/stream.go:106-328 | in every interleaving, with at most 2^32 IDs issued, every response written answers a recognised request of that connection under the ID its stream kept, as responses of that kind read it, and no request is answered twice; so the IDs are right exactly when every request answered kept its ID for the kind of answer it got |
| Correlation.LocalRun | pkg/stream/sofarpc/stream.go:120-134 | as long as no recognised request reaches the upstream, however many there are, every response is a reply of the proxy to a request of that connection under the ID it kept, and requests that are not recognised get none |
| StreamHistory.LocalReplyIff | pkg/protocol/sofarpc/adapter.go:33-48 | in every run a reply of the proxy itself goes out exactly when the stream is active, its request has protocol 1, and every earlier sending of that request found it hijacked; otherwise nothing changes |
| StreamHistory.SentGetsNoReply | pkg/proxy/downstream.go:631 | after a request was sent and not hijacked, a reply of the proxy for a reset or timeout changes nothing |
| StreamHistory.EveryResponseHasItsStep | pkg/stream/sofarpc/stream.go:302-328 | every response was written by one step: a response of the upstream to that request, or a reply to a request not sent before |
| StreamHistory.OnlyUnsentAnswered | pkg/proxy/downstream.go:758-765 | in a run without responses of the upstream every request answered had not been sent, or was hijacked |
| StreamHistory.StreamLife | pkg/stream/sofarpc/stream.go:184-212 | a stream that is active was opened by a recognised request, is that request, and nothing has ended it since |
| StreamHistory.StreamLasts | pkg/stream/sofarpc/stream.go:302-328 | a stream that was opened stays active until its connection closes or a response ends it; a second request under its ID leaves it alone |
| StreamHistory.SenderLife | pkg/stream/sofarpc/stream.go:184-212 | the proxy holds the sender of the last stream opened under an ID |
| StreamHistory.SenderLasts | pkg/stream/sofarpc/stream.go:184-212 | and holds it until the connection closes |
| StreamHistory.ClientLife | pkg/stream/sofarpc/stream.go:106-118 | a client stream belongs to the last request sent under its ID |
| StreamHistory.ClientLasts | pkg/stream/sofarpc/stream.go:120-147 | and is there until a reply with content or a new upstream connection |
| StreamHistory.FramesAreSent | pkg/stream/sofarpc/stream.go:106-147 | frames at the upstream and first answers never exceed the sendings, and equal them without a reconnect |
| StreamHistory.ResponsesAreHanded | pkg/stream/sofarpc/stream.go:120-147 | each reply that finds a client stream is handed on once, and each response taken up was handed on |
| Correlation.WrongReply | pkg/protocol/sofarpc/types.go:282-300 | for every recognised request with protocol 1 that does not keep its ID for own responses a run in which the reply of the proxy goes out under another |
| Correlation.WrongResponse | pkg/stream/sofarpc/streamhelper.go:28-67 | for every request that reaches the upstream and does not keep its ID for one kind of response a run through the upstream in which a response of that kind goes out under another |
| Correlation.FateAnyId | pkg/stream/sofarpc/stream.go:136-147 | whether a request is forwarded, answered by the proxy or dropped does not depend on the stream ID it gets |
| Correlation.CleanIsHarmless | pkg/stream/sofarpc/stream.go:106-118 | a request whose user headers avoid the reserved names reaches the upstream and is harmless if and only if at most 2^32 IDs are issued |
| Correlation.AnsweredUnderFive | pkg/protocol/sofarpc/types.go:291-293 | two failing inputs, each decoded from its own header bytes and the only request of its run: ID 7 with requestid = 5, and ID 0 with requestid = +5, which a forwarded response would number rightly; the proxy answers both under 5 |
| Correlation.WrongAnswer | pkg/protocol/util.go:33-41 | for every larger number of IDs a run in which connection 1 receives the answer to a request of connection 0 |
| Correlation.CorrelatedIff | pkg/stream/sofarpc/stream.go:106-328 | for every set of requests and every n: all runs with n requests from the set are correlated if and only if n is zero or every recognised request of the set that can get an own response keeps its ID for it, and every one that reaches the upstream keeps it for both kinds and n is at most 2^32 |
| Accounting.Resource.CanCreate | pkg/upstream/cluster/resourcemanager.go:95-103 | room exactly when the counter is below the maximum |
| Accounting.Resource.Added | pkg/stream/codecclient.go:126-136 | taking a unit and putting a new request on a list keeps the counter equal to the number of active requests |
| Accounting.Resource.Removed | pkg/stream/codecclient.go:198-211 | taking an active request off its list and giving its unit back keeps it too |
| Accounting.Client.DeleteRequest | pkg/stream/codecclient.go:198-211 | only the first call for a request has an effect; it removes exactly that request and gives back exactly one unit |
| Accounting.Client.Reset | pkg/stream/codecclient.go:185-191 | a reset gives the unit back, and a reset after completion changes nothing |
| Accounting.Client.Complete | pkg/stream/codecclient.go:193-196 | a completed response gives the unit back and stops listening |
| Accounting.Client.OnEvent | pkg/stream/codecclient.go:148-170 | RemoteClose, LocalClose, OnReadErrClose, OnWriteErrClose, ConnectFailed and ConnectTimeout reset every active request once, in order, with the reason the flag calls for, and empty the list that is being walked; OnConnect and Connected reset nothing |
| Accounting.ConnPool.NewStream | pkg/stream/sofarpc/connpool.go:51-76 | admitted exactly when a client is there or can be had and the counter is below the maximum; otherwise nothing is taken |
| Accounting.ConnPool.OnConnectionEvent | pkg/stream/sofarpc/connpool.go:84-97 | on those six events the units of all requests of the client come back, no request of another client is touched, and the pool forgets the client it uses; on OnConnect and Connected nothing changes |
| Accounting.CounterIsTotal | pkg/stream/sofarpc/connpool.go:65-76 | the counter is the total length of the lists of all clients of all pools, and never negative |
| Accounting.Upstream.NewStream | pkg/stream/sofarpc/connpool.go:51-76 | exactly the client and the request that the outcome calls for are new, the request last and active, and every other pool and request is as before |
| Accounting.Upstream.End | pkg/stream/codecclient.go:185-211 | a reset or completion of request i gives back its unit if it held one, takes it off its list, and touches no other |
| Accounting.Upstream.OnEvent | pkg/stream/sofarpc/connpool.go:84-97 | one of the six events on client i ends exactly its requests, empties its list and makes its pool forget the client in use; the other two change nothing |
| Accounting.Upstream.Do | pkg/stream/sofarpc/connpool.go:51-97 | every step does to the objects what it does to a ledger of numbers |
| Accounting.LedgerGrows | pkg/stream/codecclient.go:198-211 | requests keep their client, and a unit given back is never held again |
| Accounting.ClosedForGood | pkg/stream/sofarpc/connpool.go:84-97 | from the step on that ends the connection of a client no request of that client ever holds a unit and no pool ever uses the client |
| Accounting.Upstream.AllForgotten | pkg/stream/sofarpc/connpool.go:84-97 | and so the objects: the list is empty and every request has given its unit back |
| Accounting.Run | pkg/stream/sofarpc/connpool.go:51-97 | after any run over any number of pools the objects are as the ledger of its steps says; the counter is the number of units held and the total of the lists, between zero and the maximum, and no request gave its unit back twice; a client whose connection was ended at any step is forgotten |
| Admission.RunWithin | pkg/upstream/cluster/resourcemanager.go:95-111 | with the test and the increment as separate steps, units taken and about to be taken never exceed the peak |
| Admission.CounterIsBalance | pkg/upstream/cluster/resourcemanager.go:95-111 | the counter is the units taken less the units given back |
| Admission.AllTake | pkg/stream/sofarpc/connpool.go:65-70 | a run in which all callers see the last free unit and all take one |
| Admission.PeakIsExact | pkg/stream/sofarpc/connpool.go:51-76 | a number bounds the counter over all runs of T callers if and only if it is at least max + T - 1, or zero when the maximum or T is zero |
| RoundRobin.RoundRobinLoadBalancer.ChooseHost | pkg/upstream/cluster/loadbalancer.go:86-111 | one call does what the cursor function says, with the 32-bit arithmetic of the code |
| RoundRobin.ChooseWalks | pkg/upstream/cluster/loadbalancer.go:86-111 | a call answers with the place it is at in the round over all priorities and moves to the next place |
| RoundRobin.PicksWalk | pkg/upstream/cluster/loadbalancer.go:86-111 | any number of consecutive calls reads off a window of the round |
| RoundRobin.Fair | pkg/upstream/cluster/loadbalancer.go:86-111 | with N hosts and E empty priorities, any N + E consecutive calls from any cursor return every host as often as it is listed and nothing exactly E times |
| WriteLoop.StepInv | pkg/network/connection.go:304-424 | every step of a writer or the loop keeps the invariant |
| WriteLoop.SendNeverBlocks | pkg/network/connection.go:325-327 | in every reachable state a writer about to send on the one-slot channel can do so, although it holds the mutex |
| WriteLoop.NoLostWakeUp | pkg/network/connection.go:334-373 | bytes in the buffer mean a pending signal, a loop that has not seen the buffer empty, or a writer that has still to signal |
| WriteLoop.SocketIsPrefix | pkg/network/connection.go:404-424 | the socket has a prefix of everything written, call by call in the order of the mutex, and the rest is in the buffer or with the writer inside |
| WriteLoop.WorkIsBounded | pkg/network/connection.go:334-424 | without new calls and with a socket that takes bytes only boundedly many steps are left |
| WriteLoop.StuckMeansDelivered | pkg/network/connection.go:334-424 | when no such step is left everything written has reached the socket |
| WriteLoop.CallsAreSteps | pkg/network/connection.go:304-332 | what counts as written is the arguments of the calls of the run, in the order of the mutex |
| WriteLoop.PiecesArrive | pkg/network/connection.go:304-424 | when each call passes one piece of data, nil buffers aside, the socket has a prefix of the pieces at all times and all of them when the loop can only stop |
| WriteLoop.StoppedIff | pkg/network/connection.go:334-424 | the loop has stopped exactly when some write failed other than by a timeout, and nothing reaches the socket after that |
| HealthCheck.HealthCheckSession.HandleSuccess | pkg/upstream/healthcheck/healthchecker.go:221-242 | the counters and the flag change as specified and every other flag bit stays |
| HealthCheck.HealthCheckSession.SetUnhealthy | pkg/upstream/healthcheck/healthchecker.go:244-268 | the same for a failure |
| HealthCheck.HealthCheckSession.Run | pkg/upstream/healthcheck/healthchecker.go:221-268 | after any history the flags are the old ones with this flag as specified, and the changes reported are the specified ones; a host without flags is healthy afterwards exactly when the history does not call for the flag, whose value is 1 |
| HealthCheck.FlagBits | pkg/upstream/cluster/host.go:166-183 | setting and clearing the flag touch only its bit |
| HealthCheck.Hysteresis | pkg/upstream/healthcheck/healthchecker.go:221-268 | the flag is up if and only if some run of enough failures has ended and no run of enough successes has ended since; a threshold of zero counts as 2^32 |
| HealthCheck.ChangedIff | pkg/upstream/healthcheck/healthchecker.go:221-268 | a change is reported exactly when the flag flips |
| VirtualHosts.NewRouteMatcher | pkg/router/routematcher.go:56-118 | accepted if and only if every virtual host is valid and no domain repeats after lowercasing; then the tables hold exactly the domains, with the lengths in descending order, and otherwise the first fault is reported |
| VirtualHosts.AddDomain | pkg/router/routematcher.go:74-106 | a domain goes into the one table it belongs to, or is refused as a duplicate, and the other tables stay |
| VirtualHosts.SortedLengths | pkg/router/routematcher.go:112-115 | exactly the lengths in use, strictly descending, for every order of the map |
| VirtualHosts.FindWildcardVirtualHost | pkg/router/routematcher.go:176-193 | the longest wildcard whose suffix is shorter than the host, and nothing exactly when there is none |
| VirtualHosts.FindVirtualHost | pkg/router/routematcher.go:151-173 | the choice follows the rule over the accepted domains: a default without exact domains, then exact, then longest wildcard, then default |
| VirtualHosts.SelectsOne | pkg/router/routematcher.go:151-193 | the rule determines the choice, so the order of map iteration cannot matter |
| VirtualHosts.Serve | pkg/router/routematcher.go:56-173 | from configuration and headers to the choice: a request whose lowercased host is a configured domain after lowercasing gets the virtual host that lists it, and every other request what the rule selects |
| VirtualHosts.DomainsListed | pkg/router/routematcher.go:70-106 | the domains of an accepted configuration are those listed, lowercased, each with the virtual host that lists it |
| VirtualHosts.ListedIsServed | pkg/router/routematcher.go:151-173 | a virtual host gets the requests for each domain it lists that has no star |
| VirtualHosts.SuffixIsServed | pkg/router/routematcher.go:176-193 | a virtual host that lists a suffix behind a star gets the hosts that end so, unless the host or a longer suffix is listed, or the star alone and no domain without one |
| VirtualHosts.StarIsServed | pkg/router/routematcher.go:151-173 | the virtual host that lists the star gets what is left, and without one nothing is chosen |
| VirtualHosts.AcceptedPermuted | pkg/router/routematcher.go:74-106 | acceptance depends only on how often each domain entry occurs |
| VirtualHosts.OrderDoesNotMatter | pkg/router/routematcher.go:56-118 | a configuration with its virtual hosts in another order is accepted exactly when this one is, and with the same domains |

## Left out

- Cluster.Run: priorities other than 0, because every caller uses priority 0 only.
- SubsetBalancer.SubsetLoadBalancer.ChooseHost: which healthy host the picker inside a subset returns; `RoundRobin` treats round robin on its own, and the random picker has nothing to prove.
- SortedKeys.ExtractMatchCriteria: criteria inherited from a parent route, because no caller passes a parent.
- HealthCheck.HealthCheckSession.HandleSuccess: timers, statistics and callbacks.
- RoundRobin.RoundRobinLoadBalancer.ChooseHost: host sets of 2^32 or more hosts, whose length the code truncates.
- Correlation.ResponsesAreCorrelated: heartbeats, which use raw request IDs, retries, one-way requests, and decode errors; responses whose own user headers make them look like requests, and what an upstream sends for a frame that is not an RPC request; the streams are a state machine over values, so aliasing between a stream and its copy in the map is not captured, apart from the request headers that sending takes apart.
- Correlation.EndStreamConsistent: the lookup, the write and the removal of a stream are three lock acquisitions in the code and one step here, so "no request is answered twice" rests on the events of one stream being handled one after the other.
- BoltCodec.EncodeHeaders: the slab pool that may supply the buffer is not part of this model; the buffer is always a new one.
- A user header that makes the class length negative: the encoder may then ask for a negative capacity, and whether that panics depends on the slab pool; `Forwarding` and `Correlation` go on as if the buffer were there.
- Accounting.ConnPool.NewStream: other goroutines between its statements, apart from the counter steps that `Admission` separates, and the 64-bit stream total.
- WriteLoop.SocketIsPrefix: write filters, watermarks, closing with flush, and handing a connection over to a new process.
- VirtualHosts.NewRouteMatcher: a configuration of the wrong type, and the contents of a virtual host.
- IoBuffers.IoBuffer.ReadOnce: the read deadline and the type test on the reader.
- IoBuffer Clone, AppendByte, Mark and Restore: Clone returns an empty buffer, AppendByte ignores its argument, and the mark does not follow the contents.
- Sizes beyond the address space: allocation failures and overflow of Go's int.
- Health refresh of host sets and RemoveClusterHosts: they edit slices shared with the cluster's own list, so distinct addresses do not survive them.
- Bolt V2: the V2 response branch never drains its frame, so the dispatch loop does not terminate on it.
- Proxy streams, filters, routes inside a virtual host, retries and timeouts: they depend on the worker pool and on timers.
- Listeners, sockets, TLS, HTTP/1 and HTTP/2 streams, xDS, configuration, logging, metrics and signals: input and output, foreign libraries or field copying.
