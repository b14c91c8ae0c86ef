# Verified model of the resolver, list and NAT64 code

This project models four parts of the repository in Dafny and proves what they promise.

* **DNS wire codec** (`dns64_query_c/dnsquery.c`, `dnsquery/dnsquery.cc`). `Bytes`, `Labels` and `NameScan`
  define the byte scanner of `ReadName` and, independently, the label-wise decoder of section 4.1.4 of RFC 1035.
  `NameReader` is `ReadName` itself: the growing buffer, the scanning loop and the in-place compaction over an
  array. `QueryEncoder` holds the two encoders (the C one, which leaves a dot in its caller's buffer, and the C++
  one, which works on a copy), `Answers` the walk over the answer section and a serializer of section 4.1.3 of
  RFC 1035, and `Extraction` the single-threaded `socket_gethostbyname` from query to address table. `DnsFormat` holds
  the sizes and codes they share.
* **Three-thread resolver race** (`dns64_query_c/dns_v6/dnsquery.c`). `ResolverRace` is a transition system in which
  every step reads or writes one shared variable; `size++` and the failure counter are a read and a separate write,
  and the index of every stored octet is read afresh. Theorems speak of all states of all runs. `ResolverProgress`
  adds what can still happen: workers stop, main returns what it sees, every server can win.
* **Intrusive circular list** (`list.h`). `LinkedRing` has the operations on heap nodes, `ListWorld` any number of
  lists at once with runs of all ten operations, and `ListTraversal` the two traversals.
* **NAT64 address synthesis** (`ipv4toipv6.cpp`, `nat64_prefix_util.cc`). `Nat64` defines the address format of
  section 2.2 of RFC 6052 once and proves the shift-and-mask embedding, the recovery of the prefix length, the
  recognition of synthesized answers and the in-place replacement against it.

`KnownVectors` spells out a query, a reply, the table of section 2.4 of RFC 6052 and the addresses of RFC 7050 octet by
octet, so that every number and byte order the other modules share is fixed from outside.

Seven promises of the code hold only on part of their inputs. For each, the exact condition is proved:

* `ReadName` is not the decoder of RFC 1035 on every name. It looks for control octets inside labels too, so a label
  with an octet 0 or from 192 on is misread: `ReadNameExact` says it agrees with the decoder if and only if all
  labels are plain (and the name fits its buffer). `ControlOctetsMisread` gives two names that are misread, one as no
  name at all and one as other text with a wrong octet count.
* A host comes back from encoding and reading if and only if `Survives` admits it (`HostRoundTrip`); labels come back
  from being joined to a host if and only if none contains a dot (`LabelsSurvive`).
* Replacing the IPv4 part of a synthesized address agrees with direct embedding, for all addresses put in, if and
  only if the address is `Recoverable`: it ends non-zero, or the prefix has 96 bits and the zeros at the end are not
  one of 3, 4, 5, 6 and 8 (`ReplaceRefinesEmbed`). Behind every 64-bit prefix 10.0.0.0 is read as if the prefix had 40
  bits (`SixZerosMisread`).
* The second of two replacements wins if and only if the first one left a recoverable address (`ReplaceTwice`).
* A returned failure means that every started worker has failed if and only if the two static counters start out
  trustworthy (`FailureMeansAllFailed`). They do on the first call of a process and are never reset.
  `CountersGoStale` says when a first call leaves them trustworthy: exactly as long as no worker of its own has failed
  to start or been counted, and never when it returns a failure. A call that starts from stale counters can give up
  while its own workers are still asking (`EarlyFailure`).
* Once all workers have stopped, main's poll is decided in every run if and only if the server number starts out three
  ahead of the failure count, as it does on a first call (`QuiescenceDecides`). Otherwise there is a run in which all
  workers fail to start and main polls for good (`StuckPoll`, `UndecidedPolls`). Under the same condition, and only
  then, a return can still be reached from every point of every run (`AlwaysReturns`).
* A literal yields exactly one address in every run if and only if no reply carries a second one (`LiteralYieldsOne`):
  main's store of 1 to the size is not synchronized with the winner, which may still be counting and can undo it
  altogether (`StoreCanBeLost`). From a given state on, the size stays 1 if and only if the winner has appended its
  last address (`SizeStaysOne`).

Preconditions are those of the C code. `NameAt` is undefined where the code would leave the message or its buffer,
run forever, or, for the root name, write in front of the buffer; `ReadName` asks that it is defined. Length octets
from 64 to 191, which section 2.3.4 of RFC 1035 does not use, are lengths for the decoder here because they are for
the code, so every name RFC 1035 allows is covered.

## Model

| member | source | states |
|---|---|---|
| Bytes.NetworkOrder | dns64_query_c/dnsquery.c:399-417 | the first octet of a field is the most significant one |
| NameScan.PointerBits | dns64_query_c/dnsquery.c:450-452 | a pointer leads to the low 14 bits of its two octets |
| NameScan.ScanPlain | dns64_query_c/dnsquery.c:449-455 | only plain octets are copied, and without a pointer the count is their number plus the terminator |
| NameScan.ScanWithinLength | dns64_query_c/dnsquery.c:449-475 | a scan ends at all exactly when it ends within as many steps as the message has octets |
| NameScan.BackwardEnds | dns64_query_c/dnsquery.c:449-475 | pointers that target before the current segment make the scan end |
| NameScan.DecodeIsBackward | dns64_query_c/dnsquery.c:449-475 | every name the label-wise decoder accepts has such pointers when its labels are clean |
| NameScan.CapacitySteps | dns64_query_c/dnsquery.c:434-474 | the buffer has 256 octets and gains 64 when the count reaches its size |
| NameScan.PointerFirstFits | dns64_query_c/dnsquery.c:456-474 | a name that starts with a pointer fits if and only if it has fewer than 256 octets |
| NameScan.GrowthSuffices | dns64_query_c/dnsquery.c:434-477 | growing by the octet count fits every uncompressed name and every compressed name of at most 255 octets |
| NameScan.ScanRefinesDecode | dns64_query_c/dnsquery.c:449-479 | on clean labels the byte scanner copies the wire form of what the label-wise decoder reads, with the same octet count |
| NameScan.ReadNameExact | dns64_query_c/dnsquery.c:431-495 | text is the labels joined by dots and count the octets at the original position, if and only if the labels are plain and fit |
| NameScan.ControlOctetsMisread | dns64_query_c/dnsquery.c:448-459 | a label with the octet 200 is taken for a pointer out of the message, one with 192 for a pointer to other text that is returned with a wrong count |
| NameScan.DecodeWire | dns64_query_c/dnsquery.c:448-455 | length-prefixed labels in a message decode to themselves in front of whatever ends the name |
| Labels.UnpackWire | dns64_query_c/dnsquery.c:481-491 | splitting length-prefixed octets recovers the labels |
| Labels.UnpackInverse | dns64_query_c/dnsquery.c:481-491 | the split is undone by the wire form, and plain octets give clean labels |
| Labels.LengthWraps | dns64_query_c/dnsquery.c:505 | the length octet is the length modulo 256 |
| NameReader.Grow | dns64_query_c/dnsquery.c:461-474 | after the growth check the buffer has exactly the capacity its count calls for and keeps its octets |
| NameReader.ScanName | dns64_query_c/dnsquery.c:431-479 | the loop stores the scanned octets and terminator inside the buffer and returns the octet count |
| NameReader.CompactLabel | dns64_query_c/dnsquery.c:483-490 | one label moves down over its length octet and a dot follows, nothing else changes |
| NameReader.HalfDoneLength | dns64_query_c/dnsquery.c:482 | the text length that the loop condition recomputes stays constant throughout |
| NameReader.Compact | dns64_query_c/dnsquery.c:481-493 | the wire form in the buffer becomes the labels joined by dots; octets behind it are untouched |
| NameReader.ReadName | dns64_query_c/dnsquery.c:431-495 | the C string and count returned are the name at the position |
| QueryEncoder.AppendDot | dns64_query_c/dnsquery.c:500 | the caller's host gains one dot |
| QueryEncoder.CutStep | dns64_query_c/dnsquery.c:503-513 | each step of the two-index loop keeps the labels cut so far and the rest equal to the whole split |
| QueryEncoder.WriteLabels | dns64_query_c/dnsquery.c:503-515 | the loop writes the length-prefixed segments of the text and a terminator, and nothing else |
| QueryEncoder.ChangetoDnsNameFormat | dns64_query_c/dnsquery.c:498-516 | qname and host after the in-place encoder |
| QueryEncoder.FinishPacket | dns64_query_c/dnsquery.c:518-544 | header, name and question with the question placed by the name's first zero octet |
| QueryEncoder.PrepareDnsQueryPacket | dns64_query_c/dnsquery.c:518-544 | the packet of the computed length, and the dot left in the host |
| QueryEncoder.PrepareDnsQueryPacketByValue | dnsquery/dnsquery.cc:552-600 | the packet for a host passed by value, for either address family |
| QueryEncoder.AppendedDotIsHidden | dns64_query_c/dnsquery.c:498-544 | a dot left behind by an earlier call does not show in the name sent |
| QueryEncoder.PacketStable | dns64_query_c/dnsquery.c:313 | after any number of earlier calls the packet equals the one for the original host |
| QueryEncoder.PrepareRepeatedly | dns64_query_c/dnsquery.c:498-544 | after any number of calls on one host buffer the octets sent are still those for the original host, and the buffer holds one dot for each call |
| QueryEncoder.HostRoundTrip | dns64_query_c/dnsquery.c:431-516 | reading the encoded host gives the host and its octets written, if and only if no label is empty or over 191 octets and no octet is 192 or more |
| QueryEncoder.LabelsSurvive | dns64_query_c/dnsquery.c:498-516 | encoding joined labels gives the wire form of these labels, if and only if none contains a dot |
| QueryEncoder.LabelsRoundTrip | dns64_query_c/dnsquery.c:431-516 | clean labels without dots come back from joining, encoding and decoding, and the text read is the host |
| QueryEncoder.QueryReadsBack | dns64_query_c/dnsquery.c:518-544 | a reader of the packet finds one question with the host, type and class, recursion desired, and nothing behind it |
| Answers.AnswerCountOctets | dns64_query_c/dnsquery.c:399 | ANCOUNT is read in network order and cut at 20 |
| Answers.FixedFields | dns64_query_c/dnsquery.c:406-413 | type, class, time to live and data length follow each other in network order |
| Answers.AddressRecordOctets | dns64_query_c/dnsquery.c:401-424 | the octets of an AAAA record of 16 octets are read as that and the cursor moves behind them |
| Answers.OtherDataIsName | dns64_query_c/dnsquery.c:425-428 | data of any other type is read as a name and the cursor follows the name, whatever the length field says |
| Answers.RecordsInOrder | dns64_query_c/dnsquery.c:401-428 | slot k holds the record at cursor k, and the next cursor is right behind it |
| Answers.PointerOctets | dns64_query_c/dnsquery.c:450-452 | a serialized pointer is two octets that read as 0xC000 and the offset |
| Answers.SerializeConcat | dns64_query_c/dnsquery.c:401-428 | resources are serialized one behind the other |
| Answers.ReadData | dns64_query_c/dnsquery.c:409-427 | AAAA data is copied by its length, other data is read as a name |
| Answers.ReadOneAnswer | dns64_query_c/dnsquery.c:402-427 | one round yields the record at the cursor and the cursor behind it |
| Answers.ReadRecvAnswer | dns64_query_c/dnsquery.c:396-429 | the first min(20, ANCOUNT) slots hold the records in order, the others are untouched |
| Answers.NameReadsBack | dns64_query_c/dnsquery.c:431-495 | a serialized name, compressed or not, reads back as all its labels and takes the octets written |
| Answers.RecordReadsBack | dns64_query_c/dnsquery.c:401-428 | a serialized record comes back unchanged and the cursor is the offset of the next one |
| Answers.RecordsReadBack | dns64_query_c/dnsquery.c:396-429 | reading inverts the serializer for any number of records from the front of every list of AAAA records and single-name records |
| Extraction.AddressesInOrder | dns64_query_c/dnsquery.c:350-357 | each AAAA record's 16 octets stand behind the addresses of the records before it |
| Extraction.AppendAddress | dns64_query_c/dnsquery.c:352-357 | sixteen octets go to the row at size, other rows stay, size grows by one |
| Extraction.CollectAddresses | dns64_query_c/dnsquery.c:345-359 | the rows are the AAAA records' addresses in order and size is their number |
| Extraction.QueryFits | dns64_query_c/dnsquery.c:307-312 | the send buffer takes the query if and only if the host has at most 65518 octets |
| Extraction.SocketGetHostByName | dns64_query_c/dnsquery.c:306-372 | the table holds the AAAA subsequence of the first min(20, ANCOUNT) answers, and 0 is returned exactly when it is non-empty |
| Extraction.SentAddressesReported | dns64_query_c/dnsquery.c:343-359 | of the answers a server serialized, however many, the addresses among the first 20 are the addresses found |
| Extraction.SentConcat | dns64_query_c/dnsquery.c:350-357 | the addresses sent are those of each part of the answers in turn |
| Extraction.ResolveAnswers | dns64_query_c/dnsquery.c:306-372 | the table, size and return value are those addresses in the order sent, their number, and 0 exactly when there is one |
| ResolverRace.WorkerKeepsInv | dns64_query_c/dns_v6/dnsquery.c:290-300 | every worker step keeps locks, sizes, slots and counters consistent |
| ResolverRace.MainKeepsInv | dns64_query_c/dns_v6/dnsquery.c:301-352 | so does every step of main, its unlocked reads and stores included |
| ResolverRace.RunInv | dns64_query_c/dns_v6/dnsquery.c:290-352 | the invariant holds in every state of every interleaving |
| ResolverRace.OneReplyOnly | dns64_query_c/dns_v6/dnsquery.c:483-505 | up to main's store of 1 the first size entries are a prefix of the mutex holder's addresses, and size is at most 20 |
| ResolverRace.WritesStayInTable | dns64_query_c/dns_v6/dnsquery.c:485-491 | no octet is stored outside the table, and none in slot 0 once size is positive |
| ResolverRace.WinnerFixed | dns64_query_c/dns_v6/dnsquery.c:484-504 | once size is positive it stays so and the same worker holds the mutex for good |
| ResolverRace.WinnerStays | dns64_query_c/dns_v6/dnsquery.c:497-503 | a mutex holder whose reply has an address never loses the mutex in any step |
| ResolverRace.WorkerLeavesFirst | dns64_query_c/dns_v6/dnsquery.c:485-491 | no worker step changes slot 0 once size is positive |
| ResolverRace.FirstAddress | dns64_query_c/dns_v6/dnsquery.c:331-341 | slot 0 is the winner's first address until main rewrites it, and ends as that address with the literal put in |
| ResolverRace.LiteralSynthesized | dns64_query_c/dns_v6/dnsquery.c:381-396 | when the winner's first address is recoverable, slot 0 ends as the direct embedding of the literal |
| ResolverRace.ZeroMeansResult | dns64_query_c/dns_v6/dnsquery.c:334-341 | 0 is returned only with a positive size and a worker that found addresses |
| ResolverRace.FailureKept | dns64_query_c/dns_v6/dnsquery.c:344-349 | with trustworthy counters a returned failure means that every started worker has failed |
| ResolverRace.EarlyFailure | dns64_query_c/dns_v6/dnsquery.c:67-68 | with stale counters a run exists in which main gives up while a worker is still asking |
| ResolverRace.FailureMeansAllFailed | dns64_query_c/dns_v6/dnsquery.c:290-352 | failure can be relied on in all runs exactly when the counters start out trustworthy |
| ResolverRace.CountersGoStale | dns64_query_c/dns_v6/dnsquery.c:67-68 | the counters a first call leaves behind are trustworthy exactly while no worker has failed to start or been counted, and never after a returned failure |
| ResolverRace.FailureMeansNothing | dns64_query_c/dns_v6/dnsquery.c:344-349 | on a first call a failure also means size 0 and an untouched table |
| ResolverRace.WorkersConserved | dns64_query_c/dns_v6/dnsquery.c:290-352 | running, blocked, succeeded, failed-uncounted workers and the failure count add up to the server number |
| ResolverRace.QuiescenceDecides | dns64_query_c/dns_v6/dnsquery.c:331-351 | in every run main's poll finds a result or the full failure count once no worker can step, if and only if the counters start out three apart |
| ResolverRace.StuckPoll | dns64_query_c/dns_v6/dnsquery.c:313-351 | counters that start out any other distance apart leave main polling, when no worker can be created, for a count it cannot reach |
| ResolverRace.UndecidedPolls | dns64_query_c/dns_v6/dnsquery.c:331-351 | without either, main polls in every continuation and no other variable changes |
| ResolverRace.SizeSettles | dns64_query_c/dns_v6/dnsquery.c:391 | once the winner has appended its last address, size changes only by main's store of 1 and the rows behind the first not at all |
| ResolverRace.SizeStaysOne | dns64_query_c/dns_v6/dnsquery.c:391 | after main's store the size stays 1 in every continuation, if and only if the winner has appended all its addresses |
| ResolverRace.LiteralYieldsOne | dns64_query_c/dns_v6/dnsquery.c:391 | in every run of a literal host the size after main's store is 1, if and only if no reply holds two addresses |
| ResolverProgress.StepShortens | dns64_query_c/dns_v6/dnsquery.c:290-300 | every step of a worker brings it closer to its end |
| ResolverProgress.WorkersStop | dns64_query_c/dns_v6/dnsquery.c:290-300 | in every run the workers take at most 59 steps each and 50 for every answer, however long main polls |
| ResolverProgress.PollStep | dns64_query_c/dns_v6/dnsquery.c:331-391 | a positive size makes the poll end in 0, or in the store of 1 for a literal; the full failure count makes it end in -1; else it goes on |
| ResolverProgress.MainReturns | dns64_query_c/dns_v6/dnsquery.c:331-396 | from every decided poll main alone returns, with 0 for a result it sees, the replacement included, and -1 otherwise |
| ResolverProgress.SizeDecidesReturn | dns64_query_c/dns_v6/dnsquery.c:331-351 | with trustworthy counters that is 0 if and only if size is positive |
| ResolverProgress.AlwaysReturns | dns64_query_c/dns_v6/dnsquery.c:301-352 | from every point of every run a return can be reached, if and only if the counters start out three apart |
| ResolverProgress.SilentServer | dns64_query_c/dns_v6/dnsquery.c:292-298 | a worker whose server never answers is counted once and changes nothing else |
| ResolverProgress.RunsAlone | dns64_query_c/dns_v6/dnsquery.c:290-300 | a worker that nobody hinders runs to its end, and succeeds when its reply has an address |
| ResolverProgress.AnsweringServer | dns64_query_c/dns_v6/dnsquery.c:481-505 | the worker that is first ends with its addresses in the table and the mutex, or gives it back and is counted when it has none |
| ResolverProgress.AnyServerCanWin | dns64_query_c/dns_v6/dnsquery.c:301-396 | whichever server has an address, a run returns its addresses, or its first one with the literal put in |
| ResolverProgress.NoAnswerFails | dns64_query_c/dns_v6/dnsquery.c:290-352 | when no server answers a run returns -1 with every worker counted |
| ResolverProgress.StoreCanBeLost | dns64_query_c/dns_v6/dnsquery.c:483-491 | a winner that has read the size before main's store of 1 can write back the full number of its addresses |
| LinkedRing.MutualInverses | tcp打洞测试/p2p_transfer_tcp/p2p_transfer_server/list.h:45-49 | next and prev of every node of a ring undo each other |
| LinkedRing.AddBetween | tcp打洞测试/p2p_transfer_tcp/p2p_transfer_server/list.h:95-104 | the cycle gains the entry at the given place |
| LinkedRing.Unlink | tcp打洞测试/p2p_transfer_tcp/p2p_transfer_server/list.h:81-86 | the cycle of any node closes over it, its neighbours linked to each other, while it keeps its links; a node linked to itself stays so |
| LinkedRing.SpliceBetween | tcp打洞测试/p2p_transfer_tcp/p2p_transfer_server/list.h:165-181 | the entries of the other ring stand at the given place in order; an empty source changes nothing |
| LinkedRing.IsEmpty | tcp打洞测试/p2p_transfer_tcp/p2p_transfer_server/list.h:61-65 | true exactly for a head without entries |
| LinkedRing.IsFirst | tcp打洞测试/p2p_transfer_tcp/p2p_transfer_server/list.h:67-72 | true exactly for the first entry |
| LinkedRing.IsLast | tcp打洞测试/p2p_transfer_tcp/p2p_transfer_server/list.h:74-79 | true exactly for the last entry |
| LinkedRing.ListAdd | tcp打洞测试/p2p_transfer_tcp/p2p_transfer_server/list.h:139-143 | the entry becomes the first |
| LinkedRing.ListAddTail | tcp打洞测试/p2p_transfer_tcp/p2p_transfer_server/list.h:145-149 | the entry becomes the last |
| LinkedRing.ListDel | tcp打洞测试/p2p_transfer_tcp/p2p_transfer_server/list.h:88-93 | the cycle loses the node, whose links become null, whether it had neighbours or not |
| LinkedRing.ListDelInit | tcp打洞测试/p2p_transfer_tcp/p2p_transfer_server/list.h:106-111 | the cycle loses the node, which is linked to itself afterwards, also when it was before |
| ListWorld.AlwaysEnabled | tcp打洞测试/p2p_transfer_tcp/p2p_transfer_server/list.h:81-207 | two lists, an entry and a node on no list are all the operations ask for |
| ListWorld.AddTo | tcp打洞测试/p2p_transfer_tcp/p2p_transfer_server/list.h:139-149 | adding among other lists keeps all of them rings of their own |
| ListWorld.MoveTo | tcp打洞测试/p2p_transfer_tcp/p2p_transfer_server/list.h:151-163 | moving within a list, next to the head included, between two lists, or from a node linked to itself |
| ListWorld.InitThen | tcp打洞测试/p2p_transfer_tcp/p2p_transfer_server/list.h:106-163 | after list_del_init the node can be initialised, deleted, moved or added again, with the effect the operation would have had on the entry |
| ListWorld.SpliceTo | tcp打洞测试/p2p_transfer_tcp/p2p_transfer_server/list.h:183-193 | source entries precede or follow the target's; an empty source is a no-op |
| ListWorld.SpliceToInit | tcp打洞测试/p2p_transfer_tcp/p2p_transfer_server/list.h:195-207 | as above, and the source is an empty ring afterwards |
| ListWorld.SpliceConserves | tcp打洞测试/p2p_transfer_tcp/p2p_transfer_server/list.h:195-207 | no node is lost or gained and both orders are kept |
| ListWorld.OthersKept | tcp打洞测试/p2p_transfer_tcp/p2p_transfer_server/list.h:81-207 | lists an operation does not name keep their entries and share no node with what it may write |
| ListWorld.Execute | tcp打洞测试/p2p_transfer_tcp/p2p_transfer_server/list.h:81-207 | every operation refines its sequence operation and writes only the lists it names; the links of the head, the entry and its old neighbours are those of the end named by the operation |
| ListWorld.Run | tcp打洞测试/p2p_transfer_tcp/p2p_transfer_server/list.h:81-207 | any run of the ten operations, on entries and on nodes linked to themselves, refines the run of sequence operations |
| ListTraversal.ForEach | tcp打洞测试/p2p_transfer_tcp/p2p_transfer_server/list.h:117-118 | visits every entry once, in order |
| ListTraversal.ForEachSafe | tcp打洞测试/p2p_transfer_tcp/p2p_transfer_server/list.h:120-121 | visits every original entry once, in order, whatever subset is deleted; exactly the others remain, in order, and deleted links are null |
| Nat64.EmbedLayout | ipv6测试/rfc6052/ipv4toipv6.cpp:17-87 | the octets of an embedded address from left to right for each of the six prefix lengths |
| Nat64.ShiftMaskDigits | ipv6测试/rfc6052/ipv4toipv6.cpp:26-29 | shifting by 0, 8, 16 and 24 takes a word apart from its least significant octet on |
| Nat64.ShiftMaskBits | ipv6测试/rfc6052/ipv4toipv6.cpp:26-29 | that agrees with shifts and masks on 32 bits |
| Nat64.ShiftMaskOctets | ipv6测试/rfc6052/ipv4toipv6.cpp:26-29 | on a little-endian host shifting and masking yields the octets in memory order |
| Nat64.Ipv4ToIpv6 | ipv6测试/rfc6052/ipv4toipv6.cpp:13-89 | the six branches build the address of section 2.2 of RFC 6052 for any prefix; other lengths are refused |
| Nat64.GetSuffixZeroCount | 微信mars阅读日志/testnat64/nat64_prefix_util.cc:110-120 | the number of zero octets at the end |
| Nat64.PrefixLengthRecovered | 微信mars阅读日志/testnat64/nat64_prefix_util.cc:110-214 | an IPv4 address that ends non-zero gives every prefix length away |
| Nat64.MatchExact | 微信mars阅读日志/testnat64/nat64_prefix_util.cc:131-212 | the comparison selected by the suffix holds exactly for embeddings of the compared address |
| Nat64.IsNat64AddrValid | 微信mars阅读日志/testnat64/nat64_prefix_util.cc:121-214 | accepts exactly the embeddings of the probe addresses, up to octet 8 for 64-bit prefixes |
| Nat64.Octet8Open | 微信mars阅读日志/testnat64/nat64_prefix_util.cc:128-140 | behind a 64-bit prefix octet 8 may be anything |
| Nat64.ProbeEmbeddingsAccepted | 微信mars阅读日志/testnat64/nat64_prefix_util.cc:121-214 | every direct embedding of a probe address is such an answer |
| Nat64.ReplaceNat64WithV4IP | 微信mars阅读日志/testnat64/nat64_prefix_util.cc:215-254 | the address in place becomes the stores of the branch its suffix selects |
| Nat64.ReplaceOctets | 微信mars阅读日志/testnat64/nat64_prefix_util.cc:218-253 | the IPv4 octets land where the concluded prefix length puts them, octet 8 is zeroed where they straddle it |
| Nat64.ReplaceLayoutParted | 微信mars阅读日志/testnat64/nat64_prefix_util.cc:225-243 | for 4, 5 and 6 zeros at the end the stores are the IPv4 address with a zero at octet 8 |
| Nat64.ReplaceLayoutWhole | 微信mars阅读日志/testnat64/nat64_prefix_util.cc:220-253 | otherwise they are the IPv4 address in one piece, at octet 4 for 8 zeros, 9 for 3, and 12 |
| Nat64.ReplaceRefinesEmbed | 微信mars阅读日志/testnat64/nat64_prefix_util.cc:215-254 | replacing equals direct embedding for every IPv4 address put in, if and only if the address is recoverable |
| Nat64.SixZerosMisread | 微信mars阅读日志/testnat64/nat64_prefix_util.cc:215-254 | 10.0.0.0 behind any 64-bit prefix is taken for a 40-bit prefix and the replacement goes to the wrong place |
| Nat64.ReplaceTwice | 微信mars阅读日志/testnat64/nat64_prefix_util.cc:215-254 | in every address the second of two replacements wins, whatever is put in last, if and only if the first is recoverable there |
| KnownVectors.QueryOctets | dns64_query_c/dnsquery.c:498-544 | the packet for www.google.com, for both address families |
| KnownVectors.QueryEnds | dns64_query_c/dnsquery.c:542-543 | every AAAA query ends in the octets 0, 28, 0, 1 |
| KnownVectors.ReplyRead | dns64_query_c/dnsquery.c:396-429 | a reply with a compressed alias and an address is read as these two records and this address |
| KnownVectors.ReplyIsReply | dns64_query_c/dnsquery.c:396-429 | there is such a reply, of 79 octets |
| KnownVectors.PointerTo300 | dns64_query_c/dnsquery.c:450-452 | the pointer 193, 44 leads to octet 300 |
| KnownVectors.EmbeddingExamples | ipv6测试/rfc6052/ipv4toipv6.cpp:13-89 | the six addresses section 2.4 of RFC 6052 lists for 192.0.2.33 |
| KnownVectors.WordExample | ipv6测试/rfc6052/ipv4toipv6.cpp:26-29 | the word 0x010200C0 yields 192, 0, 2 and 1 |
| KnownVectors.ProbesRecognized | 微信mars阅读日志/testnat64/nat64_prefix_util.cc:121-214 | both addresses of ipv4only.arpa behind 64:ff9b::/96 are accepted, and 192.0.2.1 on the other platform |
| KnownVectors.OthersRefused | 微信mars阅读日志/testnat64/nat64_prefix_util.cc:121-214 | no other address that ends non-zero is accepted there |
| KnownVectors.ReplacementExample | 微信mars阅读日志/testnat64/nat64_prefix_util.cc:215-254 | 8.8.8.8 put into 64:ff9b::c000:aa gives 64:ff9b::808:808 |
| KnownVectors.CallSucceeds | dns64_query_c/dns_v6/dnsquery.c:301-396 | a call for 8.8.8.8 with one answering server returns its address with the literal in the last four octets |

## Left out

- Sockets, `select`, retries, timeouts, `inet_pton`, `inet_ntop` and the system `getaddrinfo`: input and output. The
  reply is any octet sequence of the stated format.
- Allocation failure, `free`, and the size of `rdata`, which the code allocates one octet short of the terminator it
  writes: allocation succeeds and the data is its octets.
- SocketGetHostByName: AAAA data shorter than 16 octets, and records whose data is neither an address nor one name,
  are excluded by its precondition because the code reads past the data or misreads it.
- ReadRecvAnswer: it returns names and data by value instead of pointers into the heap and the message.
- Storage of the header as bit fields is modelled for a little-endian host, and so is `s_addr`.
- ResolverRace: memory is sequentially consistent, and the state is that of one call; workers still blocked from an
  earlier call of the process, and the concurrent writes of the workers to the shared host buffer and request
  structure, are not modelled. Which server a worker asks shows only in its reply.
- QuiescenceDecides: says that polling is decided once workers stop, not that workers stop; late workers block on
  the mutex a successful worker keeps.
- SizeSettles: says nothing about rows behind the first while the winner is still appending after main's store; it
  may then write the rest of an address to another row.
- `getaddrinfo_api` after a failure for a host name, and every call after the first beyond its two counters.
- `IsNat64AddrValid` in the `dnsquery.c` files computes a verdict and returns true regardless, so only the copy in
  `nat64_prefix_util.cc` is modelled as a test, and main in ResolverRace always replaces. The caller in
  `nat64_prefix_util.cc` that inverts the test is not modelled.
- IsNat64AddrValid: the verdict leaves octet 8 open for 64-bit prefixes, as the code does; section 2.2 of RFC 6052
  wants it zero. For 96-bit prefixes octet 8 belongs to the prefix and is copied as it stands.
- ForEachSafe: the body deletes the current entry or nothing; the reverse and entry-typed traversal macros follow the
  same scheme and are not modelled.
- Run: Del, DelInit, Move and MoveTail work on entries and on nodes linked to themselves. On a head that still has
  entries they leave a cycle without a head, which a world of lists does not describe; `Unlink` covers that step.
- `socketv4_gethostbyname`, the IP-stack probing, the near-duplicate `dnsquery/dns_v6/dnsquery.c`, the peer-to-peer
  programs, logging and the configuration reader are platform code, copies or plumbing around these four parts.
