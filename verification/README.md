# A verified model of the slp server

The server forwards the datagrams of a virtual LAN between game consoles. This
project models the parts of it where state, order and arithmetic meet, and proves
what they promise for every input and every schedule.

**Fragments** (`Frame`, `LruCache`, `Assembly`, `FragParser` and the `Frag…` modules,
`Schedule`). A packet too large for a datagram arrives in parts under a key of source
address and id. The reassembler keeps at most 50 half-filled lists and forgets the least
recently used one; a complete list is copied into a buffer as long as the declared
lengths add up to, each part at offset `pmtu * part`. `FragParser.FragParser` is the
object, on top of the mutable cache `LruCache.LruCache`; `FragParser.Step` is what one
call does, as a value, and the theorems about whole runs are about sequences of it.

**The server** (`Protocol` and the modules that import it). One receive task, one task
for each peer with an inbox of 10, an event queue of 100 and an event task working on up
to 4 events at once share two maps: cached peers by address, and routes by virtual
address. `Protocol.Apply` is one atomic step, `Protocol.Run` any schedule of them.
`Server.UDPServer` is the object: a method for each step, proved to be that step, and
`Drive`, which performs any schedule. The object carries ghost histories (datagrams
arrived, events queued, routes learned, packets delivered) in which the theorems of
`ServerRuns` are stated; `Histories` ties the arrivals to the schedule. `Effects` says of
each part of the state, in figures, what every step does to it.
`Reception.ReceiveTask` puts the plugins in front of the server.

**Discovery packets** (`ZeroRunCodec`, `LanProtocol`, `Rooms`, `Descriptions`, `Utf8`). Payloads compressed by
zero runs are decoded in place into a buffer of the announced size. The format has a
grammar of its own here, independent of the loop.

**Plugins and streams** (`Plugins`, `RuleText`, `Decimal`, `FilterSame`). The blocker and the room
table look at whole packets only, so both reassemble first. Rules have a text form.
Information streams drop repeated items.

## Choices worth knowing

- Copying a fragment whose data is not as long as it declares panics in the original
  (`src/slp/frame.rs:278`), and no parser checks the length. `Panicked` is therefore an
  outcome, and `Assembly.CopyOutcome` says exactly when it happens. It ends the receive
  task, since a plugin's parser runs inside it; `Reception.RunsIff` says exactly which
  fragments do that.
- A fragment that announces 0 parts leaves an empty list behind
  (`src/slp/frame.rs:254-263`). The cache invariant allows it.
- The position check of the decoder comes before every byte, counts included
  (`src/plugin/ldn_mitm/lan_protocol.rs:225`). A final pair for a single zero that ends
  at the end of the buffer is refused, and the buffer of a discovery packet always fits
  exactly. So a payload encoded in greedy zero runs is lost iff its trailing zero run has
  length 1 modulo 256 (`LanProtocol.CompressedRoundTrip`); of these, a sender can save all
  but those ending in exactly one zero by another choice of runs
  (`LanProtocol.CompressedReceivable`).
- Two comments call a peer idle after 30 seconds without packets
  (`src/slp/server.rs:29`, `src/slp/peer_manager.rs:11`). The code waits 300 seconds
  (`src/slp/peer.rs:8`), counts IPv4 and fragment frames only, and changes the state only
  when another frame of the peer arrives. The model follows the code.
- Holding no more than 50 keys between calls is not enough for the bounded reassembler
  to agree with an unbounded one: a packet in one part passes through the cache and can
  push a list out (`FragRefinement.OnePartFragmentEvicts`). The refinement theorem
  counts the keys held during each call.
- A cached peer's handle names the generation of its task. A peer that comes back after
  its Close has been worked on gets a new generation; the lifecycle theorem says that
  generations of one address never overlap.
- Message serial numbers and event numbers only name things in the histories. No step
  decides anything by them.

## Model

| member | source | states |
|---|---|---|
| Frame.DecodeEncode | src/slp/frame.rs:148-228 | decoding a fragment as clients lay it out gives every field and the data back |
| Frame.EncodeDecode | src/slp/frame.rs:148-228 | every fragment body is the layout of its decoded item, so decoding loses nothing |
| Frame.ParseExact | src/slp/frame.rs:48-193 | a datagram is read as a frame iff it spells it: type byte, body within its bounds, 1 to 2048 bytes in all |
| Frame.FragDatagramParses | src/slp/frame.rs:48-94 | a fragment datagram parses, to the same body, exactly when its data is at most 2031 bytes |
| Frame.WholeDatagramParses | src/slp/frame.rs:48-112 | a whole-packet datagram parses exactly for packets of 20 to 2047 bytes, to the same packet |
| Frame.PingEchoes | src/slp/frame.rs:182-201 | the reply built to a ping is the datagram that asked for it |
| Frame.ParsesIff | src/slp/frame.rs:48-193 | which datagrams parse, told of their bytes: whole packets of 21 to 2048 bytes, fragments of 17 to 2048, pings of 5, and the three signals; and the addresses traffic carries, byte by byte |
| Frame.WholeRoutedBy | src/slp/frame.rs:101-123 | a whole packet is routed from the address in bytes 12 to 15 of its header to the one in bytes 16 to 19 |
| Frame.FragRoutedBy | src/slp/frame.rs:135-157 | a fragment is routed from and to the addresses of its own header |
| LruCache.LruCache.constructor | src/slp/frame.rs:242-246 | a new cache is empty and has the given room |
| LruCache.LruCache.GetMut | src/slp/frame.rs:251 | a lookup returns the entry if there is one and makes its key the most recent |
| LruCache.LruCache.Write | src/slp/frame.rs:261 | an assignment through the looked-up reference replaces that value and leaves the order |
| LruCache.LruCache.Put | src/slp/frame.rs:256 | inserting puts the key in front and drops the least recent entry only when there is no room |
| LruCache.LruCache.Pop | src/slp/frame.rs:265-268 | popping returns the entry and takes it out |
| LruCache.PutKeepsValid | src/slp/frame.rs:244-257 | after inserting, the bound, the distinctness of keys and the match of order and entries still hold, and the new entry is the most recent |
| Assembly.Assemble | src/slp/frame.rs:272-282 | the copy loop computes the outcome that the copy specification gives for the whole list |
| Assembly.CopyOutcome | src/slp/frame.rs:272-282 | the copy panics iff the first faulty fragment is in range and of the wrong size, delivers iff all are in range and of their declared size; each delivered byte is that of the highest-numbered fragment covering it, or stays as it was |
| Assembly.CoverCount | src/slp/frame.rs:272-276 | the bytes covered number at most the sum of the declared lengths, and exactly that iff no two ranges overlap |
| Assembly.NoGapIffDisjoint | src/slp/frame.rs:272-282 | fragments that all fit leave no zero-filled gap iff no two of them overlap |
| Assembly.Tiling | src/slp/frame.rs:272-282 | disjoint fragments in range are delivered without a common pmtu, and every byte is that of the one fragment covering it |
| Assembly.TotalLenBound | src/slp/frame.rs:272 | lengths of at most m add up to the full size iff all but the last are m |
| Assembly.ExactFit | src/slp/frame.rs:264-282 | with a common pmtu m and honest lengths of at most m a complete list is delivered iff every fragment but the last is full, as the data in part order; otherwise the result is None |
| Assembly.CutFlattens | src/slp/frame.rs:272-282 | joining in order the parts a client cuts gives the packet |
| FragParser.FragParser.constructor | src/slp/frame.rs:242-246 | a new parser has an empty cache with room for 50 lists |
| FragParser.FragParser.Process | src/slp/frame.rs:247-286 | one call on the object: new cache and result are those of the step specification, with lookup, creation, refusal, filling, completion and copying |
| FragRuns.Feed | src/slp/frame.rs:247-286 | feeding a parser object any fragments gives the cache and the results of the specification's run |
| FragRuns.StepKeepsValid | src/slp/frame.rs:241-265 | every call keeps at most 50 entries and makes its own key the most recent before anything is popped |
| FragRuns.StepOwn | src/slp/frame.rs:259-285 | a call's own list gets the fragment, or is popped and assembled iff this completes it, or is only looked up when the part number is out of range |
| FragRuns.StepOther | src/slp/frame.rs:251-257 | another key's list is lost iff it was the least recent of 50 and the call's key is new; otherwise it is unchanged |
| FragRuns.StepAhead | src/slp/frame.rs:251-257 | a call moves no key but its own ahead of another |
| FragRuns.RecentSurvives | src/slp/frame.rs:244-257 | a list with fewer than 50 other keys used since, this call included, survives the call |
| FragRuns.CacheInvariant | src/slp/frame.rs:241-286 | in every reachable cache: at most 50 entries; each list is as long as the frame that created it announced; each slot holds the latest fragment of its part and key since then, or none came; no list with slots is complete |
| FragRuns.AtMostFifty | src/slp/frame.rs:241-246 | no reachable cache holds more than 50 lists |
| FragRuns.HonestLengthsNeverPanic | src/slp/frame.rs:272-281 | on every run whose fragments declare their true lengths no call panics |
| FragRuns.WrongLengthPanics | src/slp/frame.rs:278 | a new packet in one part is returned iff its declared length is true, and panics otherwise |
| FragConservation.StepConserves | src/slp/frame.rs:247-286 | one call: stored afterwards, popped, replaced, evicted and rejected add up to stored before plus one |
| FragConservation.FragmentsConserved | src/slp/frame.rs:247-286 | over every run the totals of stored, popped, replaced, evicted and rejected fragments add up to the fragments processed |
| FragAttempts.AttemptIsMadeOf | src/slp/frame.rs:259-271 | a popped list is made of as many different frames as it has slots, each slot holding one of them, of the call's key and the slot's part number |
| FragAttempts.OneAttempt | src/slp/frame.rs:247-286 | no frame of any run takes part in two reassembly attempts |
| FragAttempts.AttemptedCounted | src/slp/frame.rs:247-286 | the popped slots of a run are as many as the different frames that took part in an attempt |
| FragAttempts.FragmentsAccounted | src/slp/frame.rs:247-286 | over every run the fragments waiting, the different frames that took part in an attempt, and those replaced, evicted or rejected make up all fragments processed |
| FragAttempts.RunExactFit | src/slp/frame.rs:264-282 | if a call of any run completes its list and the popped fragments carry a common pmtu m and honest lengths of at most m, it returns the data in part order iff all but the last are full, and None otherwise |
| FragAttempts.PanicsIff | src/slp/frame.rs:264-281 | a call of any run panics iff it completes its list and, of the fragments that are out of range or not of their declared length, the first is in range |
| FragAttempts.DeliversIff | src/slp/frame.rs:264-282 | a call of any run returns a packet iff it completes its list and all popped fragments are in range and of their declared length; each byte is then that of the highest-numbered part covering it, or 0 |
| FragAttempts.RunTiling | src/slp/frame.rs:264-282 | if the fragments popped by a call of any run are in range, honest and disjoint, a packet is returned in which every byte is that of the one fragment covering it |
| FragRefinement.StepRefines | src/slp/frame.rs:247-286 | a bounded call returns what an unbounded one does, and leaves the same lists iff at most 50 keys are held during the call |
| FragRefinement.RunRefines | src/slp/frame.rs:230-286 | on every run in which an unbounded reassembler never holds more than 50 keys, the bounded one returns the same call by call |
| FragRefinement.RunAgreesIff | src/slp/frame.rs:230-286 | the bounded reassembler holds the lists of the unbounded one all through a run iff that one never holds more than 50 keys during a call |
| FragRefinement.ForgottenShows | src/slp/frame.rs:247-286 | a key that only the unbounded reassembler still holds is told by one more fragment for it, on which the two return different results |
| FragRefinement.RunAlikeIff | src/slp/frame.rs:230-286 | at no point of a run does one more fragment get different results from the two reassemblers, iff the unbounded one never holds more than 50 keys during a call |
| FragRefinement.OnePartFragmentEvicts | src/slp/frame.rs:251-268 | a one-part packet changes nothing in the unbounded table but costs a full cache its oldest list |
| Schedule.Reassembly | src/slp/frame.rs:247-286 | any packet, cut in 1 to 255 parts, fed in any order with repetitions and interleaved with other keys: every call for it returns None until the last missing part, which returns exactly the packet, given at most 49 distinct other keys between consecutive arrivals |
| Schedule.CompleteListIsPacket | src/slp/frame.rs:264-282 | a complete list of the parts of a packet is assembled to that packet |
| Schedule.StaysPresent | src/slp/frame.rs:244-257 | a list just used keeps its parts while fewer than 50 other keys come by |
| Schedule.PartOnWire | src/slp/frame.rs:48-94 | the datagram of a part is read back as that part iff its data is at most 2031 bytes, and is not parseable otherwise |
| Schedule.NewKeyOrder | src/slp/frame.rs:251-257 | a new list goes to the front of the order and pushes out the 50th |
| Schedule.FiftyOthersForget | src/slp/frame.rs:244-257 | the bound of 49 is sharp: 50 new lists in a row always make the parser forget a key |
| ZeroRunCodec.Decompress | src/plugin/ldn_mitm/lan_protocol.rs:221-249 | for every input and buffer: success iff the text is accepted, the length is that of the expansion, the front of the buffer is the expansion and the rest is untouched; on failure the buffer holds what some prefix of the text produced |
| ZeroRunCodec.TokensOfText | src/plugin/ldn_mitm/lan_protocol.rs:224-248 | a text without a dangling zero is a sequence of non-zero literals and zero-count pairs |
| ZeroRunCodec.TextOfTokens | src/plugin/ldn_mitm/lan_protocol.rs:224-248 | the text of tokens has one reading, and it is read as the tokens mean |
| ZeroRunCodec.ExpansionSize | src/plugin/ldn_mitm/lan_protocol.rs:228-242 | the expansion has at least half and at most 128 times the length of the text |
| ZeroRunCodec.AcceptedIffDecodes | src/plugin/ldn_mitm/lan_protocol.rs:221-249 | a text is accepted iff it is the text of tokens whose expansion fits, and does not both fill the buffer and end in the pair for a single zero; the output is that expansion |
| ZeroRunCodec.CompressExpands | src/plugin/ldn_mitm/lan_protocol.rs:221-249 | the greedy encoding in runs of up to 256 zeros is made of proper tokens and expands to its input |
| ZeroRunCodec.CompressEndsInLoneZero | src/plugin/ldn_mitm/lan_protocol.rs:225-242 | the greedy encoding ends in the pair for a single zero iff the trailing zero run has length 1 modulo 256 |
| ZeroRunCodec.RoundTrip | src/plugin/ldn_mitm/lan_protocol.rs:197-249 | the decoder recovers every input from its greedy encoding in any longer buffer, and in a buffer of the exact size iff the trailing zero run is not of length 1 modulo 256 |
| ZeroRunCodec.SomeTextDecodes | src/plugin/ldn_mitm/lan_protocol.rs:221-249 | some text decodes to a given output in a buffer of exactly its size iff the output does not end in exactly one zero |
| ZeroRunCodec.MixedExample | src/plugin/ldn_mitm/lan_protocol.rs:293-295 | the text 1 0 3 3 0 0 stands for 1 0 0 0 0 3 0, and is accepted in buffers longer than that |
| ZeroRunCodec.PairExamples | src/plugin/ldn_mitm/lan_protocol.rs:303-306 | a zero alone is refused; 0 255 stands for 256 zeros |
| LanProtocol.New | src/plugin/ldn_mitm/lan_protocol.rs:194-212 | the packet constructor returns the decoded packet or the same error for every byte sequence |
| LanProtocol.CheckExact | src/plugin/ldn_mitm/lan_protocol.rs:76-90 | the check passes exactly the packets made of a header with the magic number and a body at least as long as declared, and refuses all others as truncated |
| LanProtocol.HeaderChecks | src/plugin/ldn_mitm/lan_protocol.rs:51-90 | a header as clients write it passes the check iff the body is as long as declared or longer, and its fields are read back |
| LanProtocol.PlainRoundTrip | src/plugin/ldn_mitm/lan_protocol.rs:73-90 | an uncompressed payload is received whole, everything after the header, not cut to the declared length |
| LanProtocol.CompressedExact | src/plugin/ldn_mitm/lan_protocol.rs:194-212 | a compressed packet brings exactly the payload that its body is a text of, when that has the announced length and the decoder's last position rule is met; otherwise it is refused as undecodable |
| LanProtocol.CompressedRoundTrip | src/plugin/ldn_mitm/lan_protocol.rs:194-249 | a payload in the greedy encoding is received as sent iff its trailing zero run is not of length 1 modulo 256, and refused otherwise |
| LanProtocol.CompressedReceivable | src/plugin/ldn_mitm/lan_protocol.rs:194-249 | some compressed text of a payload is received as that payload iff it does not end in exactly one zero |
| LanProtocol.SingleZeroIsRefused | src/plugin/ldn_mitm/lan_protocol.rs:225-242 | the greedy text of one zero byte, the smallest lost payload, is refused |
| LanProtocol.Nodes | src/plugin/ldn_mitm/lan_protocol.rs:127-138 | the loop returns the first node_count nodes, 8 at most, each the 64 bytes at its place |
| Rooms.BuildRoom | src/plugin/ldn_mitm/plugin.rs:123-146 | building the entry node by node gives the entry of the description, with dotted addresses, hexadecimal identifiers and names read as UTF-8, empty when malformed |
| Rooms.RoomOfIsOk | src/plugin/ldn_mitm/lan_protocol.rs:104-148 | every entry has as many nodes as it says, 8 at most, and hexadecimal texts of the right lengths, 768 digits at most |
| Rooms.HexInjective | src/plugin/ldn_mitm/plugin.rs:137-144 | the hexadecimal texts determine the bytes |
| Descriptions.UnhexHex | src/plugin/ldn_mitm/plugin.rs:137-144 | reading the hexadecimal text two digits a byte, the high one first, gives the bytes |
| Descriptions.RoomTells | src/plugin/ldn_mitm/lan_protocol.rs:96-177 | the entry made of a description tells what its sender laid out: addresses in dotted decimal, identifiers and advertised bytes in hexadecimal, names by their UTF-8, node ids and flags slot by slot, both counts cut to 8 and the advertised length to 384 |
| Descriptions.DescriptionIsListed | src/plugin/ldn_mitm/plugin.rs:96-147 | a decoded packet of type 1 for 10.13.37.0 with a description puts an entry that tells it under its source address and changes no other |
| Descriptions.PlainDescriptionIsListed | src/plugin/ldn_mitm/plugin.rs:96-147 | the same for the uncompressed payload as it is on the wire |
| Descriptions.TableChangesIff | src/plugin/ldn_mitm/plugin.rs:96-149 | a packet for another address, without a decodable payload, of another type or with fewer than 1152 bytes leaves the room table as it is; any other sets the entry of its source and no other |
| Descriptions.WholeIsSeen | src/plugin/ldn_mitm/plugin.rs:82-88 | a packet in one datagram is seen by the plugins under the addresses of its header |
| Rooms.DottedInjective | src/plugin/ldn_mitm/plugin.rs:127-136 | the dotted text of an address determines the address |
| Utf8.DecodeExact | src/plugin/ldn_mitm/lan_protocol.rs:119-123 | bytes are read as a text iff they are its encoding by section 4 of RFC 3629; all other bytes are malformed |
| Utf8.Examples | src/plugin/ldn_mitm/lan_protocol.rs:119-123 | characters of two, three and four bytes from the examples of RFC 3629 section 7 |
| RuleText.PrintParse | src/plugin/blocker.rs:21-60 | reading the printed form of any rule gives the rule back, for every 16-bit port |
| RuleText.ParseExact | src/plugin/blocker.rs:21-60 | a text is read as a rule iff it is a protocol name in any case, a colon, an optional plus sign and digits of the port's value |
| RuleText.ParseErrors | src/plugin/blocker.rs:47-60 | a text is refused for its protocol iff it has a colon and what comes before the first one is no protocol name; every other refusal is a format error |
| RuleText.LargePort | src/plugin/blocker.rs:55-57 | a port number beyond 16 bits is a format error |
| RuleText.Examples | src/plugin/blocker.rs:38-45 | the printed forms of two rules |
| RuleText.CaseInsensitive | src/plugin/blocker.rs:24-28 | texts that differ only in the case of letters give the same rule or the same error |
| Decimal.PrintedNumber | src/plugin/blocker.rs:41-42 | a port is printed as digits that spell its value |
| Plugins.Receive | src/plugin/blocker.rs:112-129 | the shared front half: whole packets pass, fragments go through the parser, the rest is nothing |
| Plugins.WholeIff | src/plugin/blocker.rs:112-125 | a plugin sees exactly the packets that datagrams carry, in one piece or by the fragment that completes them, under the addresses of the datagram |
| Plugins.BlockedIff | src/plugin/blocker.rs:111-140 | a datagram is blocked iff it carries a packet with a sound header that some rule hits |
| Plugins.BlockerPlugin.InPacket | src/plugin/blocker.rs:111-140 | the result is an error iff a whole packet resulted, its header is sound and some rule hits it |
| Plugins.LdnMitmPlugin.InPacket | src/plugin/ldn_mitm/plugin.rs:81-151 | the room table gets exactly the announced room, under the source address, and keeps all entries sound; the result is never an error |
| Plugins.CacheSeesFragments | src/plugin/ldn_mitm/plugin.rs:82-95 | a plugin's cache after any datagrams is that of a parser fed the fragments among them |
| Plugins.FragmentationInvisible | src/plugin/blocker.rs:111-140 | under the schedule condition a plugin sees nothing on a part that does not complete its packet, and exactly the packet with its fragments' addresses on the one that does |
| Plugins.SameUpdateIff | src/plugin/ldn_mitm/plugin.rs:96-147 | a packet under two pairs of addresses updates the room table alike iff it describes no room, or the pairs are equal, or neither is for the server |
| Plugins.WholeLikeFragments | src/plugin/ldn_mitm/plugin.rs:81-151 | a reassembled packet always gets the rules' verdict of the whole one, and the same room update iff it describes no room, or the fragment headers repeat its addresses, or neither are for the server |
| Lifecycle.LifeKept | src/slp/peer.rs:35-119 | every step keeps: cached iff alive, the newest generation is the cached one, events and flights match their tasks, queue and flights are bounded |
| Lifecycle.LifeAfterRemove | src/slp/peer_manager.rs:48-51 | working on a Close keeps the lifecycle invariant, and the cached peer it removes is the one it was sent for |
| Ordering.OrderKept | src/slp/peer.rs:56-119 | every step keeps: messages are the arrivals they name, each inbox is oldest first, and events of one address are ordered by generation, then by arrival, the Close last |
| Accounting.PlacesKept | src/slp/peer.rs:78-118 | every step keeps the recorded place of each datagram equal to where it really is, and an end once met is final |
| Accounting.KindsKept | src/slp/peer.rs:95-116 | every step keeps: only frames that are no traffic are absorbed, and only traffic is finished |
| PeerTimes.TimedByOwn | src/slp/peer.rs:60-76 | one more frame of a peer: the state assignment keeps Connected equal to the time of the last traffic, and Idle equivalent to another frame having come 300 seconds or more after it |
| PeerTimes.TimesKept | src/slp/peer.rs:51-76 | every step keeps that meaning for every cached peer |
| PeerTimes.OnlyTrafficLeavesIdle | src/slp/peer.rs:62-76 | a step that turns an idle peer connected is an arrival of traffic from its address |
| Routing.RoutesKept | src/slp/peer_manager.rs:71-75 | every step keeps the table equal to the history of routed packets, and every route earned by a peer that sent traffic from that address |
| Routing.DestinationSet | src/slp/peer_manager.rs:71-86 | a packet goes to the last claimant of its destination, the sender itself when both addresses are equal, or else to exactly the cached peers but the sender, connected ones only when idle ones are ignored |
| Routing.RunKeepsRoutes | src/slp/peer_manager.rs:48-75 | over every run no learned address is forgotten |
| Routing.LearnedIsNotFlooded | src/slp/peer_manager.rs:71-86 | whatever happens after an address was learned, its Close included, a packet to it has exactly one addressee |
| Routing.DeliveredKept | src/slp/server.rs:123-135 | every step keeps deliveries genuine: unchanged received traffic, each at most once |
| Addressing.AddressesKept | src/slp/server.rs:123-135 | every step keeps: routed and delivered packets went to the last claimant among the claims up to their own, or to exactly the peers cached at that moment but the sender, connected ones only when idle ones are ignored; cached peers have been heard |
| ServerRuns.DeliveriesWellAddressed | src/slp/server.rs:123-135 | in every reachable state each delivery went to the last claimant of its destination among the claims up to its own, alone, or, when there was none, to exactly the peers cached when it was routed but its sender, connected ones only when idle ones are ignored |
| Histories.ArrivalsAreReceipts | src/slp/server.rs:163-194 | after any schedule the recorded arrivals are exactly its datagrams that parse and are no pings, in order and with their times |
| Histories.ScheduleOrder | src/slp/server.rs:109-195 | after any schedule the packets dequeued for an address are, byte for byte, a subsequence of the traffic that the schedule brought from it |
| Effects.PhaseEffect | src/slp/peer.rs:80-119 | what every step does to every peer task: traffic taken is held with its addresses, any other frame leaves the task waiting, 30 seconds without a datagram end the loop, and the queue takes an event when it holds fewer than 100 |
| Effects.LeavesOnlyInSilence | src/slp/peer.rs:86-93 | a task that waits or sends leaves its loop iff it gives up after waiting 30 seconds with an empty inbox |
| Effects.InboxEffect | src/slp/peer.rs:36-95 | what every step does to every inbox: a datagram joins it when it is open and holds fewer than 10, the oldest is taken from it, and only leaving the loop empties it |
| Effects.BirthEffect | src/slp/peer_manager.rs:52-61 | a task is made exactly for a datagram from an address that is not cached, with that datagram in its inbox |
| Effects.CacheEffect | src/slp/peer.rs:56-76 | what every step does to every peer: traffic makes it connected, another frame makes it idle 300 seconds or more after the last traffic, its Close removes it |
| Effects.QueueEffect | src/slp/server.rs:77-125 | what every step does to the event queue: it takes events up to 100 and gives up the oldest while fewer than four are worked on |
| Effects.FlightEffect | src/slp/server.rs:114-138 | what every step does to the events worked on, and where a routed packet goes |
| Effects.DeliveryEffect | src/slp/server.rs:123-135 | routing alone learns a route; finishing without a veto alone delivers, the flight's message to the addresses it was routed to |
| Effects.ArrivalEffect | src/slp/server.rs:163-194 | the datagrams handed to peers are the arrivals that are traffic or signals, with their times and generations |
| Effects.RefusedIff | src/slp/peer.rs:36-78 | a datagram for a peer is refused iff the peer's task has closed its inbox or has 10 messages there; otherwise it is the last message of that inbox |
| Effects.PlaceEffect | src/slp/peer.rs:78-118 | where every datagram goes under every step: absorbed only as no traffic, discarded only with a dropped inbox, finished only when its flight finishes |
| Effects.FinishedAre | src/slp/server.rs:126-135 | over every run the datagrams that finished are those delivered and those whose delivery was vetoed, and none is both |
| Effects.FinishedAreDelivered | src/slp/server.rs:126-135 | without vetoes the datagrams delivered are exactly those that finished |
| Effects.StartsEmpty | src/slp/server.rs:75-99 | a new server has no peers, routes, tasks, events or histories, and the given setting |
| ServerRuns.InvRun | src/slp/server.rs:100-195 | every schedule keeps all invariants together |
| ServerRuns.CachedIffOneAlive | src/slp/peer_manager.rs:48-61 | in every reachable state an address is cached iff exactly one generation of it is running, about to send its Close, or has it queued or in flight |
| ServerRuns.CloseRemovesItsOwn | src/slp/server.rs:120-122 | in every reachable state a Close removes the peer that it was sent for, never a newer one |
| ServerRuns.CloseIsLast | src/slp/peer.rs:46-49 | while a Close is queued or in flight there is no later event of its address |
| ServerRuns.SameSourceInOrder | src/slp/peer.rs:86-117 | packets of one address are queued in arrival order, across generations too |
| ServerRuns.PerSourceOrder | src/slp/server.rs:109-195 | in every reachable state the packets dequeued for an address are, byte for byte, a subsequence of the traffic received from it |
| ServerRuns.ExactlyOnePlace | src/slp/peer.rs:78-118 | in every reachable state a datagram that reached a peer is in exactly one inbox, task, queue or flight, or in none having met exactly one end |
| ServerRuns.EndsByKind | src/slp/peer.rs:95-116 | traffic is refused, inbox, held, queued, in flight, finished or discarded, never absorbed; other frames never get past an inbox |
| ServerRuns.NothingTwice | src/slp/server.rs:114-138 | no inbox, event history, set of flights or delivery history has a datagram twice |
| ServerRuns.Bounds | src/slp/server.rs:77 | in every reachable state inboxes hold at most 10, the event queue at most 100, and at most 4 events are in flight |
| ServerRuns.InboxParses | src/slp/peer.rs:95 | what a peer task takes from its inbox always parses and is no ping, so it never ends on a parse error |
| ServerRuns.PeerStateTellsTime | src/slp/peer.rs:8-76 | in every reachable state Connected holds the time of the generation's last traffic or its birth, and Idle holds iff another frame came 300 seconds or more after it, so that long has passed |
| ServerRuns.TableIsHistory | src/slp/peer_manager.rs:71-75 | in every reachable state an address is routed to its last claimant in the history, who sent traffic with that source |
| ServerRuns.DeliveriesGenuine | src/slp/server.rs:123-135 | in every reachable state deliveries are received traffic, unchanged, none twice |
| Server.PeerManager.GetDestSockaddr | src/slp/peer_manager.rs:71-86 | the route back is learned, and the loop returns the destination set without repetitions |
| Server.PeerManager.ServerInfo | src/slp/peer_manager.rs:96-101 | the number of cached peers and of idle ones among them, each cast to a signed 32-bit number; below 2^31 peers the exact numbers, the second at most the first |
| Basics.AsI32Exact | src/slp/peer_manager.rs:98-99 | a count cast to 32 signed bits keeps its value modulo 2^32, within range |
| Server.UDPServer.constructor | src/slp/server.rs:75-99 | a new server is the initial state |
| Server.UDPServer.PeerMut | src/slp/peer_manager.rs:52-61 | a peer with its task is created iff the address is not cached |
| Server.UDPServer.OnPacket | src/slp/peer.rs:56-79 | the peer's new state, the new arrival, and the datagram in the inbox or refused |
| Server.UDPServer.Receive | src/slp/server.rs:180-193 | a turn of the receive loop after its plugins is the receive step; a ping and nothing else is answered, with the datagram itself |
| Server.UDPServer.Dequeue | src/slp/peer.rs:86-116 | taking a datagram is the dequeue step: traffic is held for sending, anything else is dropped |
| Server.UDPServer.Enqueue | src/slp/peer.rs:100-114 | sending an event is the enqueue step and only happens when the queue has room |
| Server.UDPServer.GiveUp | src/slp/peer.rs:87-93 | 30 seconds without a datagram, or no sender left, ends the loop |
| Server.UDPServer.DropInbox | src/slp/peer.rs:80-118 | leaving the loop closes the inbox and discards what is in it |
| Server.UDPServer.SendClose | src/slp/peer.rs:46-49 | the last act of a task is its Close, after its inbox is closed |
| Server.UDPServer.Start | src/slp/server.rs:114-118 | the oldest event is taken, when fewer than four are being worked on |
| Server.UDPServer.Remove | src/slp/server.rs:120-122 | working on a Close is the remove step |
| Server.UDPServer.Route | src/slp/server.rs:123-125 | routing a packet event is the route step |
| Server.UDPServer.Finish | src/slp/server.rs:126-135 | a routed packet goes to its addressees, or nowhere when a plugin vetoes it |
| Server.UDPServer.Drive | src/slp/server.rs:100-195 | under any schedule the object goes through the run of the step machine, so every reachable-state theorem holds of it |
| Reception.ReceiveTask.constructor | src/slp/server.rs:75-91 | the task starts running, with a new server and empty plugins |
| Reception.ReceiveTask.CallPlugins | src/slp/server.rs:175-179 | both plugins see the datagram one after the other, in either order; only a panic is felt, verdicts are not |
| Reception.ReceiveTask.Turn | src/slp/server.rs:163-194 | a whole turn of the loop: the plugins, then the receive step and the answer to a ping, unless the task has ended or ends now |
| Reception.ReceiveTask.Drive | src/slp/server.rs:141-195 | whatever happens (datagrams, socket failure, new rules, the timer, other steps), the object goes through the scenes of the whole-run results |
| Reception.PluginsAreTransparent | src/slp/server.rs:174-193 | as long as the task runs, both plugins have reassembled the fragments among all datagrams, and the server is where its schedule alone would have brought it, whatever rules were set in between |
| Reception.RoomsAreAnnounced | src/plugin/ldn_mitm/plugin.rs:52-147 | as long as the task runs, the room table holds what the datagrams since the last clearing announced |
| Crashing.CrashesIff | src/plugin/blocker.rs:112-125 | a plugin panics on a datagram iff it is a fragment that completes a list on which the copy trips |
| Crashing.NoneCrashesIff | src/plugin/blocker.rs:112-125 | a sequence of datagrams is harmless iff no fragment among them completes such a list |
| Reception.RunsIff | src/slp/server.rs:151-179 | over every run the task is still running iff the socket has not failed and no fragment that came in completed a list whose first fragment out of range or not of its declared length is in range |
| Reception.ServerIsRun | src/slp/server.rs:151-195 | whatever happens, crash included, the server goes through the run of its own steps and of the datagrams the task outlives, so every result about reachable states holds of it |
| Reception.ArrivalsAreServed | src/slp/server.rs:163-194 | what reaches peers are exactly the datagrams for them that the task outlives, in order and with their times |
| Reception.HonestKeepsRunning | src/slp/server.rs:157-195 | while the socket works and all fragments have the lengths they declare, the task never ends, and the server goes through the run of its schedule |
| Reception.NothingArrivesAfterEnd | src/slp/server.rs:151-155 | once the task has ended it stays ended, and no peer gets a datagram however the run goes on |
| FilterSame.FilterSame | src/util/filter_same.rs:17-27 | the scan with its remembered item lets through exactly the items that differ from the one before |
| FilterSame.OutputHasNoStutter | src/util/filter_same.rs:17-27 | what comes out never repeats itself, nor what was remembered |
| FilterSame.NoStutterPasses | src/util/filter_same.rs:17-27 | a stream that never repeats itself, nor what was remembered, passes unchanged |
| FilterSame.RepeatDropped | src/util/filter_same.rs:17-27 | repeating an item anywhere in a stream changes nothing in what comes out |
| FilterSame.SubscriberStream | src/slp/server.rs:207-216 | for a subscriber the second filter drops at most the first item of a stretch of the filtered stream, and does so iff it equals the current item |

## Left out

- Sockets, ports, the HTTP and GraphQL interface, the command line, logging: input and output only.
- Traffic counters and single field accessors: correct by reading.
- The veto of an outgoing packet: a parameter of the finish step, because the two plugins modelled never give one.
- Header checks, rule hits and the way from an IPv4 packet to its UDP payload: functions of the bytes that the model leaves open, because they are smoltcp's; theorems hold for all such functions.
- Rooms.RoomOfIsOk: bounds and shapes only; what an entry tells is stated by Descriptions.RoomTells, against a layout taken from the reading code, because no writer of that format is in the repository.
- Reception.ReceiveTask.Turn: a turn is one step, so no other task's step falls between its plugin calls; the blocker and the room table are present from the first datagram on.
- Reception.RunsIff: a panic inside smoltcp would end the task, too; its functions are total here.
- The scan packets that the timer broadcasts to all cached peers (`src/plugin/ldn_mitm/plugin.rs:54-64`): they change no state and are in no delivery history.
- Liveness: timers, wake-ups and fairness are not modelled, so nothing says that a datagram is delivered eventually; the steps say when something may happen.
- A crash or stop of the peer tasks and the event task, and failing sends into closed channels: they do not happen in the model.
- Two readings of the clock within one step: a step sees one time; steps may be any time apart.
- Sending one packet to several addresses takes one step, because nothing shared changes in between.
- Server.UDPServer.OnPacket: the peer's handle is a value in the map and its channel a field of the task, so aliasing of handles and copies of senders are not captured.
- FragParser.FragParser.Process: the list is written back instead of changed through a reference into the cache; the cache contents after each assignment are the same.
- Server.PeerManager.GetDestSockaddr: the order of the addressees is left open, as the order of a hash map is.
- The reading of 16-bit decimal numbers, the printing of addresses and the least-recently-used cache are library behaviour, modelled as their documentation describes them; the libraries are not part of this model.
- The broadcast channel between the two stutter filters: a subscriber's stretch of the stream is any contiguous part.
