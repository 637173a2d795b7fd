# pdrad: a verified model of the prefix relay

pdrad asks a DHCPv6 server for a delegated prefix and advertises it on a link
with Neighbor Discovery Router Advertisements. This project models its message
code, its chunked list and its threads, and proves what they compute and what
holds in every interleaving. Where the code does not meet the standard it
implements, the exact condition under which it does is proved, with an input or a
run that fails it. Contracts with a precondition name it under "Left out".

`dafny verify dfyconfig.toml` verifies the project.

| file | covers |
|---|---|
| Bytes.dfy | octets, fixed-width integers, memory images of little- and big-endian hosts |
| OnesComplement.dfy | one's complement sums of RFC 1071 as residues modulo 0xFFFF |
| NdpChecksum.dfy | `ndp_checksumCalCore`, `ndp_checksum`, and the checksum of RFC 4443 |
| NdpOptions.dfy | Neighbor Discovery option constructors |
| NdpPackets.dfy | `ndp_createRAPacket` and the receiver's walk over the options |
| DhOptions.dfy | DHCPv6 option images and constructors |
| DhPackets.dfy | the DHCPv6 builder, the in-place parser, both round trips |
| Collection.dfy | the 64-slot chunked doubly linked list |
| Relay.dfy | the DHCP, RA, RS and main threads over the shared prefix record |
| Exchange.dfy | the solicitation, the prefix read from a reply, the advertisement sent, end to end |

The byte order of the host is a parameter throughout: a field is written with
`Store16`/`Store32` and read with `Load16`/`Load32`, and `htobe`/`betoh` are the
functions `HToBe16`/`HToBe32` of the host. A pointer to an option is a buffer and
an offset. Where the source would use a null pointer or leave a buffer, which is
undefined behaviour, the modelled operation returns a null, empty or `NullNode`
result and its contract says exactly when. Wrapping `size_t` subtraction and
truncation to 8, 16 and 32 bits are written out.

## Where the code departs from the standards

- `ndp_checksum` adds the header sum and the body sum without folding the carry
  (Src/ndp_packets.c:114), and stores the pseudo-header's length in host order
  (line 97). The value it returns is the ICMPv6 checksum if and only if the two
  sums do not carry and, on a little-endian host, 257 divides the sum of the
  length's two halves (`ReturnedChecksumExact`). For the 80-octet advertisements
  this program sends, a little-endian host therefore never computes the right
  value (`AdvertisementChecksumWrong`), and from fe80::1f1 to all nodes every
  advertisement carries, so that a big-endian host does not either
  (`AdvertisementCarries`).
- The result pointer of `ndp_checksum` is never written and the caller drops the
  returned value (line 52), so the checksum field of the packet as built stays zero
  (`DroppedChecksumAccepted`). The program hands it to ICMPv6 raw sockets
  (Src/test.c:79, 257), for which RFC 3542, section 3.1, has the kernel compute and
  insert the checksum; the kernel is not modelled.
- A route information option for prefix length 128 gets length 4 where RFC 4191,
  section 2.3, requires 3, and its copy reads 24 octets of a 16-octet address
  (`RouteLengthExact`). The masking of the bits behind the prefix length is
  commented out (Src/ndp_options.c:101-106): a route meets RFC 4191 if and only if
  the caller's prefix has no bit set behind its length (`TailClearExact`), the /56
  the program sends if and only if the eighth octet is zero (`RouteTail`).
- The DHCPv6 parser reads and converts the header of an option that the message's
  end cuts off (Src/dh_packets.c:144-145). It stays inside a buffer for every
  message of a given size if and only if the buffer has three octets more than the
  message, or 8 for messages of at most 8 octets (`CapacityExact`). The program
  passes the whole buffer as the receive length (Src/test.c:221, 228, 659), so a
  message that fills it can leave it (`FullBufferOverruns`, `NineOctetsOverrun`).
- Messages of size 0 to 3 pass the size test, whose subtraction wraps
  (Src/dh_packets.c:121-128), and one option outside them is read
  (`ShortMessageAdmitted`). An option that overruns the message is recorded all
  the same and the parse reports success (`ExactEnd`, `OverrunRecorded`).
- The sum of address and size in the parser's stop test (Src/dh_packets.c:197) wraps
  for sizes near 2^64, such as -1: the loop then stops after one option
  (`WrappedSizeOneRound`). The program does not get that far with the -1 of a failed
  `recvfrom`, because the dump of line 670 of Src/test.c runs out of the buffer first
  (`ReceivePrefix`).
- Whatever follows the fixed part of the first IA_PD is taken for an IA Prefix,
  without a look at the IA_PD's length or at the inner option's code and length
  (Src/test.c:683-688). `InnerOptionUnchecked` says which octets are copied from
  every reply. They depend on the IA_PD alone if and only if its data has 41 octets
  or more (`ImageDetermined`), and they are a prefix it offers if and only if it
  carries a whole IA Prefix first (`OfferReadExact`). From a server's answer that it
  has no prefix, the status code and 23 octets from behind the message become the
  lease (`NoPrefixTaken`).
- `dh_createOption_IA_PD` allocates no room for a prefix list
  (Src/dh_options.c:29, `CreateIaPd`).
- The backward walk of the list divides the distance to the last element instead
  of subtracting node numbers (`BackwardExact`, `AllExact`).
- An empty list passes the bounds test, whose subtraction wraps (`BoundsTestExact`).
- The DHCP thread swaps the lifetimes and sets the length to 64 after a failed
  exchange as well (Src/test.c:228-240). Each failure reverses the lifetimes of
  the previous lease once more on a little-endian host, and a failure before the
  first lease opens the gate in `main` (`RaFaithful`, `FailureOpensGate`,
  `FailureReversesLifetimes`).
- An exchange closes the socket when it ends (lines 652, 689) and nothing opens it
  again. In every run in which no send is accepted on the closed socket, everything
  advertised stems from the first exchange, and on a little-endian host every other
  round of the DHCP thread reverses its lifetimes (`ParityOfExchanges`).
- The DHCP thread waits for a reply without a time limit while it holds the mutex
  (Src/test.c:659, 226). A lost reply keeps the mutex for ever and no further
  advertisement is sent (`LostReplyStarves`, `ReleasedByOwnSteps`); with the socket
  closed after the first exchange, none ever was (`LostReplySilences`).
- The spin in `main` (line 440) does not look at the cancel flags. A signal before
  the first exchange, or a failure to set up the DHCP socket (lines 157-205), ends
  the DHCP thread and leaves `main` spinning (`ExitReachable`, `EarlySignalHangs`,
  `SetupFailureHangs`).
- Lines 226 and 241 of Src/test.c pass the mutex by value; they are read as
  locking and unlocking `_prefixMutex`.

## Model

| member | source | states |
|---|---|---|
| OnesComplement.OnesUnique | Src/ndp_packets.c:71-80 | a 16-bit sum congruent to the total modulo 0xFFFF that is zero only for a zero total is the RFC 1071 sum: no other representative fits |
| OnesComplement.OnesAdd | Src/ndp_packets.c:73-77 | adding with the end-around carry is adding plain totals, which justifies folding after every word |
| OnesComplement.SumSplit | Src/ndp_packets.c:104-112 | the sum of a buffer cut at an even offset is the end-around sum of the sums of the parts |
| OnesComplement.OrderIndependence | Src/ndp_packets.c:72-73 | any permutation of the words has the same sum (RFC 1071, section 2(A)) |
| OnesComplement.SwapIndependence | Src/ndp_packets.c:67-82 | swapping the bytes of every word swaps the bytes of the sum (RFC 1071, section 2(B)) |
| OnesComplement.HostIndependence | Src/ndp_packets.c:67-82 | hosts of either byte order that sum the same octets in their own order store the same two octets |
| OnesComplement.Rfc1071Example | Src/ndp_packets.c:67-82 | the octets of the example of RFC 1071, section 3, sum to 0xddf2 on a big-endian host and to its swap on a little-endian one |
| NdpChecksum.ChecksumCalCore | Src/ndp_packets.c:67-82 | an odd size fails and leaves the result alone; an even size yields the canonical one's complement sum of the octets, and no step overflows `int` |
| NdpChecksum.Checksum | Src/ndp_packets.c:84-115 | a null packet or zero size fails; otherwise exactly the checksum field is zeroed and the unfolded complement over the built pseudo-header and the zeroed packet is returned, odd sizes included |
| NdpChecksum.HeaderSumExact | Src/ndp_packets.c:94-107 | the built pseudo-header has the sum of the one required by RFC 8200 if and only if the host is big-endian or 257 divides the sum of the length's halves |
| NdpChecksum.MissingFold | Src/ndp_packets.c:104-114 | over the pseudo-header as built, the value is the complement of the one's complement sum if the partial sums do not carry, and exactly one too large if they do |
| NdpChecksum.ReturnedIsDue | Src/ndp_packets.c:84-115 | the value equals the checksum due, or even is congruent to it, if and only if there is no carry and the length order is harmless; the two deviations never cancel |
| NdpChecksum.ReturnedChecksumExact | Src/ndp_packets.c:84-115 | stored as a host word, the value puts the RFC 4443 checksum on the wire under exactly that condition |
| NdpChecksum.AcceptsExactly | Src/ndp_packets.c:92-114 | a receiver accepts a message if and only if its field is congruent to the checksum over the message with a zero field |
| NdpChecksum.ReceiverVerifies | Src/ndp_packets.c:92-114 | zeroing the field first and storing the complement of the fully folded sum makes the receiver's sum 0xFFFF, for all addresses and even sizes |
| NdpChecksum.ReturnedAccepted | Src/ndp_packets.c:92-114 | a receiver would accept the returned value, had it been stored, under the same exact condition |
| NdpChecksum.DroppedChecksumAccepted | Src/ndp_packets.c:52-56 | with the value dropped, the packet as built would be accepted if and only if its checksum is zero |
| NdpOptions.CreateLinkLayerAddressCore | Src/ndp_options.c:6-19 | types other than 1 and 2 give no option; otherwise every octet of the layout of RFC 4861, section 4.6.1, and a size of 8 times the length octet |
| NdpOptions.CreateSourceLinkLayerAddress | Src/ndp_options.c:21-23 | the source link-layer address option, octet for octet |
| NdpOptions.CreateTargetLinkLayerAddress | Src/ndp_options.c:25-27 | the target link-layer address option, octet for octet |
| NdpOptions.CreatePrefixInformation | Src/ndp_options.c:29-50 | RFC 4861, section 4.6.2, octet for octet on either host: valid lifetime before preferred, only the two top flag bits |
| NdpOptions.CreateMtu | Src/ndp_options.c:52-63 | RFC 4861, section 4.6.4, octet for octet on either host |
| NdpOptions.CreateRouteInformation | Src/ndp_options.c:72-111 | RFC 4191, section 2.3, with the length octet computed by the code and exactly the prefix octets that length announces |
| NdpOptions.LinkLayerAddressLayout | Src/ndp_options.c:10-16 | type, length 1 and address by offset |
| NdpOptions.PrefixInformationLayout | Src/ndp_options.c:34-47 | type 3, length 4, prefix length, flags, valid and preferred lifetime and prefix by offset |
| NdpOptions.MtuLayout | Src/ndp_options.c:52-63 | type 5, length 1 and the MTU by offset |
| NdpOptions.RouteInformationLayout | Src/ndp_options.c:83-108 | type 24, length, prefix length, preference, lifetime and prefix octets by offset |
| NdpOptions.RouteLengthExact | Src/ndp_options.c:77-108 | the length octet is 1, 2, 3, 4 or 5 for prefix lengths 0, up to 63, up to 127, up to 191 and above; it is one RFC 4191 allows, and the copy stays inside the address, if and only if the prefix length is below 128 |
| NdpOptions.TailClearExact | Src/ndp_options.c:98-108 | for every prefix length, the unmasked copy has only zero bits behind it if and only if the octet it ends in is a multiple of its last prefix bit's weight and all carried octets behind are zero |
| NdpPackets.RaLength | Src/ndp_packets.c:19-28 | the first pass computes the header plus all option sizes, always a multiple of 8, so the odd-size failure is unreachable |
| NdpPackets.FillRaHeader | Src/ndp_packets.c:30-42 | type 134, code 0, hop limit, flags 0x48, router lifetime, reachable time and retransmit timer each at its offset of RFC 4861, section 4.2, in network order on either host |
| NdpPackets.HeaderLayout | Src/ndp_packets.c:30-42 | the same offsets in any packet that starts with the header, whose checksum field is zero |
| NdpPackets.CopyOptions | Src/ndp_packets.c:44-49 | the second pass fills the packet exactly with the option images back to back and leaves the header alone |
| NdpPackets.CreateRAPacket | Src/ndp_packets.c:8-57 | the packet is header and option images, nothing else, of the returned length, with every header field at its offset |
| NdpPackets.WalkRecoversOptions | Src/ndp_packets.c:44-49 | the receiver's walk by length octets over copied options returns exactly those of non-zero length, in order |
| NdpPackets.ParsedRegion | Src/ndp_packets.c:44-49 | conversely a region the walk accepts is the concatenation of the options found, each of the size it announces |
| DhOptions.MemoryRoundTrip | Inc/dh_options.h:147-152 | a host finds an option at exactly the places that hold its memory image |
| DhOptions.CreateCustomOptPayload | Src/dh_options.c:11-22 | header with the length field truncated to 16 bits, and the data copied when some is given, in a payload of exactly the size asked for |
| DhOptions.CreateRapidCommit | Src/dh_options.c:65-67 | the memory image of an empty Rapid Commit option |
| DhOptions.CreateIaPd | Src/dh_options.c:28-45 | the memory image of an IA_PD with network-order identifier and zero times for a null or empty prefix list; any other list overruns the allocation |
| DhOptions.CreateClientIdentifierEn | Src/dh_options.c:69-85 | no option for an empty identifier; otherwise code 1, the truncated length, DUID type 2, the enterprise number and the identifier, each at its offset (RFC 8415, section 11.3) |
| DhOptions.DuidLayout | Src/dh_options.c:80-82 | type, enterprise number and identifier of the DUID by offset |
| DhOptions.CreateElapsedTime | Src/dh_options.c:88-97 | the memory image of an Elapsed Time option with its time in network order |
| DhPackets.DecodeEncoded | Src/dh_packets.c:21-33 | the reference decoder recovers every option list from its wire encoding |
| DhPackets.EncodeDecoded | Src/dh_packets.c:139-200 | what the decoder accepts is the encoding of what it returns |
| DhPackets.PacketLength | Src/dh_packets.c:9-15 | the first pass computes exactly the octets the encoding needs |
| DhPackets.CopyOption | Src/dh_packets.c:23-32 | a round of the copy loop appends the option's wire form and advances by its size, writing nothing before it |
| DhPackets.CreatePacket | Src/dh_packets.c:7-35 | the packet is type, transaction id and the wire encoding of the pointed options in order, and no payload changes |
| DhPackets.CreateCustomizedSolicitPacket | Src/dh_packets.c:61-110 | fails with size -1 and no packet if a mandatory option is missing or the clock fails; otherwise client id, elapsed time, IA_PD, then the extra options |
| DhPackets.SwapHeader | Src/dh_packets.c:144-145 | code and length at the offset are converted in place, every other octet stays |
| DhPackets.ParsedOptions.AppendIaPd | Src/dh_packets.c:160-181 | the list stays acyclic and null-terminated, gains exactly the new value at its end, and no earlier node's value changes |
| DhPackets.VisitOption | Src/dh_packets.c:139-186 | a round converts one header and records the option for its code |
| DhPackets.UnreadWraps | Src/dh_packets.c:188-200 | the wrapping unread count stays the distance to the end, and is zero only when an option ends the message exactly, never on an overrun |
| DhPackets.AdmittedTypes | Src/dh_packets.c:127-137 | exactly the message types 2 and 7 pass, for every size but 4 |
| DhPackets.ParseOptions | Src/dh_packets.c:117-206 | terminates on every length field; for any type but 2 and 7, or size 4, fails, records nothing and changes no octet; for types 2 and 7 leaves the buffer exactly when a visited header is not inside it, following the wrapping sum of address and size, and else succeeds, converts exactly the visited headers and returns the last client id, the last server id and all IA_PDs of the original octets |
| DhPackets.ParseFromMeaning | Src/dh_packets.c:139-203 | the loop, which reads lengths from a buffer it is modifying, visits and records what a walk over the unmodified message gives |
| DhPackets.RoundBound | Src/dh_packets.c:139-201 | every round consumes at least a header, so a message of any lengths takes fewer than (size - 4) / 4 + 1 rounds, at most (size - 4) / 4 if every header read lies inside it, and a single one if it ends before its options |
| DhPackets.SlackSuffices | Src/dh_packets.c:139-145 | three octets behind the message are enough for every header the parser may read |
| DhPackets.CapacityExact | Src/dh_packets.c:139-203 | the parser stays inside every admitted buffer of a capacity if and only if the capacity is size + 3 for sizes above 8, and 8 for the other admitted sizes, or more |
| DhPackets.FullBufferOverruns | Src/test.c:659-677 | for every capacity above 8 some admitted message that fills the buffer makes the parser leave it |
| DhPackets.NineOctetsOverrun | Src/dh_packets.c:144-145 | a concrete message of nine octets, with two octets of slack behind it, that does so |
| DhPackets.ShortMessageAdmitted | Src/dh_packets.c:121-137 | a message shorter than its header is admitted through the wrapped subtraction and one option wholly outside it is visited |
| DhPackets.WrappedSizeOneRound | Src/dh_packets.c:120-201 | a size whose sum with the address wraps, such as -1, is admitted, makes exactly one round, and leaves the buffer if and only if that has no room for one header |
| DhPackets.FirstPicked | Src/dh_packets.c:160-181 | the first pointer of the IA_PD list points at the start of the first option with that code |
| DhPackets.ExactEnd | Src/dh_packets.c:188-203 | the loop leaves through a zero unread count if and only if the options tile the message, and otherwise the last option visited overruns it |
| DhPackets.ExactVisits | Src/dh_packets.c:139-203 | when it does, the offsets visited are those of the options that tile the message |
| DhPackets.OverrunRecorded | Src/dh_packets.c:160-200 | a concrete reply whose only option claims 99 octets it does not have, and is recorded |
| DhPackets.VisitsEncoded | Src/dh_packets.c:139-200 | an encoded list is visited exactly option by option |
| DhPackets.ConvertsEncoded | Src/dh_packets.c:144-145 | afterwards the region is the same list with host-order headers and nothing outside it has changed |
| DhPackets.PicksEncoded | Src/dh_packets.c:151-186 | the offsets recorded for a code denote exactly the options with that code, in order |
| DhPackets.ParseEncoded | Src/dh_packets.c:117-206 | build, then parse: region, visited pointers, last client and server identifier and all IA_PDs are those of the encoded list |
| DhPackets.BuildParseRoundTrip | Src/dh_packets.c:7-206 | a built ADVERTISE or REPLY is admitted and ends with the payloads exactly as they lay in the caller's memory |
| DhPackets.RebuildParsed | Src/dh_packets.c:7-206 | parse, then rebuild: any message tiled by its options is recovered octet for octet from the visited pointers |
| Collection.BoundsTestExact | Src/collection.c:24 | the bounds test rejects exactly the indices past the end if and only if the list is not empty |
| Collection.WalkBounded | Src/collection.c:29-42 | neither walk leaves the chain, and it makes at most half the hops |
| Collection.BackwardExact | Src/collection.c:37-41 | the tail walk ends at the right node if and only if the index's slot number is at most the last element's, and otherwise one node too near the tail |
| Collection.PositionExact | Src/collection.c:29-48 | in numbers: the slot returned is 64 places on if the index is at least (count - 1) / 2 and its slot number exceeds that of the last element, and its own otherwise; always inside the chain |
| Collection.AllExact | Src/collection.c:23-49 | every index reaches its own slot if and only if the list fits one node, its last node is full, or no 32-bit index walks backward |
| Collection.PositionInjective | Src/collection.c:23-49 | distinct indices reach distinct slots in every list |
| Collection.MixedList.Index | Src/collection.c:23-49 | no address for a null list or past the end, a null node for an empty list, otherwise the slot at the node of that number, over the linked nodes |
| Collection.MixedList.Get | Src/collection.c:51-53 | the element of the flat sequence at that place |
| Collection.MixedList.WriteThroughIndex | Src/collection.c:48 | writing through the returned address changes exactly that element of the flat sequence and keeps the chain |
| Relay.StepInv | Src/test.c:111-460 | every atomic step of every thread, and the signal handler, keeps the invariant tying mutex, program counters, record and sent advertisements |
| Relay.InvHolds | Src/test.c:111-460 | the invariant holds in every reachable state of either mode |
| Relay.MutualExclusion | Src/test.c:124-241 | at most one thread is inside a critical section, and it holds the mutex |
| Relay.RecordComplete | Src/test.c:226-241 | whenever the DHCP thread does not hold the mutex the record is what complete exchanges left |
| Relay.EveryRaComplete | Src/test.c:124-142 | every advertisement carries one complete record, never an older one than before; in DHCP mode none precedes the first exchange despite the unlocked spin, in static mode it is the configured prefix and length with lifetimes 48000 and 24000 |
| Relay.PublishedClosed | Src/test.c:226-241 | the record in closed form: last reply's prefix, length 64, lifetimes as numbers, byte-reversed for an odd number of failures since |
| Relay.RaFaithful | Src/test.c:226-241 | in DHCP mode an advertisement is the one its reply calls for if and only if the host is big-endian, the failures since are even, or the lifetimes are palindromic; before any reply it carries the zero prefix |
| Relay.FirstReplyGates | Src/test.c:434-453 | if the first exchange delivers a reply, every advertisement stems from a reply |
| Relay.FailureOpensGate | Src/test.c:226-241 | a concrete run in which a failed first exchange lets the zero prefix out |
| Relay.FailureReversesLifetimes | Src/test.c:226-241 | for every reply, a run, with no send accepted on a closed socket, in which one failed exchange after it makes a little-endian host advertise both lifetimes byte-reversed, so not what the reply calls for unless both are palindromic |
| Relay.OrdinaryLifetimes | Src/test.c:229-230 | lifetimes of 3600 and 7200 seconds are not palindromic |
| Relay.OneExchangeHolds | Src/test.c:647-689 | if no send is accepted on the closed socket, every exchange after the first fails, and a reply is awaited only before any has ended |
| Relay.ParityOfExchanges | Src/test.c:226-241 | then every advertisement stems from the first exchange: the zero prefix if it failed, and else what its reply calls for if and only if the host is big-endian, an odd number of exchanges preceded, or the lifetimes are palindromic |
| Relay.LostReplySilences | Src/test.c:647-667 | then a lost reply means that nothing was or will be advertised, and `main` spins in every continuation without a reply |
| Relay.ReleasedByOwnSteps | Src/test.c:124-241 | in every reachable state of a running process the mutex can be released by steps of its holder alone if and only if the holder is not awaiting a reply |
| Relay.SurelyReleased | Src/test.c:124-241 | past the exchange, and in the advertising threads, every schedule in which the holder makes the few steps it needs releases the mutex on the way |
| Relay.LostReplyStarves | Src/test.c:647-667 | while a reply is awaited, every continuation without one keeps the mutex held, the record as it is, and sends nothing |
| Relay.AwaitReached | Src/test.c:226-659 | such a state is reached by the first exchange of a run |
| Relay.ExitReachable | Src/test.c:434-460 | the process can still exit if and only if `main` does not spin on a zero length with the DHCP thread finished, or before its first exchange and cancelled, and is not about to |
| Relay.EarlySignalHangs | Src/test.c:434-442 | a signal right after the DHCP thread is created leaves `main` spinning in every continuation, with nothing sent |
| Relay.SetupFailureHangs | Src/test.c:157-205 | so does a DHCP thread that cannot make, bind or address its socket |
| Relay.SetupFailures | Src/test.c:79-101 | a failed set-up of the RA thread ends the process through its cancel flag, one of the RS thread ends the process or only itself; `main` leaves its wait exactly when one of their flags is set |
| Relay.StaticServes | Src/test.c:385-453 | in static mode `main` starts both threads with the configured record and without any exchange |
| Relay.GateOpens | Src/test.c:440-453 | the spin ends exactly when the length is not zero, and both threads are started |
| Relay.CanSendExact | Src/test.c:111-356 | from every reachable state with the mutex free, the RA or RS thread can send the record as it is by its own moves, the end of its sleep or a solicitation, if and only if it has been started, has not ended and is not about to because it is cancelled |
| Relay.BothThreadsServe | Src/test.c:452-457 | once `main` waits both threads have been started, and each, unless cancelled, can send the record whenever the mutex is free |
| Relay.Cadence | Src/test.c:224-356 | in every run, exactly: one exchange and one more after each sleep of the DHCP thread, one advertisement and one more after each sleep of the RA thread, one for each solicitation the RS thread has taken but the one it is answering, and no others |
| Relay.SignalWindsDown | Src/test.c:32-39 | after a signal, in every continuation of every run, at most 34 steps change anything, each advertising thread sends at most once more and at most one more exchange ends |
| Relay.CancelledEnds | Src/test.c:111-356 | a cancelled thread that was started can end by its own events whenever the mutex is free |
| Relay.StepSafe | Src/test.c:111-460 | the record changes only while the DHCP thread holds the mutex, the mutex changes hands only through the free state, and what a step sends is one advertisement of the complete record, by a holder of the mutex |
| Relay.Daemon.Perform | Src/test.c:111-460 | one step executed on the shared variables keeps the invariant and is safe in the sense of `StepSafe` |
| Relay.Daemon.Run | Src/test.c:111-460 | any schedule executed in place keeps the invariant, takes back nothing that was sent, and every new advertisement carries one complete record |
| Exchange.BuildSolicit | Src/test.c:584-628 | the solicitation is type 1, the transaction id and 40 literal octets: client identifier, elapsed time, IA_PD, rapid commit, on either host; it decodes to those options |
| Exchange.SolicitOctets | Src/test.c:584-628 | the literal octets are the encoding of the four options |
| Exchange.ReceivePrefix | Src/test.c:659-688 | a message of any type but 2 and 7 gives no image and is left unchanged; for these two, returns the octets copied out of the first IA_PD of the converted buffer, and none exactly when the source leaves the buffer, in its dump, its parser or its copy, or uses a null pointer |
| Exchange.InnerOptionUnchecked | Src/test.c:683-688 | for every well-formed reply: without an IA_PD no image; with one, the 25 octets at a fixed distance from its start, whatever they belong to, in the converted message or behind it |
| Exchange.ImageWithin | Src/test.c:683-688 | an IA_PD with 41 octets of data or more gives octets of its own data, untouched by the conversion |
| Exchange.ImageDetermined | Src/test.c:683-688 | the image is a function of the first IA_PD alone if and only if its data has 41 octets or more |
| Exchange.NoPrefixTaken | Src/test.c:683-688 | for every buffer that holds a NoPrefixAvail answer, the status code and 23 octets from behind the message become the lease |
| Exchange.OfferReadExact | Src/test.c:683-688 | what is read is a prefix the first IA_PD offers if and only if its inner options are well formed and the first is a whole IA Prefix |
| Exchange.OfferedImageRead | Src/test.c:683-688 | for a reply whose first IA_PD starts with an IA Prefix these are the offered octets, untouched by the conversion |
| Exchange.SampleReplyRead | Src/test.c:677-688 | a reply in literal octets: its prefix and the places of its recorded options |
| Exchange.SendRouterAdv | Src/test.c:463-492 | the advertisement octet for octet: header, link-layer address, prefix information, route information, MTU |
| Exchange.AdvertisementOctets | Src/test.c:463-492 | all 80 octets by offset, constants in literals |
| Exchange.SampleAdvertisement | Src/test.c:463-492 | the advertisement the sample reply calls for, in literal octets |
| Exchange.AdvertisementDecodes | Src/test.c:469-492 | a receiver's walk over it finds the four options |
| Exchange.RouteTail | Src/test.c:477 | the route option of the advertisement has zero bits behind its /56 if and only if the eighth prefix octet is zero |
| Exchange.LeaseConserved | Src/test.c:226-241 | end to end in every run: prefix octets are conserved, and the lifetimes, exchanged in position between the two messages, are conserved under exactly the condition of `RaFaithful` |
| Exchange.AdvertisementChecksumWrong | Src/ndp_packets.c:84-115 | for no advertisement sent does a little-endian host compute the ICMPv6 checksum |
| Exchange.AdvertisementCarries | Src/ndp_packets.c:104-114 | from fe80::1f1 to all nodes every advertisement makes the partial sums carry, and a big-endian host returns a wrong checksum |

## Left out

- Sockets, ioctl, multicast membership, interface lookup, signals as such and logging: only their outcomes appear, as arbitrary inputs or steps.
- Transaction id generation: the id is an arbitrary three-octet input, the clock an arbitrary outcome.
- Failure of `malloc`, and releasing memory.
- Whether the system refuses a send on the closed socket: Relay.dfy lets it accept one, and `ClosedRefuses` singles out the runs in which it does not.
- Replies for which `ReceivePrefix` has no image, a `recvfrom` that returns -1 among them: the program uses a null pointer or leaves its buffer there (Src/test.c:660-688), so in Relay.dfy an exchange fails to send, delivers an image, or waits.
- Lifetime of the process after `main` returns, and the duration of every `sleep`.
- DhPackets.ParseOptions: the buffer lies in the lower half of the address space, as every user-space object does; what happens after it leaves the buffer is undefined and not modelled.
- Exchange.ReceivePrefix: the same place for the buffer.
- DhPackets.CreatePacket: every option pointer must be readable for its header and the length it declares, as the source's copy demands.
- NdpPackets.CreateRAPacket: every option must be readable for eight times its length octet.
- NdpOptions.CreateRouteInformation: the prefix argument must be readable for as many octets as the code copies; for a 16-octet address this excludes prefix lengths of 128 and more, where the code reads past it.
- DhOptions.CreateIaPd: the overrun by a non-empty prefix list is only reported, not followed.
- Collection.MixedList.Get: requires an index in range; for any other the source dereferences the null address.
- NdpChecksum.ChecksumCalCore: the loop counter is unbounded, where the source's `int` limits sizes to 4 GiB.
- `dh_createOption_IAPrefix`, `ndp_createOptionAdvertisementIntervalOption`, `dh_createSolicitPacket`, `dh_createRapidSolicitPacket`: unused by the program.
- `_Utils_MixedListCreate`, `Utils_MixedListSet`, `Utils_MixedListFree`, `dh_createCustomizedRequestPacket`: empty or constant bodies.
- `ReceiveSrcAddrFromRouterSolicit`: the arrival of a valid solicitation is a single event; the messages it drops are not modelled.
