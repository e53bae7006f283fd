# A verified model of the layer-2 gateway

`gateway-socket` is a transparent gateway between an inside and an outside network. It rewrites MAC
addresses in the frames it forwards, hands out addresses by DHCP from a database, and runs two threads
that talk through mailboxes. This project models its core in Dafny and proves what it promises over all
frames, all requests and all interleavings.

| file | models |
|---|---|
| `Octets.dfy`, `Packets.dfy` | bytes, addresses, the bounds-checked `Packet` buffer |
| `Frames.dfy` | the Ethernet, ARP, IP, UDP and DHCP header accessors |
| `Checksums.dfy` | `one_compl` and the fold, against RFC 1071 |
| `MacText.dfy` | `printMAC`, `hex_to_byte`, `readMAC` |
| `Dhcp.dfy`, `Udp.dfy`, `Reply.dfy`, `Icmp.dfy` | the packet builders and what a receiver reads back |
| `Tables.dfy`, `Database.dfy` | the SQL statements as table operations, the allocator, `class Database` |
| `Mailboxes.dfy` | queue, eventfd counter and lock, one primitive step at a time |
| `Forwarding.dfy`, `Gateway.dfy` | the packet and callback steps as functions, and `class Gateway` |
| `Wire.dfy` | the packet steps again, stated on the bytes of every frame without the accessors |
| `Ownership.dfy`, `System.dfy`, `Safety.dfy`, `AccessLog.dfy` | the whole program as a transition system and its run theorems |
| `Program.dfy` | the objects together, each step of which is proved to be a step of that system |
| `Witnesses.dfy` | inputs on the failing side of the exact conditions of a single call |
| `RunWitnesses.dfy` | runs on the failing side of what the run theorems assume |
| `LateRemoval.dfy` | a run in which a removal frees another record than the one it was meant for |

Reading guide: a method of a class states its new state as a function of the old one; the properties are
then proved about that function. Lemmas named `...Exactly`, `...Bytes` and `...OnTheWire` say what such a function
means by cases on rows, queues and literal bytes, without the functions it is made of. The main results are `Safety.EveryStepDefined`,
`Safety.FirstUndefinedIsDangling`, `Safety.NoSpoofingInAnyRun`, `Safety.TranslationInvertsInAnyRun`,
`Safety.RecordsHaveOneOwner`, `Safety.LossInAnyRun`, `AccessLog.GapsExactly` with `AccessLog.ReportsAreSpaced`,
`RunWitnesses.NeverUndefinedExactly`, the run lemmas of `Tables`, `Mailboxes.MailboxSafety`,
`Udp.UdpFrameVerifies` and `Reply.ReplyReadsBack`.

## Conventions and assumptions

- Undefined behaviour of the source (following an `end()` iterator, using or freeing a freed record)
  clears the `ok` field of the gateway state, for good. A run is defined when its last state still has it.
- Stack bytes read before they are written (`ArpSourceIP`, `ArpDestinationIP` on short frames) are the
  explicit `Junk` argument. Uninitialised heap bytes are arbitrary.
- The host is little-endian; `lease_time` and the other integers copied from memory are raw bytes.
- `mac` is the key of `user` and `ip` the key of `static_ip`. The order in which the server returns equal
  rows is open. `executeUpdate` counts matched rows. The statements of one request of
  `create_dhcp` are one step with respect to an administrator who edits `user`, and so are the statement and the
  `delUserInfo` of one report of `update_time`. The `addUserInfo` and the `sendPacketRequest` of a request are steps
  of their own: the packet thread and the administrator may act before, between and after them.
- Runs start with both tables loaded (`Safety.Started`; `Safety.StartExists` shows that every pair of tables
  can be loaded) and contain the steps of both threads, of an administrator who may write or remove any row
  of `user`, and of callers of `delStaticIP`. `static_ip` does not change while the program runs. Beyond that:
  - `RecordsHaveOneOwner`, `FirstUndefinedIsDangling`, `HistoryIsReal`, `NoSpoofingInAnyRun` and `GapsExactly`
    assume nothing but a defined run.
  - `TranslationInvertsInAnyRun` also assumes that `delStaticIP` is not called, which no code in the program does.
  - `EveryStepDefined` assumes, instead of a defined run, that `delStaticIP` is not called and that the user
    addresses stored at start-up are in `static_ip`. Both are needed: `RunWitnesses.DelStaticBreaksARealRun`
    for the first, and for the second, from every start, `RunWitnesses.NeverUndefinedExactly`.
  - `AddressesStayUnshared`, `OffersNameSoleHolder`, `LossInAnyRun` and `HeldUntilTaken` assume that the table
    starts without a shared address and that the administrator does not write one.
  - `ReportsAreSpaced` assumes that clock readings leave room for the timeout below 2^64; `GapsExactly` says what
    holds without that.
- An event round serves every queue that was not empty when the round began.
- Mailbox operations are atomic in `System`; `Mailboxes.MailboxSafety` proves that the lock-step mailbox
  refines the atomic one.

Where code and comment or standard disagree, the code is modelled: the comment of dhcp.cpp:68 says that
both the server and the relay address are zeroed, but only four of the eight bytes are (`hole` in
`Dhcp.Message`); a computed UDP checksum of zero is sent as zero (`Udp.ZeroChecksumExactly`); the cutoff of
database.cpp:231 wraps for a clock below the lease time (`Tables.LeaseRespectedExactly`); the length byte of
option 6 wraps beyond 63 name servers (`Dhcp.OptionsRecovered`).

## Model

| member | source | states |
|---|---|---|
| Packets.ReadOverWrite | gateway-socket/packet.cpp:58-69 | an in-range write is read back; a read that does not overlap a write, or any read around a dropped write, is unaffected |
| Packets.ReadWriteExactly | gateway-socket/packet.cpp:58-69 | every byte of a read and every byte after a write, by its index |
| Packets.Packet.ReadByteArray | gateway-socket/packet.cpp:58-63 | returns the bytes asked for, or leaves the caller's buffer untouched when out of range |
| Packets.Packet.WriteByteArray | gateway-socket/packet.cpp:64-69 | patches exactly the range, or nothing when out of range |
| Packets.Packet.ReadByte | gateway-socket/packet.cpp:71-76 | the byte, or -1 out of range |
| Packets.Packet.WriteByte | gateway-socket/packet.cpp:77-82 | changes that byte only, or nothing out of range |
| Packets.Packet.constructor | gateway-socket/packet.cpp:13-23 | a fresh buffer of the capacity with nothing visible |
| Checksums.FoldIsCanonical | gateway-socket/gateway.cpp:282-284 | the two fold lines give, for every 32-bit value, the complete end-around-carry sum: same residue modulo 65535, zero only for zero |
| Checksums.FoldRefinesRfc | gateway-socket/gateway.cpp:274-283 | for any message of at most 65537 words the accumulator does not wrap and the fold equals the word-by-word sum of RFC 1071 |
| Checksums.RfcSumOfWord | gateway-socket/gateway.cpp:279 | a word, or a last odd byte in the high half, counts in network order |
| Checksums.ChecksumVerifies | gateway-socket/udp.cpp:76-85 | a message whose zeroed checksum field received the complement of the folded sum adds up to 0xFFFF at any receiver |
| Checksums.OneCompl | gateway-socket/gateway.cpp:272-285 | computes the complement of the RFC 1071 sum of any even buffer of at most 65537 words, with the 32-bit wrap written out beyond that |
| MacText.PrintThenRead | gateway-socket/ethernet.cpp:38-92 | reading a printed address gives the address back |
| MacText.ReadThenPrint | gateway-socket/ethernet.cpp:38-92 | printing what was read gives the canonical upper-case, colon-separated text of the first twelve digits, whatever the case, separators and tail |
| MacText.HexValueExactly | gateway-socket/ethernet.cpp:46-55 | the values of both alphabets of hexadecimal digits, and of no other character |
| MacText.PrintOctets | gateway-socket/ethernet.cpp:38-44 | seventeen characters for six octets, a colon at every third place, upper-case hexadecimal elsewhere |
| MacText.ReadMac | gateway-socket/ethernet.cpp:57-92 | terminates on every text with at least twelve hexadecimal digits with the address they spell |
| Dhcp.ParseFields | gateway-socket/dhcp.cpp:90-133 | a type-length-value reader recovers any list of options exactly when each value's length fits in a byte |
| Dhcp.OptionsRecovered | gateway-socket/dhcp.cpp:90-134 | the message is 274+4n bytes, and the reader recovers message type, server, lease time, mask, router, MTU and name servers under 53, 54, 51, 1, 3, 26 and 6, in that order, and meets 255 on the last byte, exactly when n <= 63 |
| Dhcp.OptionBytes | gateway-socket/dhcp.cpp:90-133 | every option byte for any number of name servers, the wrapped length byte included |
| Dhcp.HeaderBytes | gateway-socket/dhcp.cpp:50-87 | every byte before the options at its offset |
| Dhcp.JoinExactly | gateway-socket/dhcp.cpp:127-132 | each name server is at its place in option 6 |
| Dhcp.WriteResponse | gateway-socket/dhcp.cpp:48-135 | every byte of the message except 24..27 is fixed by the arguments, those four keep their contents, and nothing outside the message changes |
| Dhcp.WriteHeader | gateway-socket/dhcp.cpp:50-87 | the fixed part up to the magic number, four of its bytes skipped |
| Udp.UdpFrameVerifies | gateway-socket/udp.cpp:76-141 | the IP header and the datagram behind the literal pseudo-header of RFC 768 both sum to 0xFFFF, for payloads of odd and even length |
| Udp.ZeroChecksumExactly | gateway-socket/udp.cpp:138-141 | the field sent is zero exactly when the sum over the pseudo-header and the zeroed datagram is 0xFFFF |
| Udp.FrameBytes | gateway-socket/udp.cpp:51-141 | every byte of the frame but the checksums: addresses, lengths, flags, time to live, protocol, ports |
| Udp.SumDatagram | gateway-socket/udp.cpp:121-137 | the loop over the datagram computes the word sum with a last odd byte in the high half |
| Udp.MakePacket | gateway-socket/udp.cpp:44-145 | returns -1 and changes nothing when the frame does not fit; otherwise the buffer holds the frame whose sums verify, and bytes beyond it are unchanged |
| Reply.ReplyReadsBack | gateway-socket/database.cpp:279-299 | build then parse is the identity: MACs, addresses, ports, opcode, transaction id, client MAC, offered address and message type read back as given |
| Reply.ReplyWellFormed | gateway-socket/database.cpp:279-299 | both checksums of the reply verify, and a client recovers this configuration's server, mask, router and name servers, an MTU of 1500 and the lease exactly for up to 63 name servers |
| Reply.LeaseIsTwoHours | gateway-socket/gateway.hh:22 | the lease on the wire, read in host order, is the 7200 seconds after which an address may be reclaimed |
| Reply.BuildReply | gateway-socket/database.cpp:278-299 | the packet queued for sending is that reply, or has length -1 when there are more name servers than fit |
| Icmp.TooBigAnswersSender | gateway-socket/gateway.cpp:316-358 | the answer goes back with MACs and addresses swapped, both checksums verify, it carries the MTU and quotes the datagram |
| Icmp.TooBigBytes | gateway-socket/gateway.cpp:316-358 | every byte of the answer but the checksums |
| Icmp.AnsweredExactly | gateway-socket/gateway.cpp:297-314 | which frames are answered, by their bytes |
| Icmp.IcmpMtu | gateway-socket/gateway.cpp:294-360 | answers exactly the IP frames with a twenty-byte header and eight more bytes, with that frame |
| Tables.SettleHolds | gateway-socket/database.cpp:241-268 | after a request the requester holds the decided address, a reclaimed address has left its owner, nothing else moved |
| Tables.SomeDecision | gateway-socket/database.cpp:207-261 | every request is decided by some branch |
| Tables.DecidesExactly | gateway-socket/database.cpp:201-256 | each decision holds exactly under its conditions on the rows: unknown user, own address, unheld dynamic address, least recently seen expired owner of a dynamic one, none of these |
| Tables.GainedIsDynamic | gateway-socket/database.cpp:213-217 | whoever newly holds an address after a request is the requester, and the address is a dynamic one of `static_ip` |
| Tables.ResponseExactly | gateway-socket/database.cpp:263-312 | a response names the address the requester ends up with, and goes out exactly when that is in `static_ip` |
| Tables.RunKeepsUnique | gateway-socket/database.cpp:190-316 | from a table without shared addresses no run of requests makes one, and each response names the only holder of its address at that moment |
| Tables.LossIsReclaim | gateway-socket/database.cpp:213-256 | an owner loses its address in a step exactly when the step reclaims it, and then all conditions of the reclaim held |
| Tables.RunLossIsReclaim | gateway-socket/database.cpp:213-256 | over any run of requests an address leaves its owner only if it is dynamic, none is unused, and that owner is expired and least recently seen; the requester becomes its only holder |
| Tables.LeaseRespectedExactly | gateway-socket/database.cpp:227-235 | the reclaimed owner was idle for a whole lease exactly when the clock is at least one lease |
| Tables.RefusedExactlyWhenFull | gateway-socket/database.cpp:213-249 | a known requester is refused exactly when it holds nothing, every pool address is owned and no pool owner has expired; then at least as many fresh users hold addresses as the pool has |
| Tables.RunGrowsAssigned | gateway-socket/database.cpp:207-268 | the set of assigned addresses never shrinks over a run and gains at most one per request |
| Tables.HeldUntilReclaimed | gateway-socket/database.cpp:207-268 | an address stays with its owner over any stretch of a run that does not reclaim it |
| Tables.SameAddressUnlessReclaimed | gateway-socket/database.cpp:207-268 | two requests of one user get the same address unless a step between them reclaimed it |
| Database.Database.Decide | gateway-socket/database.cpp:201-256 | the queries lead to one of the decisions the tables allow |
| Database.Database.Assign | gateway-socket/database.cpp:201-268 | the statements of one request settle the table as one of the allowed decisions does |
| Database.Database.Build | gateway-socket/database.cpp:278-299 | the bytes queued are the reply determined by the request and the address, or none when it does not fit |
| Database.Database.ServeRequest | gateway-socket/database.cpp:196-316 | the table is settled, a record is allocated and queued exactly for an acknowledgement, a reply is queued exactly for a response |
| Database.Database.Respond | gateway-socket/database.cpp:278-312 | queues the reply for the request and address, or an empty packet when it does not fit, and the record only when it is not a discover |
| Database.Database.CreateDhcp | gateway-socket/database.cpp:173-328 | draining and serving a batch is a run of the allocator over its requests in order, with the records and replies of that run |
| Database.Database.UpdateTimes | gateway-socket/database.cpp:127-171 | each report with a row is recorded, each without one asks for the removal of its user, in order |
| Database.Database.RecordAccess | gateway-socket/database.cpp:149-169 | one report: recorded if its user has a row, otherwise the user is to be removed |
| Database.AccessesMoveNoAddress | gateway-socket/database.cpp:144-170 | recording accesses moves no address; a user's time is its last report, and unchanged without one |
| Database.VanishedInOrder | gateway-socket/database.cpp:165-169 | removals are asked for in the order of the reports |
| Database.OneVanished | gateway-socket/database.cpp:165-169 | one removal for a report without a row, none for one with |
| Database.OutcomeExactly | gateway-socket/database.cpp:263-312 | a request is answered exactly when it leaves its user with an address of `static_ip`, and then allocates a record with that address exactly when it is no discover |
| Mailboxes.MailboxSafety | gateway-socket/gateway.cpp:719-764 | under every interleaving no drain meets an empty queue, items are drained in order and once each, the counter is the queue length whenever the lock is free, and the run is one of the atomic mailbox |
| Mailboxes.RunRefines | gateway-socket/database.cpp:399-421 | the lock-step mailbox refines the atomic one from any state of the invariant |
| Mailboxes.EnqueueCompletes | gateway-socket/gateway.cpp:719-726 | with the lock free an enqueue runs to its end and appends its item |
| Mailboxes.DrainCompletes | gateway-socket/database.cpp:179-188 | with the lock free and items queued a drain runs to its end and takes them all in order |
| Mailboxes.Mailbox.Enqueue | gateway-socket/database.cpp:399-409 | appends one item and keeps the counter equal to the queue length |
| Mailboxes.Mailbox.Drain | gateway-socket/database.cpp:179-188 | moves all queued items, in order, to the batch |
| Forwarding.InsideForwardsExactly | gateway-socket/gateway.cpp:400-548 | which complete frames leave, and with what bytes, in both directions of the equivalence |
| Forwarding.InsideConsumesExactly | gateway-socket/gateway.cpp:463-499 | a request reaches the database exactly for a discover or request naming its own sender, and carries its fields |
| Forwarding.InsideUndefinedExactly | gateway-socket/gateway.cpp:433-445 | of all frames, ARP frames too short to hold their addresses included, exactly those of a registered user without a static entry follow the `end()` iterator |
| Forwarding.StepsDefined | gateway-socket/gateway.cpp:377-704 | under coherent maps no frame is undefined on either side and no outside frame changes the maps |
| Forwarding.InsideReport | gateway-socket/gateway.cpp:535-547 | an inside frame changes nothing but the access time of the record it reports, and only when due |
| Forwarding.OutsideRemoves | gateway-socket/gateway.cpp:619-624 | an outside frame removes at most one user, and only one without a static address |
| Forwarding.DueIsSpacedExactly | gateway-socket/gateway.cpp:537 | a due report is more than a timeout after the last one exactly when `last_access + timeout` did not wrap |
| Forwarding.OutsideForwardsExactly | gateway-socket/gateway.cpp:563-703 | which complete frames come in, and with what bytes, in both directions of the equivalence |
| Forwarding.OnlyMacBytesChange | gateway-socket/gateway.cpp:443-444 | outward only the Ethernet source and an ARP sender MAC may change, inward only the Ethernet destination and an ARP target MAC; lengths are kept |
| Forwarding.NoSpoofedFrameLeaves | gateway-socket/gateway.cpp:418-450 | a complete frame leaving from a static address came from the registered MAC and carries the static MAC; none leaves towards a static address |
| Forwarding.TranslationInverts | gateway-socket/gateway.cpp:567-703 | in any state, every answer to a registered user's forwarded frame, of any protocol, length and content, is delivered to that user's MAC, unless it is shaped like DHCP |
| Forwarding.MirroredAnswerDroppedExactly | gateway-socket/gateway.cpp:687-700 | an answer of the same protocol with exchanged ports is dropped exactly when the user is at the broadcast address and spoke from port 67 to port 68 of the null address |
| Wire.InsideArpBytes | gateway-socket/gateway.cpp:404-450 | under coherent maps: what becomes of every ARP request and reply from inside, its bytes, the report and the record |
| Wire.InsideIpBytes | gateway-socket/gateway.cpp:452-548 | the same for every IP frame that is not DHCP, options in its header included |
| Wire.InsideDhcpBytes | gateway-socket/gateway.cpp:463-499 | in any state: a datagram between the DHCP ports is queued with the fields at their offsets or dropped |
| Wire.InsideOtherBytes | gateway-socket/gateway.cpp:391-416 | in any state: short, cut-off and malformed frames are dropped, every other type passes unchanged |
| Wire.OutsideArpBytes | gateway-socket/gateway.cpp:566-625 | what becomes of every ARP request and reply from outside, its bytes and the users forgotten |
| Wire.OutsideIpBytes | gateway-socket/gateway.cpp:627-701 | the same for every IP frame from outside, the two DHCP tests included |
| Wire.OutsideOtherBytes | gateway-socket/gateway.cpp:563-632 | malformed ARP and cut-off IP are dropped, everything else passes unchanged |
| Wire.TooLongBytes | gateway-socket/gateway.cpp:383-389 | a frame longer than the buffer is answered, if it is plain IP, with these seventy bytes, and changes nothing |
| Wire.ArpOnTheWire | gateway-socket/arp.cpp:33-42 | which bytes make an ARP header well-formed, and where its addresses are |
| Wire.IpOnTheWire | gateway-socket/ip.cpp:48-55 | the length of an IP header for every value of its first byte, and where its addresses are |
| Gateway.Gateway.InsideFrame | gateway-socket/gateway.cpp:377-549 | one iteration of the inside loop on any frame that is not dangling: verdict, maps, device writes and both database mailboxes are those of the step function |
| Gateway.Gateway.OutsideFrame | gateway-socket/gateway.cpp:551-704 | one iteration of the outside loop, lazy removal included |
| Gateway.Gateway.TakeDhcp | gateway-socket/gateway.cpp:469-498 | the fields are read from the buffer and the request queued exactly when the step function consumes it |
| Gateway.Gateway.Route | gateway-socket/gateway.cpp:418-450 | the lookups, the in-place rewriting and the report, wherever the lookup of the sender's static entry succeeds |
| Gateway.Gateway.Touch | gateway-socket/gateway.cpp:535-547 | reports exactly when due, and then moves the access time to now |
| Gateway.Gateway.DrainAddStatic | gateway-socket/gateway.cpp:45-67 | every queued address is inserted in order, later ones replacing earlier |
| Gateway.Gateway.DrainDelStatic | gateway-socket/gateway.cpp:69-89 | every queued address is erased |
| Gateway.Gateway.DrainAddUser | gateway-socket/gateway.cpp:91-125 | every queued record is inserted in order, the record it replaces freed, and ownership is kept |
| Gateway.Gateway.DrainDelUser | gateway-socket/gateway.cpp:126-155 | every queued address loses its record, which is freed, and ownership is kept |
| Gateway.Gateway.DrainSend | gateway-socket/gateway.cpp:157-172 | every queued packet is written to the inside device in order |
| Gateway.Gateway.AddStaticIP | gateway-socket/gateway.cpp:719-726 | one pair is queued |
| Gateway.Gateway.DelStaticIP | gateway-socket/gateway.cpp:728-735 | one address is queued |
| Gateway.Gateway.AddUserInfo | gateway-socket/gateway.cpp:737-746 | a new record is allocated and queued, and ownership is kept |
| Gateway.Gateway.DelUserInfo | gateway-socket/gateway.cpp:748-755 | one address is queued |
| Gateway.Gateway.SendPacketRequest | gateway-socket/gateway.cpp:757-764 | one packet is queued |
| Ownership.AddUsersOwned | gateway-socket/gateway.cpp:100-122 | draining the add queue leaves every live record in the map under its own address, and only frees |
| Ownership.DelUsersOwned | gateway-socket/gateway.cpp:133-152 | removals keep every live record in exactly one place and only free |
| Ownership.AddStaticsExactly | gateway-socket/gateway.cpp:54-64 | after the drain each queued address has the MAC queued last for it, and nothing else has changed |
| Ownership.DelStaticsExactly | gateway-socket/gateway.cpp:78-86 | after the drain exactly the queued addresses are gone |
| Ownership.AddUsersExactly | gateway-socket/gateway.cpp:100-122 | after the drain each queued address maps to the record queued last for it, the others as before |
| Ownership.DelUsersExactly | gateway-socket/gateway.cpp:133-152 | exactly the queued addresses are gone from the map and exactly their records are freed |
| Ownership.RemovalFreesExactly | gateway-socket/gateway.cpp:135-150 | a removal caused by a report frees the record that report was sent for exactly when it still stands in the map under the reported address, and otherwise whatever record stands there |
| Ownership.OutsideOwned | gateway-socket/gateway.cpp:680-685 | the lazy removals of the outside loop free a record that is owned and leave every other in its one place |
| System.BootInv | gateway-socket/main.cpp:288-301 | the state that start-up leaves to the threads satisfies the invariant, whatever the tables hold |
| System.StepKeepsInv | gateway-socket/gateway.cpp:372-710 | every defined step of every thread, the administrator and `delStaticIP` included, keeps one owner per record, true records and a static map that agrees with the table |
| System.OnlyDanglingUndefined | gateway-socket/gateway.cpp:443 | from the invariant the only undefined step is an inside frame of a registered user without a static entry |
| System.StepKeepsCovered | gateway-socket/gateway.cpp:709 | every defined step but `delStaticIP` keeps each static address in the map or queued for it, lets users enter the map only when that queue has been, or is being, drained, and keeps every record's address in the table |
| System.CoveredStepDefined | gateway-socket/gateway.cpp:433-445 | from those invariants every step is defined |
| System.ServingCoherent | gateway-socket/gateway.cpp:372-377 | with every record's address in the table, each user at a packet step has a static address and a live record under its own key |
| System.ReadyExactly | gateway-socket/gateway.cpp:709 | a round serves exactly the queues that were not empty |
| System.DutyExactly | gateway-socket/database.cpp:263-312 | after the statements of a request a reply is due exactly if its user holds an address of `static_ip`, a record too exactly if it is no discover |
| System.InsideSends | gateway-socket/gateway.cpp:487-547 | what an inside frame sends to the database, and the history of reports |
| System.StepKeepsUnique | gateway-socket/database.cpp:190-316 | no step makes two users share an address unless the administrator writes one that is held |
| Safety.EveryStepDefined | gateway-socket/gateway.cpp:433-445 | in every run without `delStaticIP`, at every packet step, each `userMap` key is in `staticIPMap`, no frame is undefined and no user is lazily removed |
| Safety.FirstUndefinedIsDangling | gateway-socket/gateway.cpp:517-528 | in every run from every start the first undefined step, if any, is such an inside frame, so no record is ever freed twice or used after being freed |
| Safety.NoSpoofingInAnyRun | gateway-socket/gateway.cpp:502-533 | in every defined run a complete frame that leaves from a static address was sent by a MAC the `user` table has assigned it to, and leaves with the MAC of the `static_ip` table, in an ARP payload too |
| Safety.TranslationInvertsInAnyRun | gateway-socket/gateway.cpp:645-700 | in every defined run without `delStaticIP`, from any start tables, an answer arriving any number of steps after a user's frame could leave is delivered to that user, if still registered, unless it is shaped like DHCP |
| Safety.AddressesStayUnshared | gateway-socket/database.cpp:190-316 | over whole runs, with accesses and administration interleaved, no two users come to share an address |
| Safety.OffersNameSoleHolder | gateway-socket/database.cpp:263-312 | in every run, from the decision of a request until its reply is queued, the reply names the one holder of its address, whatever the packet thread does meanwhile and whichever other rows the administrator edits |
| Safety.LossInAnyRun | gateway-socket/database.cpp:213-256 | in every state of such a run an owner loses its address only to the administrator or to a reclaim that met all conditions in that very state |
| Safety.HeldUntilTaken | gateway-socket/database.cpp:207-268 | an owner keeps its address over any stretch of such a run without one of those steps |
| Safety.AssignedGrows | gateway-socket/database.cpp:207-268 | over any stretch of a run without an administrator's edit no address becomes unassigned, and at most one more per decided request is assigned |
| Safety.GainedAreDynamic | gateway-socket/database.cpp:207-268 | over any stretch of a run without an administrator's write, addresses newly held are dynamic ones of `static_ip` |
| Safety.RecordsHaveOneOwner | gateway-socket/gateway.cpp:91-155 | in every defined run, lazy removals included, each record ever allocated is in exactly one of add queue, map or freed, and what a live one says was once an assignment in the table |
| Safety.HistoryIsReal | gateway-socket/database.cpp:265-268 | every recorded assignment was held by the table in some state of the run |
| Safety.StartExists | gateway-socket/database.cpp:350-397 | the start-up lists exist for every pair of tables |
| Safety.StartQueuesTables | gateway-socket/main.cpp:288-301 | the queues at start-up hold every row of `static_ip` and a record of every user with an address, and no more |
| AccessLog.GapsExactly | gateway-socket/gateway.cpp:537-545 | in every defined run from every start, consecutive reports of one record are more than a timeout apart exactly when adding the timeout to the earlier one stays below 2^64; in any case the later one exceeds that sum as the comparison computes it |
| AccessLog.ReportsAreSpaced | gateway-socket/gateway.cpp:535-547 | in every defined run, whatever the stored times and however the clock jumps below the 64-bit limit, the times reported for one record strictly increase with gaps over the timeout, and k+1 reports span more than k timeouts |
| AccessLog.TimesSpan | gateway-socket/gateway.cpp:537-545 | times with gaps over the timeout span more than their number of timeouts |
| Program.Program.constructor | gateway-socket/main.cpp:285-301 | creating the objects and enqueueing the rows leaves them in the start state of the system |
| Program.Program.InsideFrame | gateway-socket/gateway.cpp:377-549 | the object step is the system step for every defined inside frame |
| Program.Program.OutsideFrame | gateway-socket/gateway.cpp:551-704 | the object step is the system step |
| Program.Program.PollEvents | gateway-socket/gateway.cpp:709 | the eventfd counters select exactly the queues that are not empty |
| Program.Program.RunCallback | gateway-socket/gateway.cpp:45-172 | each callback of the objects is the system step of its queue |
| Program.Program.DrainDhcp | gateway-socket/database.cpp:177-188 | the drained requests become the batch of the system |
| Program.Program.NextDhcp | gateway-socket/database.cpp:191-299 | the statements of one request, with their decision, are an enabled system step with the same table, and the reply is built |
| Program.Program.RegisterUser | gateway-socket/database.cpp:301-311 | allocating and queueing the record is the system step |
| Program.Program.SendOffer | gateway-socket/database.cpp:312 | queueing the reply is the system step, and the queued frame is the reply of its offer |
| Program.Program.DrainUpdates | gateway-socket/database.cpp:131-141 | the drained reports become the batch of the system |
| Program.Program.NextUpdate | gateway-socket/database.cpp:144-170 | one report is the system step |
| Program.Program.DelStaticIP | gateway-socket/gateway.cpp:728-735 | one request is the system step |
| Witnesses.EarlyClockReclaims | gateway-socket/database.cpp:227-244 | at clock zero a user seen that moment loses its address |
| Witnesses.WrappedReportIsDue | gateway-socket/gateway.cpp:537 | a record last seen at the end of the 64-bit range is due again at time one |
| Witnesses.ZeroChecksumHappens | gateway-socket/database.cpp:294-298 | for every configuration with at most 299 name servers, every client, offered address and message kind, some transaction id makes the checksum field of the reply zero |
| Witnesses.SwallowedHappens | gateway-socket/gateway.cpp:687-700 | a user at the broadcast address whose frame leaves and whose mirrored answer is dropped |
| RunWitnesses.DelStaticBreaksServing | gateway-socket/gateway.cpp:728-735 | one `delStaticIP` and the next event round make a registered user's next frame undefined |
| RunWitnesses.DelStaticBreaksARealRun | gateway-socket/gateway.cpp:69-89 | a run from a start that meets every assumption in which that happens |
| RunWitnesses.StoredOutsideTableBreaks | gateway-socket/gateway.cpp:433-445 | from every start with a stored user address outside `static_ip`, one event round leads to a defined state in which a frame is undefined at every clock reading |
| RunWitnesses.NeverUndefinedExactly | gateway-socket/database.cpp:374-397 | from any start, no run without `delStaticIP` is undefined exactly when every stored user address is in `static_ip` |
| LateRemoval.RemovalFreesAnother | gateway-socket/database.cpp:164-169 | a run from a start that meets every assumption in which the removal for a vanished user frees the record of the user who has since been given its address |

## Left out

- socket.cpp: raw sockets and ioctls. A read is an arbitrary frame, a write an entry in a log.
- main.cpp: option parsing, daemonising, waiting for the server. Only the initial enqueue is modelled.
- SQL text, connector errors and `exit(1)`. Only the table meaning of the statements is kept; an address
  string and its `in_addr` are identified, and so are a MAC and its printed form.
- The gateway MAC literal of database.cpp:278 is the `gatewayMac` field of `Reply.Config`; parsing that one
  literal is not restated.
- The burst limit of 32 frames and the alternation of the two loops: `System` allows any number of packet
  steps of either side in any order between two event rounds.
- libevent, pthread and syslog internals; the 2^64 limit of an eventfd counter; `terminate`.
- The row loops of `getAllStaticIP` and `getAllUser` are the predicates `ListsTable` and `ListsUsers`.
- Liveness, and agreement of `userMap` with the `user` table between an offer and its acknowledgement,
  which the code does not keep.
- `Packet::readBit`, `setData`, and the ARP and IP setters that no core path uses.
- `printMAC` into a buffer shorter than eighteen bytes; the callers pass thirty-two.
- `serve` keeps one buffer for each direction; `class Gateway` receives every frame into a single one, since
  no byte of an earlier frame is visible to a later one.
- Gateway.Gateway.constructor: creates its own database mailboxes; in the source they belong to `Database`.
- AccessLog.ReportsAreSpaced: assumes that every clock reading plus the timeout stays below 2^64, for all gaps at
  once; `AccessLog.GapsExactly` gives the exact condition of each single gap and assumes no such thing.
- A reply with more name servers than fit has length -1 and is passed to the device with that length; the
  model queues it as an empty frame and does not follow the failing write.
