# klevret: DHCP server and command line, verified model

A Dafny model of the DHCP server of klevret and of the text and command layer that feeds it, with
proofs about every run, every datagram and every command list. `dafny verify dfyconfig.toml`
checks the whole project.

| file | models |
|---|---|
| `Words.dfy` | bytes, words and byte order, with the byte order of the host as a parameter |
| `IpAddresses.dfy`, `HardwareAddresses.dfy` | the keys of the server's sets and maps |
| `AddressPools.dfy` | the allocator: the class `AddressPool`, specified by the steps of a value `Pool` |
| `PoolRuns.dfy` | what every run of allocator operations keeps |
| `DhcpOptions.dfy`, `OptionCodec.dfy`, `OptionTable.dfy` | the option table, parser and emitter, how they compose, and what each code accepts and stores |
| `DhcpMessages.dfy`, `MessageCodec.dfy` | the message parser and emitter, and how they compose |
| `DhcpServers.dfy` | the server: the class `DhcpServer`, specified by atomic steps of a value `Server` |
| `Classification.dfy` | which datagrams are answered, in terms of their bytes |
| `ServerRuns.dfy`, `PoolLists.dfy`, `Submissions.dfy` | every interleaving of the server's steps; what its pools are |
| `Exchanges.dfy`, `QueueRuns.dfy` | whole exchanges, and how the queue is worked off |
| `AddressText.dfy` | the character cursor and the readers and printers of dotted addresses |
| `CommandTrees.dfy`, `CommandDispatch.dfy` | the command trie and the way from a line to a handler |
| `CommandLines.dfy` | whole lines: words that fit, words that are skipped, the registered commands |
| `CommandPatterns.dfy`, `PatternTexts.dfy`, `ShippedCommands.dfy` | the pattern parser, which texts are patterns, and the registered commands |
| `UdpPackets.dfy` | the header checksum and the payload splitting |

Objects that the source updates in place are classes whose methods are proved equal to steps of a
value; the lemmas are about those steps. A thrown C++ exception is an answer, an `Err` or the
state `Down`. The main loop is cut at its lock acquisitions, and pools may be added between the
pieces.

Properties that the code's own comments or structure suggest, and that hold only under a condition:

- The two maps of a couple in the pool are meant to be kept together. Over a run they are inverses
  at every moment exactly when each accepted `reserve_ip` is for a client that reserves nothing and
  each `get_address` of a client with a lease and a reservation finds both at one address
  (`RunPairsExactly`). It is enough to reserve only for clients that hold and reserve nothing
  (`GuardedRunsKeepPairs`); two reservations for one client break it (`TwoReservationsBreakPairs`).
- An accepted reservation holds as long as nobody cancels it, excludes its address or reserves
  another one for its client, exactly when no other address was reserved for the client before;
  otherwise cancelling that one takes the new one too (`ReservationHoldsExactly`).
- `release_address` is empty, so an excluded address goes on being given to its client
  (`ExcludedLeaseIsStillGiven`).
- An address is offered to one client only, but an acknowledgement can carry it to another one that
  uses the same transaction id (`SharedIdBreaksExclusivity`). `ExclusiveExactly` gives the exact
  condition on the datagrams taken from the queue, which is one on them alone when pool 0 does not
  contain 0.0.0.0 (`ExclusiveByDatagrams`); it holds when each transaction id is used by one
  client in the datagrams that arrive (`ExclusiveWhenIdsAreOwn`).
- The server ends for good exactly when it receives a datagram that has not the form the decoder
  accepts, or takes up a DISCOVER for which pool 0 has no address (`DownExactly`): nothing catches
  these exceptions. `DatagramAcceptedExactly` gives the form; one option code outside the table is
  enough to miss it (`UnknownCodeIsRejected`). `ShortDatagramEnds` and `EmptyPoolEnds` are runs that
  end so.
- Parsing what was emitted gives a message back exactly when all its integers read the same in both
  byte orders or the host is big-endian (`MessageRoundTrip`, `NormalisingTwice`). On a little-endian
  host every reply announces a lease of 2152792320 seconds instead of 86400 (`LeaseTimeOnWire`).
- The minimum number of elements in the option table is checked for byte arrays only, and not for
  empty ones (`MinimumIsNotEnforced`).
- A submitted pool range that encloses an existing one is accepted (`EnclosingPoolIsAccepted`).
  After a run the pools are disjoint exactly when each submission was rejected or enclosed no pool
  that was there (`PoolsApartExactly`).
- The DHCP reader of addresses accepts octets without digits, numbers that are small modulo 2^64,
  and one arbitrary character at the end (`DhcpExactly`, `DhcpReadsEmptyOctets`,
  `DhcpReadsTrailingCharacter`).
- Two foldings of the checksum's carries suffice for all buffers of a length exactly up to 131076
  bytes (`TwoFoldsExactly`).
- Fragment offsets are written in bytes where RFC 791 counts eight-byte units, and collide with the
  flag in payloads of more than 8192 bytes (`PayloadSeparable`, `ReassemblesExactly`).
- A word that no child accepts is skipped, so empty words and words that fit no element of any
  command change nothing wherever they stand (`RefusedWordIsSkipped`, `UnknownWordIsSkipped`), but a
  mask element throws on a word without a digit in front (`MaskFits`, `ThrowingWordEndsWalk`).
- White space at the end of a command pattern is an error (`PatternExactly`).
- A line whose words fit a registered pattern is walked along it exactly when every command
  registered before the first one that shares the next element refuses the word given there
  (`Dispatch`).
- A pool that ends at 255.255.255.255 is never finished (`EndlessRange`).

## Model

| member | source | states |
|---|---|---|
| Words.NetworkToHost16 | dhcp/src/endians.hpp:27-49 | reading two bytes off the wire gives their big-endian value on either host |
| Words.NetworkToHost32 | dhcp/src/endians.hpp:27-49 | reading four bytes off the wire gives their big-endian value on either host |
| Words.HostToNetwork32 | dhcp/src/endians.hpp:59-75 | writing a word in network order undoes reading it, on either host |
| Words.MemoryOfNetwork32 | dhcp/src/DhcpOption.cpp:234-249 | the bytes copied from memory for a word read from the wire are the wire bytes, reversed exactly on a little-endian host |
| IpAddresses.AddressIsNumber | dhcp/src/IpAddress.cpp:59-61 | addresses and 32-bit numbers determine each other, on either host |
| IpAddresses.IncrementIsSuccessor | dhcp/src/IpAddress.cpp:83-119 | `++` adds one modulo 2^32, and `++` and `--` undo each other, also across the wrap |
| IpAddresses.LessIsByteOrder | dhcp/src/IpAddress.cpp:104-106 | the order of addresses is the lexicographic order of their bytes |
| IpAddresses.FromBigEndianBytes | dhcp/src/IpAddress.cpp:9-24 | takes the first four bytes and fails on fewer |
| HardwareAddresses.LessThan | dhcp/src/HardwareAddress.cpp:62-72 | the comparison loop decides at the first differing byte |
| HardwareAddresses.LessIsFirstDifference | dhcp/src/HardwareAddress.cpp:62-72 | the lesser byte at the first difference makes the lesser address |
| HardwareAddresses.LessIsKeyOrder | dhcp/src/HardwareAddress.cpp:62-77 | `operator<` is a strict total order whose equivalence is equality, so it is a sound map key order |
| HardwareAddresses.FromBigEndianBytes | dhcp/src/HardwareAddress.cpp:7-36 | takes the first six bytes and fails on fewer |
| HardwareAddresses.ToChaddr | dhcp/src/HardwareAddress.cpp:52-59 | the client address field is the six bytes and ten zeros |
| AddressPools.AddressPool.constructor | dhcp/src/AddressPool.cpp:16-22 | the loop fills the pool with exactly the range, for ranges on which it ends |
| AddressPools.EndlessRange | dhcp/src/AddressPool.cpp:19-21 | the loop's guard holds forever exactly when the range ends at 2^32 - 1 |
| AddressPools.AddressPool.ExcludeIp | dhcp/src/AddressPool.cpp:26-46 | equals the exclusion step |
| AddressPools.AddressPool.ExcludeIpRange | dhcp/src/AddressPool.cpp:49-56 | the wrapping loop ends and equals the range exclusion step |
| AddressPools.AddressPool.ReserveIp | dhcp/src/AddressPool.cpp:58-70 | equals the reservation step and answers with the exception thrown, in the order of its tests |
| AddressPools.AddressPool.UnreserveIp | dhcp/src/AddressPool.cpp:72-79 | equals the cancellation step and answers with the exception thrown |
| AddressPools.AddressPool.GetAddress | dhcp/src/AddressPool.cpp:81-109 | equals the request step: reservation, then lease, then the first free address in ascending order, else an exception |
| PoolRuns.RunKeepsInv | dhcp/src/AddressPool.cpp:26-113 | over every run: both MAC maps lie inside the inverse of their IP maps, reserved addresses are included, an address both reserved and leased has one client, and included and excluded addresses partition the range |
| PoolRuns.NoDoubleAssignment | dhcp/src/AddressPool.cpp:81-109 | over every run no address is given to two clients, and every address given lies in the range |
| PoolRuns.LeasesGrow | dhcp/src/AddressPool.cpp:111-113 | leases are never taken back or changed |
| PoolRuns.GetSpecification | dhcp/src/AddressPool.cpp:81-109 | a request fails exactly when the client has nothing and nothing is free; a fresh grant is the least free address |
| PoolRuns.ExcludeRangeExactly | dhcp/src/AddressPool.cpp:49-56 | range exclusion removes exactly the included addresses of the cyclic interval with their reservations, and nothing else |
| PoolRuns.ExcludeRangeRemoves | dhcp/src/AddressPool.cpp:49-56 | excluding a range removes exactly its included addresses and their reservations; a reversed range goes over the last address |
| PoolRuns.ExcludeIsRange | dhcp/src/AddressPool.cpp:26-46 | excluding one address is excluding the range of it alone |
| PoolRuns.GuardedRunsKeepPairs | dhcp/src/AddressPool.hpp:43-46 | over every run of guarded reservations both couples of maps are exact inverses |
| PoolRuns.PairsExactly | dhcp/src/AddressPool.cpp:26-109 | the exact condition under which one operation leaves both couples inverse: an accepted reservation is for a client without one, and a request of a client with lease and reservation finds both equal |
| PoolRuns.RunPairsExactly | dhcp/src/AddressPool.hpp:43-46 | over every run the couples are inverse at every moment exactly when every operation meets that condition at its turn |
| PoolRuns.TwoReservationsBreakPairs | dhcp/src/AddressPool.cpp:58-70 | two accepted reservations for one client leave an address reserved that the client's map does not name |
| PoolRuns.GuardIsExact | dhcp/src/AddressPool.cpp:58-88 | for a reservation followed by its client's next request, the couples are inverses after both exactly when the client held and reserved nothing before |
| PoolRuns.UnreserveUndoesReserve | dhcp/src/AddressPool.cpp:58-79 | cancelling any accepted reservation leaves the pool without a reservation for its client and otherwise as it was; it restores the pool exactly when the client had no reservation before |
| PoolRuns.LeaseIsStable | dhcp/src/AddressPool.cpp:81-92 | a client is given the same address after any run without a reservation in its name |
| PoolRuns.OwnReservationMoves | dhcp/src/AddressPool.cpp:85-89 | an accepted reservation in its name always moves it |
| PoolRuns.ExcludedLeaseIsStillGiven | dhcp/src/AddressPool.cpp:34-45 | excluding a leased address does not take it from its client |
| PoolRuns.ReserveExactly | dhcp/src/AddressPool.cpp:58-79 | a reservation is accepted exactly for an included address neither reserved nor leased, and then is the client's next address; a refused one changes nothing, and a cancellation is accepted exactly for a reserved address |
| PoolRuns.ReservationHoldsExactly | dhcp/src/AddressPool.cpp:58-109 | over every further run that leaves it alone an accepted reservation gives its address to its client, always, and to nobody else, exactly when no other address was reserved for the client |
| PoolRuns.AllocationOrder | dhcp/src/AddressPool.cpp:100-108 | from a fresh pool of n addresses the k-th distinct client gets first + k, and client n is refused, whatever repeats occur |
| DhcpOptions.FixedIsOneElement | dhcp/src/DhcpOption.cpp:104-182 | every option of fixed length holds exactly one element |
| DhcpOptions.ParseOption | dhcp/src/DhcpOption.cpp:186-230 | the constructor equals the option decoder, errors included |
| DhcpOptions.ParseValues | dhcp/src/DhcpOption.cpp:202-229 | its loop over the payload ends and equals the decoder of the values |
| DhcpOptions.EmitOption | dhcp/src/DhcpOption.cpp:296-315 | the emitter's loop equals the option encoder |
| OptionCodec.OptionRoundTrip | dhcp/src/DhcpOption.cpp:186-315 | an accepted option is emitted as code, length and payload, integers reversed exactly on a little-endian host; the number of values is length / element size |
| OptionCodec.ParsingIsHostFree | dhcp/src/DhcpOption.cpp:372-394 | the parser's verdict and values do not depend on the host |
| OptionCodec.ParsingIsInjective | dhcp/src/DhcpOption.cpp:186-230 | payloads of one code that parse to the same option are equal |
| OptionCodec.RereadExactly | dhcp/src/DhcpOption.cpp:232-294 | parsing an emitted option gives it back exactly when it is stable |
| OptionCodec.AcceptedExactly | dhcp/src/DhcpOption.cpp:186-230 | which payloads each code accepts, in numbers: lengths, least values, listed bytes, and no other code than 1 to 61 and 64 to 76 |
| OptionTable.DefinedExactly | dhcp/src/DhcpOption.cpp:202-229 | the parser stays inside the payload exactly when lists of addresses, pairs and 16-bit numbers have whole elements |
| OptionTable.RejectedWith | dhcp/src/DhcpOption.cpp:186-200 | which exception a rejected payload meets, code by code |
| OptionTable.StoresQuad | dhcp/src/DhcpOption.cpp:104-182 | single addresses and the mask are stored as their four bytes |
| OptionTable.StoresFlag | dhcp/src/DhcpOption.cpp:104-182 | a flag is on exactly when its byte is not zero |
| OptionTable.StoresByte | dhcp/src/DhcpOption.cpp:104-182 | single bytes are stored as they are |
| OptionTable.StoresUint16 | dhcp/src/DhcpOption.cpp:104-182 | two bytes are stored as a number, the most significant first |
| OptionTable.StoresUint32 | dhcp/src/DhcpOption.cpp:104-182 | four bytes are stored as a number, the most significant first |
| OptionTable.StoresInt32 | dhcp/src/DhcpOption.cpp:104-182 | the time offset is stored as a signed number |
| OptionTable.StoresWhole | dhcp/src/DhcpOption.cpp:104-182 | texts are stored as one string, the vendor field, the parameter list and the client identifier as one block |
| OptionTable.StoresAddresses | dhcp/src/DhcpOption.cpp:104-182 | lists of addresses are stored address by address, in order |
| OptionTable.StoresPairs | dhcp/src/DhcpOption.cpp:104-182 | addresses with masks and pairs of addresses are stored in order |
| OptionTable.StoresPlateaus | dhcp/src/DhcpOption.cpp:104-182 | the list of 16-bit numbers is stored in order |
| OptionCodec.ValuesObey | dhcp/src/DhcpOption.cpp:364-407 | every stored integer satisfies its constraint in the table |
| OptionCodec.MessageTypeIsOneByte | dhcp/src/DhcpOption.cpp:173 | option 53 parses exactly from one byte between 1 and 8, to that byte |
| OptionCodec.MinimumIsNotEnforced | dhcp/src/DhcpOption.cpp:322-335 | empty variable payloads are always accepted, and list minimums are not checked |
| DhcpMessages.DhcpMessage.constructor | dhcp/src/DhcpMessage.cpp:4-21 | the default message |
| DhcpMessages.DhcpMessage.Parse | dhcp/src/DhcpMessage.cpp:23-84 | the parsing constructor equals the message decoder, exceptions included |
| DhcpMessages.DhcpMessage.ParseOptions | dhcp/src/DhcpMessage.cpp:69-83 | the option loop ends on every well-formed area and equals the area decoder |
| DhcpMessages.DhcpMessage.ToNetworkData | dhcp/src/DhcpMessage.cpp:86-129 | the serialiser equals the message encoder |
| MessageCodec.AreaFollowsGrammar | dhcp/src/DhcpMessage.cpp:69-83 | on every list of pads and TLVs, ended by nothing or by 255 and any bytes, the loop returns the options in order |
| MessageCodec.PadsAndTailChangeNothing | dhcp/src/DhcpMessage.cpp:72-77 | pads between options and bytes after the end option change nothing |
| MessageCodec.AcceptedAreaIsGrammar | dhcp/src/DhcpMessage.cpp:69-83 | every accepted area is a list of pads and TLVs with such a tail |
| MessageCodec.AreaAcceptedExactly | dhcp/src/DhcpMessage.cpp:69-83 | an area is read inside its bounds and accepted exactly when it is a list of pads and acceptable TLVs, ended by nothing or by 255 and any bytes |
| MessageCodec.AreaRejectedExactly | dhcp/src/DhcpMessage.cpp:69-83 | an area is read inside its bounds and rejected exactly when acceptable items are followed by one that is not |
| MessageCodec.FirstBadOption | dhcp/src/DhcpMessage.cpp:69-83 | the first option that is not acceptable ends the parsing with its exception, whatever follows |
| MessageCodec.DatagramAcceptedExactly | dhcp/src/DhcpMessage.cpp:23-84 | the exact form of the datagrams the parsing constructor accepts: 236 bytes for Ethernet and, from 240 bytes on, the cookie and such an area |
| MessageCodec.DatagramRejectedExactly | dhcp/src/DhcpMessage.cpp:23-84 | the exact cases in which the parsing constructor throws, and which exception |
| MessageCodec.UnknownCodeIsRejected | dhcp/src/DhcpOption.cpp:186-187 | one option with code 62, 63 or 77 to 254 makes the whole datagram rejected, whatever the others are |
| MessageCodec.StableValue | dhcp/src/DhcpOption.cpp:234-257 | a value leaves in network order exactly when the host is big-endian or its bytes are a palindrome |
| MessageCodec.HeaderSlices | dhcp/src/DhcpMessage.cpp:88-99 | the bytes at which op, htype, hlen, hops, xid, secs and flags leave |
| MessageCodec.AddressSlices | dhcp/src/DhcpMessage.cpp:100-115 | the bytes at which the addresses, the client address and the zeroed names leave |
| MessageCodec.HeaderRoundTrip | dhcp/src/DhcpMessage.cpp:29-59 | reading an emitted header gives the fields back, with blank names |
| MessageCodec.HeaderKeepsBytes | dhcp/src/DhcpMessage.cpp:29-62 | the fields read from a header, written out again, are the bytes received, but for the ten after the client address |
| MessageCodec.AreaRoundTrip | dhcp/src/DhcpMessage.cpp:119-127 | parsing an emitted area gives the same options, and emitting those the same bytes, each exactly when all are stable |
| MessageCodec.MessageRoundTrip | dhcp/src/DhcpMessage.cpp:23-129 | parsing an emitted message gives it back, with blank names, exactly when all its options are stable; without options it is 236 bytes |
| MessageCodec.NormalisingTwice | dhcp/src/DhcpMessage.cpp:23-129 | emitting after parsing is idempotent exactly when all options are stable |
| MessageCodec.EmittedByBigEndian | dhcp/src/DhcpOption.cpp:296-315 | a big-endian host emits the items of an area as they came, without the pads |
| MessageCodec.EmittedMessage | dhcp/src/DhcpMessage.cpp:86-129 | on either host the emitted bytes are the received ones with padding and names blanked, without pads and trailing bytes, each payload with its integers in host order |
| DhcpServers.MakeOffer | dhcp/src/DhcpServer.cpp:48-72 | builds the offer for the request's transaction and client |
| DhcpServers.MakeAcknowledge | dhcp/src/DhcpServer.cpp:74-103 | builds the acknowledgement, with the shifted lease time |
| DhcpServers.MessageType | dhcp/src/DhcpServer.cpp:131-140 | `real_values.at(0)` and `get<uint8_t>` never fail, and give 1 to 8 |
| DhcpServers.Classify | dhcp/src/DhcpServer.cpp:123-151 | a datagram asks something only if it is accepted, is a BOOTREQUEST and has message type DISCOVER or REQUEST; transaction id and client are its bytes 4 to 7 and 28 to 33 |
| Classification.ClassifyItems | dhcp/src/DhcpServer.cpp:130-151 | a datagram with acceptable options asks for something exactly when it is a BOOTREQUEST (1) whose first option 53, wherever it stands, is the byte 1 or 3; transaction and client are its bytes 4 to 7 and 28 to 33 |
| Classification.ClassifyExactly | dhcp/src/DhcpServer.cpp:123-151 | the same for all datagrams: what has not this form asks for nothing |
| Classification.TypeOfItems | dhcp/src/DhcpServer.cpp:131-136 | the search for option 53 goes over the whole list and takes the first one |
| DhcpServers.DhcpServer.AddAddressPool | dhcp/src/DhcpServer.cpp:176-194 | equals the submission step; answers true exactly when neither end of the range lies in a range of the list, and then appends the pool |
| DhcpServers.DhcpServer.HaveFreeAddress | dhcp/src/DhcpServer.cpp:197-204 | answers whether there is a pool |
| DhcpServers.DhcpServer.TakeAddress | dhcp/src/DhcpServer.cpp:207-210 | asks pool 0 and changes no other pool; without pools it answers the out-of-range exception |
| DhcpServers.DhcpServer.Look | dhcp/src/DhcpServer.cpp:109-112 | equals the first piece of the main loop |
| DhcpServers.DhcpServer.Receive | dhcp/src/DhcpServer.cpp:113-150 | equals the piece from the queue test to take_address or the acknowledgement |
| DhcpServers.DhcpServer.OfferAddress | dhcp/src/DhcpServer.cpp:143-145 | equals the piece that takes the address and sends the offer |
| ServerRuns.SoundStep | dhcp/src/DhcpServer.cpp:109-144 | under every interleaving take_address finds a pool once have_free_address was true, and every pool keeps its invariant |
| ServerRuns.AcknowledgementsRepeatOffers | dhcp/src/DhcpServer.cpp:143-150 | over every run each acknowledgement carries the address of the latest offer with its transaction id, 0.0.0.0 if none |
| ServerRuns.OffersAreOneToOne | dhcp/src/DhcpServer.cpp:141-147 | over every run offers pair clients and addresses one to one |
| ServerRuns.RepliesAnswerRequests | dhcp/src/DhcpServer.cpp:113-152 | over every run the replies answer the requests taken from the queue one by one and in order, a DISCOVER by an offer and a REQUEST by an acknowledgement, with their transaction id and client; only a last DISCOVER may still be without its offer |
| ServerRuns.ReplyHasArrival | dhcp/src/DhcpServer.cpp:113-152 | over every run each reply goes back to an arrived datagram of the matching type with its transaction id and client |
| ServerRuns.ExclusiveExactly | dhcp/src/DhcpServer.cpp:141-152 | over every run no nonzero address goes to two clients exactly when each handled REQUEST comes from the client whose DISCOVER was the latest before it with that transaction id, unless there is none or that client holds no address but 0.0.0.0 |
| ServerRuns.ExclusiveByDatagrams | dhcp/src/DhcpServer.cpp:141-152 | when pool 0 starts above 0.0.0.0 the condition is that each handled REQUEST comes from the client of the latest DISCOVER before it with that transaction id, if there is one |
| ServerRuns.ExclusiveWhenIdsAreOwn | dhcp/src/DhcpServer.cpp:141-152 | that holds when, in the datagrams that arrive, each transaction id is used by one client |
| ServerRuns.DownExactly | dhcp/src/DhcpServer.cpp:113-145 | a run ends the server exactly when some step received a datagram without the accepted form or took up a DISCOVER for which pool 0 has neither a record nor a free address |
| ServerRuns.ShortDatagramEnds | dhcp/src/DhcpServer.cpp:123 | a concrete run that a datagram of one byte ends |
| PoolLists.IntersectsExactly | dhcp/src/DhcpServer.cpp:179-190 | a rejected range with addresses really overlaps; of an accepted one, being apart from the other is the same as not enclosing it |
| PoolLists.SubmissionExactly | dhcp/src/DhcpServer.cpp:176-194 | one submission keeps the pools disjoint exactly when it is rejected, changing nothing, or encloses none |
| PoolLists.RunKeepsRanges | dhcp/src/DhcpServer.cpp:192-210 | over every run no pool disappears and pool 0, like all others, keeps its range |
| PoolLists.CarefulRunsKeepPoolsApart | dhcp/src/DhcpServer.cpp:176-194 | over every run whose submissions enclose no pool that is there, the pools are pairwise disjoint |
| PoolLists.PoolsApartExactly | dhcp/src/DhcpServer.cpp:176-194 | after every run, empty and reversed ranges included, the pools are pairwise disjoint exactly when each submission was rejected or enclosed no pool that was there |
| PoolLists.EnclosingPoolIsAccepted | dhcp/src/DhcpServer.cpp:179-190 | a concrete run whose second pool encloses the first and is accepted |
| Submissions.PoolsAreSubmissions | dhcp/src/DhcpServer.cpp:176-210 | at the end of every run the pools are, in order, the accepted submissions with their ranges; all but the first are as submitted, and the first is as if exactly the clients of the offers had asked it, in order |
| Submissions.OffersInOrder | dhcp/src/DhcpServer.cpp:141-147 | over every run, from a first pool without exclusions or reservations, the k-th distinct client whose DISCOVER is taken up is offered the k-th address, and again whenever it asks again |
| Exchanges.DiscoverIsOffered | dhcp/src/DhcpServer.cpp:123-147 | any DISCOVER datagram at the head of the queue is answered, whatever arrives or is submitted between the steps, with the offer of the address the pool gives |
| Exchanges.RefusedDiscoverEnds | dhcp/src/DhcpServer.cpp:143 | a DISCOVER for which the pool has no address ends the server, without a reply |
| Exchanges.EmptyPoolEnds | dhcp/src/DhcpServer.cpp:143 | a concrete run that a client's DISCOVER ends |
| Exchanges.RequestIsAcknowledged | dhcp/src/DhcpServer.cpp:148-152 | any REQUEST datagram at the head of the queue is acknowledged, whatever arrives or is submitted between the steps, with what was last offered in its transaction |
| Exchanges.ExchangeAgrees | dhcp/src/DhcpServer.cpp:123-152 | offer and acknowledgement of one transaction carry the same address, whoever sends the REQUEST, for any two datagrams and any interleaved arrivals and submissions |
| Exchanges.SharedIdBreaksExclusivity | dhcp/src/DhcpServer.cpp:148-152 | a concrete run in which one address goes to two clients |
| Exchanges.ReplyOnWire | dhcp/src/DhcpServer.cpp:48-66 | the bytes of every reply that name the transaction, the client and the address |
| Exchanges.ReplyBytes | dhcp/src/DhcpServer.cpp:48-103 | every byte of an offer and of an acknowledgement |
| Exchanges.LeaseTimeOnWire | dhcp/src/DhcpServer.cpp:67-69 | a client reads the message type, and 86400 seconds exactly when the host is big-endian |
| QueueRuns.QueueDrains | dhcp/src/DhcpServer.cpp:109-153 | from the top of the loop, n turns work off the first n datagrams of the accepted form that the pool can serve: the replies are exactly those to the requests among them, in order, and what arrived in between stands in the queue |
| AddressText.Cursor.constructor | dhcp/src/WrapperForParsing.cpp:4-8 | the cursor starts at the first character |
| AddressText.Cursor.GetNext | dhcp/src/WrapperForParsing.cpp:10-17 | moves one character on and stays at the end |
| AddressText.Cursor.SkipWhitespaces | cli/src/WrapperForParsing.cpp:21-25 | stops at the first character that is no white space |
| AddressText.Cursor.Check | cli/src/WrapperForParsing.cpp:33-40 | moves on exactly when the character is the expected one |
| AddressText.ParseIpv4Address | cli/src/Command.cpp:41-63 | the loop equals the validator |
| AddressText.CliIPv4Address | cli/src/ip_addresses.cpp:22-30 | the loop equals the CLI reader |
| AddressText.DhcpIPv4Address | dhcp/src/IpAddress.cpp:45-57 | the loop equals the DHCP reader, with a wrapping 64-bit counter |
| AddressText.ValidatorExactly | cli/src/Command.cpp:29-63 | accepts exactly four dotted octets up to the end or a sentinel; the CLI constructor then reads these octets |
| AddressText.DhcpExactly | dhcp/src/IpAddress.cpp:26-57 | the exact set of texts the DHCP constructor accepts, and the octets it reads |
| AddressText.CliExactly | cli/src/ip_addresses.cpp:10-30 | the exact set of texts the CLI constructor accepts, and the octets it reads |
| AddressText.DhcpReadsTrailingCharacter | dhcp/src/IpAddress.cpp:45-57 | the text 1.2.3.4x is read by the DHCP constructor and refused by the validator |
| AddressText.DhcpReadsEmptyOctets | dhcp/src/IpAddress.cpp:26-57 | three dots without digits are read as 0.0.0.0 and refused by the validator |
| AddressText.PrintedLength | dhcp/src/IpAddress.cpp:64-71 | octets are printed without leading zeros |
| AddressText.PrintThenParse | dhcp/src/IpAddress.cpp:64-71 | every reader gives back every printed address |
| AddressText.TextEndToEnd | cli/src/ip_addresses.cpp:10-38 | an accepted text is read without error, and the server reads the same octets from what the CLI prints |
| UdpPackets.SumBuffer | dhcp/src/UdpListener.cpp:129-138 | the loop sums the 16-bit words of the buffer in host order, a last odd byte with a zero byte after it |
| UdpPackets.WordAt | dhcp/src/UdpListener.cpp:129-138 | which two bytes are the i-th word that the loop sums, on either host, and what a last odd byte counts |
| UdpPackets.CalculateChecksum | dhcp/src/UdpListener.cpp:124-144 | the sum of a buffer of any length, the two foldings and the cut complement |
| UdpPackets.ChecksumIsComplement | dhcp/src/UdpListener.cpp:140-143 | up to 131076 bytes the result is the complement of the ones' complement sum of section 1 of RFC 1071 |
| UdpPackets.BufferHasWords | dhcp/src/UdpListener.cpp:129-132 | every list of words is what the loop sums of some buffer of twice its length |
| UdpPackets.StoredChecksumVerifies | dhcp/src/UdpListener.cpp:176 | in buffers of up to 131076 bytes, storing the checksum's two bytes where the zero word was makes the ones' complement sum 0xFFFF, on either host |
| UdpPackets.TooLongForTwoFolds | dhcp/src/UdpListener.cpp:140-142 | for every greater number of bytes, odd ones included, there is a buffer whose two foldings give a wrong checksum |
| UdpPackets.TwoFoldsExactly | dhcp/src/UdpListener.cpp:140-143 | two foldings suffice for all buffers of n bytes exactly when n is at most 131076 |
| UdpPackets.ChecksumIsHostFree | dhcp/src/UdpListener.cpp:124-144 | hosts of both byte orders store the same checksum bytes for a buffer, as section 2(B) of RFC 1071 says |
| UdpPackets.DivideAndSend | dhcp/src/UdpListener.cpp:205-223 | ceil(n / 1024) blocks at their offsets, whose concatenation is the data and fewer than 1024 zeros; all but the last announce more |
| UdpPackets.FieldSeparable | dhcp/src/UdpListener.cpp:171 | offset and flag of a packet are read back from its fragment field, cut to 16 bits, exactly below offset 8192 |
| UdpPackets.PayloadSeparable | dhcp/src/UdpListener.cpp:205-222 | for the packets of any payload, all offsets and flags are read back exactly when it has at most 8192 bytes |
| UdpPackets.ReassemblesExactly | dhcp/src/UdpListener.cpp:171-221 | for the packets of any payload, a receiver that counts in units of eight bytes places all of them right exactly when there is at most one |
| CommandTrees.CommandTree.AddCommand | cli/src/Command.cpp:271-292 | the walking pointer's loop equals insertion |
| CommandTrees.CreateCommandTree | cli/src/Command.cpp:294-301 | builds the trie of the list |
| CommandTrees.InsertCounts | cli/src/Command.cpp:271-292 | a new command adds its own path and no path is lost |
| CommandTrees.TrieRefinesList | cli/src/Command.cpp:271-301 | each pattern and handler has as many paths as occurrences in the list, and no node has two equal non-handler children |
| CommandDispatch.CheckCommandElement | cli/src/Command.cpp:85-106 | equals the verdict of a word against an element, a thrown exception included |
| CommandLines.WordFits | cli/src/Command.cpp:85-106 | which words fit which kind of element, in terms of their characters |
| CommandLines.MaskFits | cli/src/Command.cpp:65-72 | a mask is a number up to 32 with anything after it, and throws without a digit in front |
| CommandDispatch.EntryFor | cli/src/main.cpp:51-67 | the address constructor does not throw on an accepted word, and gives four octets |
| CommandLines.EntryKinds | cli/src/main.cpp:51-67 | what is pushed for an accepted word, kind by kind |
| CommandDispatch.AnalyzeCommand | cli/src/main.cpp:42-73 | the nested loops equal the walk |
| CommandLines.RefusedWordIsSkipped | cli/src/main.cpp:47-71 | a word that every child of the node reached refuses can be put in or left out anywhere without changing the result |
| CommandLines.AcceptedWordIsTaken | cli/src/main.cpp:48-69 | a word leads to the first child that accepts it, and its entry is pushed |
| CommandLines.ThrowingWordEndsWalk | cli/src/main.cpp:48-49 | an exception of a child's check, before any child accepts, ends the walk |
| CommandLines.UnknownWordIsSkipped | cli/src/main.cpp:45-71 | a word that fits no element of any command changes nothing, wherever and however often it stands |
| CommandDispatch.WalkFollows | cli/src/main.cpp:47-71 | words that instantiate a pattern, with no earlier sibling accepting them, reach its node with one stack entry per element |
| CommandDispatch.SiblingsInOrder | cli/src/Command.cpp:271-301 | below every prefix the children are the next elements of the patterns, in the order in which the commands introduced them |
| CommandDispatch.SpellsExactly | cli/src/main.cpp:47-71 | words that fit a pattern are walked along it exactly when no earlier sibling accepts one of them |
| CommandDispatch.EnterExactly | cli/src/main.cpp:116-118 | at a command's node ENTER runs its handler exactly when no other command has its pattern as prefix or equal, else nothing |
| CommandDispatch.Dispatch | cli/src/main.cpp:42-118 | words that fit a registered pattern are walked along it exactly when no command registered before the first one that shares the next element leaves the pattern with an element that accepts the word or throws on it; then the stack has one entry per element and ENTER runs the handler exactly when no other command has the pattern as prefix or equal |
| CommandPatterns.ParsePattern | cli/src/Command.cpp:193-198 | the loop ends and equals the pattern reader |
| CommandPatterns.ParseVariableElement | cli/src/Command.cpp:158-181 | reads one variable, or answers the exception thrown |
| CommandPatterns.PatternRoundTrip | cli/src/Command.cpp:138-198 | writing elements as a pattern and parsing it gives them back |
| PatternTexts.PatternExactly | cli/src/Command.cpp:138-198 | exactly which texts are patterns, with any white space before elements and some between two words, and of which elements |
| PatternTexts.ElementTexts | cli/src/Command.cpp:148-156 | what a fixed word is, and how the six variables are written |
| CommandPatterns.ParsedIsExpressible | cli/src/Command.cpp:138-191 | a parsed pattern never holds the blank element that marks handlers |
| ShippedCommands.PatternsParse | cli/src/Command.cpp:214-265 | the registered patterns parse to the elements below |
| CommandLines.ShippedWordsExactly | cli/src/Command.cpp:214-265 | exactly these words fit the registered patterns |
| CommandLines.ShippedLines | cli/src/Command.cpp:214-265 | the lines of the six commands, with empty words anywhere: which handler they run and what it finds on the stack |
| ShippedCommands.ShippedDispatch | cli/src/Command.cpp:214-265 | typing any registered command with valid addresses runs its own handler |
| ShippedCommands.HandlersFindArguments | cli/src/command_handlers.cpp:61-74 | the handlers find the 3 and 5 stack entries they check for, with the addresses on top |

## Left out

- Sockets, threads, terminal control, interface discovery: input and output; datagrams are queued and sent as byte sequences, and the main loop and the pool submissions interleave at the mutex.
- The network interface looked up for each datagram: a lookup in foreign data with no effect on the reply's content.
- The configuration component, `ApiConnector`, `ApiListener`, `ApiServer`, `core`: plumbing; pools reach the server as submissions.
- `_cache` of the pool: nothing writes it, so its branch in `get_address` and its clean-up in `exclude_ip` never act.
- `set_option`, `remove_option` and the `is_address_*` queries of the pool: single map operations.
- `to_ptree`, `from_ptree`: bodies missing or empty in the source.
- Text of subnet masks and `from_prefix`: the source does not store the octets it reads; masks are four opaque bytes.
- IPv6 types, `parse_name` and the IPv6 parsers: stubs in the source that accept everything, modelled as that.
- Emission of FLAG options: the emitter has no branch for them, so messages with one are outside `Sendable`.
- AddressPools.AddressPool.constructor: requires that the range does not end at 2^32 - 1, where the loop never ends.
- DhcpOptions.ParseOption: requires list payloads to be multiples of the element size; otherwise the source reads past the payload.
- DhcpMessages.DhcpMessage.Parse: requires the option area to stay inside the buffer as far as it is read; otherwise the source reads past the buffer.
- The option object: its `process_*` members push into a list that the parsing loop of the model keeps as a local variable; afterwards options are values, which the source copies.
- Aliasing in the trie: nodes are values and the walking pointer is a path of child indices, so the reallocation of child vectors is not modelled.
- AddressText.ParseIpv4Address: counts in unbounded integers; the source's `int` overflows on long digit strings, which is undefined.
- AddressText.CliIPv4Address: the same for its `int` octets.
- Splitting a line at spaces: a library call; the walk starts from the words.
- `print_tree`, completion on TAB and line editing: user interface.
