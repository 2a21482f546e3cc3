# srvd: a verified model

srvd is a small client/server daemon. A client sends a packet of typed fields, the server runs the
handler registered for the type of the first field and answers with a packet whose first field is a
status; name-service modules unpack the answer into a buffer of their caller. This project models
the program in Dafny 4.11 and proves what it is for: that packets survive the wire, that the linked
lists stay lists whatever is done to them and by how many threads, that queries deliver what handlers
set, up to the buffer of a caller, that the configuration parser accepts exactly its documents, and
exactly when the program leaves its buffers, its texts or its lists.

`dafny verify dfyconfig.toml` checks everything.

| file | content |
|---|---|
| `Wrappers.dfy`, `Bytes.dfy` | options; fixed-width integers, network byte order |
| `Codec.dfy` | the wire format on values: encoder, decoder, header |
| `Merging.dfy` | decoding as merging by type; round trip, re-encoding, conservation |
| `Packets.dfy` | packets in memory: doubly linked fields and entries with 16-bit counters |
| `Readings.dfy`, `Serialization.dfy` | how reading a body can end; writing packets into buffers and reading them back |
| `Registry.dfy`, `Service.dfy` | the handler registry; dispatch, status, a whole query |
| `Messages.dfy`, `Outcomes.dfy` | messages byte by byte; what each is answered, and how a query ends, whatever the sizes |
| `Locks.dfy`, `Answers.dfy` | any number of threads on one packet, one memory access at a time; what each call answers |
| `ConfItems.dfy`, `ConfParser.dfy` | configuration: item list, state machine |
| `ConfDocument.dfy`, `ConfLines.dfy` | its grammar; files as they are written, line by line |
| `ConfDefined.dfy`, `ConfCache.dfy` | where the parser is defined; the cache |
| `Buffers.dfy`, `Passwd.dfy`, `Aliases.dfy` | packing a response into the caller's buffer |
| `Delivery.dfy`, `Callers.dfy` | from a handler to that buffer; the name-service calls |

How the model is built:

- Code that relinks nodes, moves a cursor or fills a buffer is a method on heap objects or arrays. Its
  contract ties it to a function on values, and the main results are about those functions.
- 16-bit counters are `Low16` of the chain lengths, so wrap-around is part of the state, and no
  operation requires that they have not wrapped. Two trust them: the serializer, which then writes
  past its allocation (`AllocationExact`, `Serialize`), and the packer of alias members, which then
  writes past its table (`OverrunExactly`; `OverrunHappens` is a message that brings it about).
- What matters to another program or to a user is also stated without the model's own constants and
  predicates: the bytes of a message by their digits (`Messages`), type and status numbers, record
  members by name (`Passwd`, `Aliases`, `Callers`), the characters of a configuration file (`ConfLines`).
- Outcomes of `malloc` are parameters called `memory`. Sockets are replaced by whole messages. The
  bytes behind a body buffer, which the decoder reads before it compares sizes, are a parameter.
- Where the program reads behind its text, passes on a NULL pointer, writes past what it has reserved
  or goes on with a list that still holds a freed field, the outcome is a value of its own
  (`Undefined`, `PastEnd`, `Overrun`, `Dangling`). Nothing is claimed about what happens then, but
  each has a theorem that says exactly when it is reached: `ConfDefined.UndefinedExactly`,
  `Serialize`, `Aliases.OverrunExactly`, `Readings.DanglesExactly`, and for whole messages and
  queries `Service.ServerUndefinedExactly` and `Service.QueryExact`.

Where the code differs from its comments; the model does what the code does:

- The parser's remark that `bp` and `bp + 1` can be read safely (lib/srvd/libsrvd/conf.c:258-259) fails,
  for instance, for a comment that ends the file without a line end and for a quoted value whose line
  ends the file. `UndefinedExactly` describes all such texts.
- The duplicate-name check of the item list never fires for a name the parser passes, since it is not
  terminated (lib/srvd/libsrvd/conf.c:67, 385-388), except for a second name that starts with NUL:
  `NeverTaken`, `TakenExactly`.
- Taking the status after an error is not always safe, as lib/srvd/libsrvd/service.c:97-99 says it is:
  a response broken off at an entry leaves a freed field as a field of the packet.
- A cached configuration can be out of date although its time agrees with the file's
  (lib/srvd/libsrvd/conf.c:205-210); `ConfCache.CurrentExactly` says when every call is current.

## Model

| member | source | states |
|---|---|---|
| Codec.AllocationExact | lib/srvd/libsrvd/protocol/serial_packet.c:46-59 | the size computed from the counters equals the bytes written by walking the links if and only if no counter has wrapped, and is too small otherwise |
| Codec.ParseBody | lib/srvd/libsrvd/protocol/serial_packet.c:155-214 | an accepted body is consumed up to a cursor that never exceeds the body size |
| Codec.FieldsParsed | lib/srvd/libsrvd/protocol/serial_packet.c:161-214 | whatever is accepted: the consumed bytes are the encoding of the fields read, their number is the announced one, and every entry has at least one byte |
| Codec.FieldsAccepted | lib/srvd/libsrvd/protocol/serial_packet.c:161-214 | an encoding found anywhere in a body is read back to the same fields, unless it holds an empty entry; then it is rejected |
| Codec.ParseEncoded | lib/srvd/libsrvd/protocol/serial_packet.c:61-214 | for every packet whose counters fit, parsing its encoding gives it back and consumes all of it, or rejects it for an empty entry |
| Codec.ParseIgnoresSlack | lib/srvd/libsrvd/protocol/serial_packet.c:155-214 | verdict and result depend on the first `body_size` bytes alone, although bytes behind them are read |
| Codec.HeaderInverse | lib/srvd/libsrvd/protocol/serial_packet.c:126-146 | header encoding and decoding are inverse both ways: a header is accepted as this count and size exactly if it is their encoding with the right version |
| Merging.MergeTypes | lib/srvd/libsrvd/protocol/packet.c:154-189 | merging wire fields into any packet, types held twice included, keeps its fields in place and adds each new type once, in order of first occurrence; distinct types stay distinct |
| Merging.MergeEntries | lib/srvd/libsrvd/protocol/serial_packet.c:183-213 | every field of a packet decoded onto any packet: of the old fields the first one of each type has taken the wire entries of that type, in order, behind its own, all others are unchanged; a new field holds all entries of its type |
| Merging.MergeUnderType | lib/srvd/libsrvd/protocol/serial_packet.c:183-213 | so for distinct types the entries under every type are the old ones followed by those of the wire, in order |
| Merging.SamePacket | lib/srvd/libsrvd/protocol/packet.c:154-189 | a packet with distinct types is determined by its types and the entries under each |
| Merging.MergeDistinct | lib/srvd/libsrvd/protocol/packet.c:154-189 | fields of types that are new and distinct are simply appended |
| Merging.MergeConserves | lib/srvd/libsrvd/protocol/serial_packet.c:161-214 | merging neither loses nor makes entries or data bytes |
| Merging.EncodedLength | lib/srvd/libsrvd/protocol/serial_packet.c:46-59 | the encoded length is four bytes a field, two an entry, and the data |
| Merging.DecodeEncode | lib/srvd/libsrvd/protocol/serial_packet.c:61-217 | decoding the encoding of `p` onto any packet `q` merges `p` into `q`, unless `p` has an empty entry; then it fails |
| Merging.RoundTrip | lib/srvd/libsrvd/protocol/serial_packet.c:61-217 | decoding an encoding into a fresh packet gives the same packet if and only if its types are distinct and no entry is empty |
| Merging.Reencode | lib/srvd/libsrvd/protocol/serial_packet.c:46-217 | re-encoding any accepted body keeps entry count and data bytes, is shorter by four bytes per merged field, and is the consumed prefix if and only if no wire type repeats |
| Readings.AcceptedIsDecoded | lib/srvd/libsrvd/protocol/serial_packet.c:161-214 | reading onto any packet accepts only what is decoded, with the decoded packet as result, and with memory for everything it accepts all of that |
| Readings.AcceptedExactly | lib/srvd/libsrvd/protocol/serial_packet.c:161-214 | for every body, every packet it is read onto and every pattern of refused allocations: it is accepted if and only if it spells the announced number of fields, none with an empty entry, and each new field and each entry is granted; the packet is then the merge |
| Readings.RefusedExactly | lib/srvd/libsrvd/protocol/serial_packet.c:167-186 | likewise it is refused, with the fields before it merged and the packet in order, if and only if the header behind some acceptable fields lies at the end, announces more entries than can follow, or its new field is refused |
| Readings.DanglesExactly | lib/srvd/libsrvd/protocol/serial_packet.c:190-213 | likewise a freed field is left linked if and only if behind acceptable fields an acceptable header is followed by some acceptable entries, fewer than announced, and then by one whose size word is zero or overruns the body, or whose memory is refused |
| Readings.EncodedBody | lib/srvd/libsrvd/protocol/serial_packet.c:148-217 | reading the encoding of any packet whose counters fit onto any packet never stops at a header: it is merged, or an empty entry leaves the packet dangling |
| Readings.ReadIgnoresSlack | lib/srvd/libsrvd/protocol/serial_packet.c:155-214 | how reading ends depends on the first `body_size` bytes alone, whatever allocations are refused |
| Readings.AcceptedIsPlain | lib/srvd/libsrvd/protocol/serial_packet.c:148-217 | what is accepted into an empty packet has distinct types and no empty entry |
| Packets.FieldNode.LinkTail | lib/srvd/libsrvd/protocol/packet.c:387-398 | the stores of the entry adder keep both chains, the ends and the counter in order and append the entry |
| Packets.FieldNode.LinkHead | lib/srvd/libsrvd/protocol/packet.c:429-440 | likewise for the injector, which prepends |
| Packets.FieldNode.EntryAdd | lib/srvd/libsrvd/protocol/packet.c:361-401 | succeeds exactly if memory can be had and the size is zero just for a NULL pointer; then the field has a copy of the bytes as its last entry |
| Packets.FieldNode.EntryInject | lib/srvd/libsrvd/protocol/packet.c:403-443 | likewise with the copy as first entry |
| Packets.FieldNode.EntryGet | lib/srvd/libsrvd/protocol/packet.c:445-466 | yields the entry at the offset, or fails if the counter does not reach it |
| Packets.FieldNode.Finalize | lib/srvd/libsrvd/protocol/packet.c:340-359 | frees every entry once, in chain order, and leaves the empty field |
| Packets.Packet.LinkTail | lib/srvd/libsrvd/protocol/packet.c:57-70 | the stores of the field adder keep both chains, the ends and the counter in order and append the field |
| Packets.Packet.LinkHead | lib/srvd/libsrvd/protocol/packet.c:72-85 | likewise for the injector, which prepends |
| Packets.Packet.FieldAdd | lib/srvd/libsrvd/protocol/packet.c:87-97 | keeps the packet valid and all other fields unchanged, with the field as last |
| Packets.Packet.FieldInject | lib/srvd/libsrvd/protocol/packet.c:99-109 | likewise with the field as first |
| Packets.Packet.GetByOffset | lib/srvd/libsrvd/protocol/packet.c:111-132 | yields the field at the offset, or fails if the counter does not reach it; the fall-through at the end is never reached |
| Packets.Packet.GetByType | lib/srvd/libsrvd/protocol/packet.c:134-152 | yields the first field of the type, or fails if there is none |
| Packets.Packet.EntryAdd | lib/srvd/libsrvd/protocol/packet.c:361-401 | adding an entry to one field of a packet keeps the whole packet valid and all other fields unchanged |
| Packets.Packet.GetOrAdd | lib/srvd/libsrvd/protocol/packet.c:154-189 | yields the first field of the type, or a new empty one at the tail; without memory nothing changes |
| Packets.Packet.GetOrInject | lib/srvd/libsrvd/protocol/packet.c:191-226 | likewise with a new field at the head |
| Packets.Packet.Append | lib/srvd/libsrvd/protocol/packet.c:228-269 | succeeds exactly if the type is new, memory can be had and size and pointer agree; then the packet has gained one field with one entry at the tail, otherwise nothing has changed |
| Packets.Packet.Insert | lib/srvd/libsrvd/protocol/packet.c:271-312 | likewise at the head |
| Packets.Packet.Finalize | lib/srvd/libsrvd/protocol/packet.c:38-54 | frees every field and every entry, in chain order, and leaves the empty packet, though finalizing a field clears the link the loop follows |
| Packets.FlattenOnce | lib/srvd/libsrvd/protocol/packet.c:38-54 | the entries freed are all entries of all fields, none twice and nothing else |
| Packets.CopiedIs | lib/srvd/libsrvd/protocol/packet.c:361-401 | an entry holds just the bytes its size says of those pointed to, whatever lies behind them, and none for NULL |
| Serialization.MeasureBody | lib/srvd/libsrvd/protocol/serial_packet.c:46-59 | computes the size that the counters and the entry sizes ask for |
| Serialization.WriteEntries | lib/srvd/libsrvd/protocol/serial_packet.c:109-120 | writes the encoding of the entries behind what is there and touches nothing behind, if and only if it fits in the buffer |
| Serialization.WriteField | lib/srvd/libsrvd/protocol/serial_packet.c:101-120 | likewise for a field with its header |
| Serialization.WriteFields | lib/srvd/libsrvd/protocol/serial_packet.c:96-121 | the regions written are contiguous and the cursor ends where the encoding ends, if and only if it fits in the buffer |
| Serialization.WriteBuffer | lib/srvd/libsrvd/protocol/serial_packet.c:73-121 | a buffer sized from the counters is filled exactly if no counter has wrapped; otherwise the program writes past its end |
| Serialization.SerialPacket.Serialize | lib/srvd/libsrvd/protocol/serial_packet.c:61-124 | for every packet: without memory nothing is written; with it, a fresh buffer is filled exactly with the encoding of the packet if no counter has wrapped, and otherwise the program writes past its end |
| Serialization.SerialPacket.UnserializeHeader | lib/srvd/libsrvd/protocol/serial_packet.c:126-146 | accepts exactly the headers of the right version and records what they announce |
| Serialization.ReadEntries | lib/srvd/libsrvd/protocol/serial_packet.c:190-213 | appends the entries on the wire to the field of a packet that stays valid, exactly if all of them are acceptable and their allocations granted |
| Serialization.ReadField | lib/srvd/libsrvd/protocol/serial_packet.c:162-214 | one field: refused at its header with the packet as it was, read, or broken off at an entry, each under its exact condition |
| Serialization.ReadFields | lib/srvd/libsrvd/protocol/serial_packet.c:161-214 | the packet after the loop, for every body and every pattern of refused allocations: decoded, in order with the fields before the refused header, or not to be used any more |
| Serialization.SerialPacket.UnserializeBody | lib/srvd/libsrvd/protocol/serial_packet.c:148-217 | likewise for the whole body, with the check of the field count: it ends as reading on values says, and unless it is broken off at an entry the packet is valid and holds what that says |
| Registry.LookupWithout | lib/srvd/libsrvd/server.c:87-106 | unlinking a service takes out its type and no other |
| Registry.Server.Has | lib/srvd/libsrvd/server.c:75-85 | tells whether a handler is registered for the type |
| Registry.Server.Get | lib/srvd/libsrvd/server.c:60-73 | finds the handler registered for the type |
| Registry.Server.Add | lib/srvd/libsrvd/server.c:37-58 | registers the handler exactly if the type is free, and leaves all other types alone |
| Registry.Server.Remove | lib/srvd/libsrvd/server.c:87-106 | removes the handler of the type and leaves all other types alone |
| Service.ReceivedIsPlain | lib/srvd/libsrvd/protocol/serial_packet.c:148-217 | a packet received from any message has distinct types and no empty entry |
| Service.PartIsPlain | lib/srvd/libsrvd/protocol/serial_packet.c:148-217 | a packet of which only the first fields have been received has no empty entry either |
| Service.ReceiveSent | lib/srvd/libsrvd/server/unsock.c:78-171 | reading a written message onto any packet merges the fields into it, or leaves it dangling for an empty entry |
| Service.ArrivesUnchanged | lib/srvd/libsrvd/server/unsock.c:78-171 | a packet with distinct types arrives as it was sent, or leaves the reader dangling for an empty entry |
| Service.ResponseDistinct | lib/srvd/libsrvd/server/unsock.c:213-225 | putting the status in front keeps the types of a response distinct, whatever the handler has set |
| Service.QueryExact | lib/srvd/libsrvd/service.c:78-106 | for every request, every handler and every response whose sizes fit: how the query ends. The handler sees the request merged by type and the client ends with exactly the response packet and its status, if no counter has wrapped, the request is not empty and no entry is; every other case is named |
| Service.QueryHandled | lib/srvd/libsrvd/server/unsock.c:206-230 | with a registered handler that sets distinct, non-empty, unreserved fields the client gets its status, and iterating behind the first field yields its fields in order |
| Service.QueryUnavailable | lib/srvd/libsrvd/server/unsock.c:222-225 | without a handler the status is UNAVAIL and no further field follows |
| Service.QueryRefused | lib/srvd/libsrvd/server/unsock.c:201-211 | a request without fields gets no answer; one with an empty entry leaves the server with a dangling packet |
| Service.DanglingExactly | lib/srvd/libsrvd/server/unsock.c:78-137 | the same for a whole message read onto any packet, whatever allocations are refused |
| Service.ServerUndefinedExactly | lib/srvd/libsrvd/server/unsock.c:201-235 | the server goes on with a dangling packet or writes past an allocation exactly for messages broken off at an entry and for responses with a wrapped counter |
| Service.ReadMessage | lib/srvd/libsrvd/server/unsock.c:78-137 | reading a message in memory ends as receiving on values says, for any bytes behind the body and any refused allocations |
| Service.WriteMessage | lib/srvd/libsrvd/server/unsock.c:139-171 | the message is the encoding of the packet, unless a counter has wrapped |
| Service.InsertStatus | lib/srvd/libsrvd/server/unsock.c:218-225 | the status becomes the first field unless the handler has used its type |
| Service.Dispatch | lib/srvd/libsrvd/server/unsock.c:206-225 | the response in memory is the one the handler of the first field's type, or none, makes of the request |
| Service.Close | lib/srvd/libsrvd/server/unsock.c:232-235 | finalizing both packets frees exactly their fields and, field by field and in order, the entries with the data of the two packets, none twice, and leaves them empty |
| Service.ServeClient | lib/srvd/libsrvd/server/unsock.c:196-239 | the per-client body answers every message with what the specification of the server says, and on every path, error paths included, frees exactly the fields and entries of both packets, with their data, field by field and none twice, unless it is undefined |
| Service.ExtractStatus | lib/srvd/libsrvd/service.c:100-106 | the client takes the status from the first entry of the first field; FAIL if there is none |
| Service.RunQuery | lib/srvd/libsrvd/service.c:78-106 | the query in memory ends as the specification of a query says: status and packet for an answer, for no answer and for a response cut short; it also tells where it is undefined |
| Messages.HeaderSent | lib/srvd/libsrvd/protocol/serial_packet.c:84-90 | every message starts with version 110, the number of fields, and the size of what follows, which is four bytes a field, two an entry, and the data; all numbers highest byte first |
| Messages.HeaderRead | include/srvd/protocol/serial_packet.h:48-70 | a header is taken exactly if its first two bytes are 0 and 110; count and size are the numbers in the next two and four |
| Messages.FieldSent | lib/srvd/libsrvd/protocol/serial_packet.c:92-107 | every field stands where the fields and entries before it end: its type and the number of its entries |
| Messages.EntrySent | lib/srvd/libsrvd/protocol/serial_packet.c:109-120 | every entry of every field stands where what precedes it ends: its size, and then its bytes |
| Messages.HeaderDecides | lib/srvd/libsrvd/server/unsock.c:78-137 | reading goes on to the body exactly if the version is 110 and the message is complete |
| Messages.ReceivedExactly | lib/srvd/libsrvd/server/unsock.c:78-137 | a message is received if and only if it is complete, of version 110, and its body begins with the encoding of as many fields as it announces, with no empty entry; they are merged into the packet it is read onto |
| Messages.BodyAccepted | lib/srvd/libsrvd/protocol/serial_packet.c:148-217 | the whole body, for any refused allocations: accepted if and only if it spells the announced fields and all is granted; the first check refuses none of these |
| Messages.BodyRefused | lib/srvd/libsrvd/protocol/serial_packet.c:155-186 | it is refused if and only if the size is less than four times the number of fields, and then with nothing read, or a header stops it |
| Messages.BodyDangles | lib/srvd/libsrvd/protocol/serial_packet.c:155-213 | it leaves a freed field linked if and only if it passes that check and an entry breaks it |
| Messages.HeaderRefusedExactly | lib/srvd/libsrvd/protocol/serial_packet.c:167-186 | a header is refused if and only if fewer bytes are left than itself and two for each entry announced, or its type is new and its field cannot be had |
| Messages.RefusedExactlyBy | lib/srvd/libsrvd/server/unsock.c:78-137 | a message is refused if and only if it is incomplete, of another version or too short for the headers announced, with nothing read, or, behind fields that are merged, it has less left than the next field needs |
| Messages.AnsweredExactly | lib/srvd/libsrvd/server/unsock.c:201-230 | for every message: it is answered if and only if it carries at least one field and no counter of the response has wrapped, and then with the encoding of the response to its fields merged by type |
| Messages.SilentExactly | lib/srvd/libsrvd/server/unsock.c:201-211 | the connection is closed without an answer if and only if the message cannot be read, stops short of the fields announced, or carries none |
| Outcomes.ResponseIs | lib/srvd/libsrvd/server/unsock.c:213-220 | the response to a handler is its status as two bytes under type 65535 in front of its fields merged by type, or these alone if it has used that type |
| Outcomes.UnavailableSent | lib/srvd/libsrvd/server/unsock.c:222-230 | a request of a type that is not registered is answered with sixteen bytes, which are written out |
| Outcomes.StatusRead | lib/srvd/libsrvd/service.c:97-106 | the status is 1 without a field or an entry in the first one, the number in that entry if it has two bytes, and else stays 65535 |
| Outcomes.PrefixFree | lib/srvd/libsrvd/protocol/serial_packet.c:61-124 | fields whose encoding another begins with are the first fields of the other |
| Outcomes.OversizedIsNot | lib/srvd/libsrvd/protocol/serial_packet.c:82-90 | a packet too long for the size word is never received |
| Outcomes.CutShort | lib/srvd/libsrvd/protocol/serial_packet.c:148-217 | of a packet with distinct types that is refused some leading fields have been read, never all |
| Outcomes.AnsweredOnly | lib/srvd/libsrvd/service.c:49-106 | for every request and handler, with no condition on sizes: the query is answered if and only if the request has a field, neither request nor response has a wrapped counter or size word, and neither has an empty entry; the client then has exactly the response and its status |
| Outcomes.PartialOnly | lib/srvd/libsrvd/service.c:78-106 | a response cut short is one whose size word has wrapped; the client has its first fields and its status, or none and status 1 |
| Outcomes.NoAnswerOnly | lib/srvd/libsrvd/service.c:78-106 | there is no answer if and only if the request is empty, or its size word has wrapped and it is refused |
| Locks.AddingKept | lib/srvd/libsrvd/protocol/packet.c:57-70 | between any two stores of the field adder the forward chain is whole and right, and the backward half is as far as the stores have come |
| Locks.AddingDone | lib/srvd/libsrvd/protocol/packet.c:57-70 | after the last store both directions and the counter agree again and the field is in the chain |
| Locks.InjectingKept | lib/srvd/libsrvd/protocol/packet.c:72-85 | the same between any two stores of the injector |
| Locks.InjectingDone | lib/srvd/libsrvd/protocol/packet.c:72-85 | the same after its last store |
| Locks.CountBehind | lib/srvd/libsrvd/protocol/packet.c:57-85 | the counter, read without the lock, is that of the chain or one behind, so it never promises a field that is not there yet |
| Locks.HolderKept | lib/srvd/libsrvd/protocol/packet.c:154-312 | every step under the lock, refused allocations included, keeps what the holder relies on, and others see the chain stay or grow by one whole field at an end |
| Locks.ReaderKept | lib/srvd/libsrvd/protocol/packet.c:111-152 | such growth keeps what a search without the lock, by type or by offset, relies on |
| Locks.StepKeepsInv | lib/srvd/libsrvd/protocol/packet.c:111-312 | every step of every thread keeps the invariant; the chain is the old one, or the old one with a field at one end; no field is visible without its first entry |
| Locks.RunKeepsInv | lib/srvd/libsrvd/protocol/packet.c:111-312 | so does every run; no field leaves the chain, is reordered or changes its type |
| Locks.Safety | lib/srvd/libsrvd/protocol/packet.c:154-312 | over every interleaving of any number of threads: a thread is inside the lock if and only if it holds it, no two fields share a type, and with the lock free both directions and the counter agree |
| Locks.RunKeepsReports | lib/srvd/libsrvd/protocol/packet.c:111-312 | every report that has ever been made stays right in every run |
| Locks.ReportsAreRight | lib/srvd/libsrvd/protocol/packet.c:111-152 | of all results that any calls ever report, under every interleaving: a search that begins when the type is there does not miss it; a field made or found is in the chain, whole and of that type; a type reported as existing is there; a search by offset that the counter has let through, without the lock, never falls off the end and yields the field exactly that many places behind the head it started from; one that was refused was refused by a counter not above the offset that was right for the chain or one behind |
| Locks.OneMaker | lib/srvd/libsrvd/protocol/packet.c:154-312 | of all the calls that any threads ever make, also several calls of one thread, no two report to have made a field of the same type: check and act are one |
| Locks.WalksAgree | include/srvd/protocol/packet.h:43-46 | in every reachable memory following `next` visits the chain once and stops; with the lock free `previous` visits the same fields, as many as the counter says up to 65535 |
| Locks.ChainIsShort | lib/srvd/libsrvd/protocol/packet.c:134-152 | with distinct 16-bit types a chain has at most 65536 fields |
| Locks.StepsMakeProgress | lib/srvd/libsrvd/protocol/packet.c:134-312 | a call inside the lock and a search outside it come nearer their end with each own step, and no other thread sets them back |
| Locks.CallsEnd | lib/srvd/libsrvd/protocol/packet.c:134-312 | so every such call ends, and every path through a writer, refused allocations included, releases the lock |
| Locks.WorkIsBounded | lib/srvd/libsrvd/protocol/packet.c:134-312 | the lock is held for at most 65548 steps of its holder, a search takes at most 131075 |
| Answers.CallsAreAnswered | lib/srvd/libsrvd/protocol/packet.c:111-312 | over every run, for every call and whatever others do until it reports: `NoMemory` if and only if it has been refused memory; otherwise a writer has made a field of its type, which was not there and stands before all others or behind all others, as its kind says, or the type is there, with which `append` and `insert` fail while the others yield the field; a search by type yields a field of that type or it was not there at the start; a search by offset yields the field so far behind the old head or one put before it since, or the chain is not longer |
| Answers.EveryReportAnswers | lib/srvd/libsrvd/protocol/packet.c:111-312 | every report in the log of every run is such an answer: the call began at an earlier step of the same thread, which has not reported in between |
| Answers.LockIsTaken | lib/srvd/libsrvd/protocol/packet.c:165 | a thread that waits while the lock is free gets it with its next step |
| Answers.NothingLeaks | lib/srvd/libsrvd/protocol/packet.c:174-269 | after every run that leaves the lock free the fields in memory are exactly those of the chain: what was made for a call that failed has been freed |
| ConfItems.SameMeansEqual | lib/srvd/libsrvd/conf.c:115 | comparing as many bytes as an item's name is long, with its NUL, is comparing the names |
| ConfItems.CopiedIs | lib/srvd/libsrvd/conf.c:74-101 | the copy of a name or a value is all of it, whatever lies behind it, and ends at a NUL in it |
| ConfItems.Conf.Clear | lib/srvd/libsrvd/conf.c:46-60 | frees every node once and leaves no item |
| ConfItems.Conf.Get | lib/srvd/libsrvd/conf.c:107-126 | finds the newest item of the name, or none |
| ConfItems.Conf.Has | lib/srvd/libsrvd/conf.c:128-139 | tells whether there is one |
| ConfItems.Conf.Add | lib/srvd/libsrvd/conf.c:62-105 | prepends the item exactly if the name is free and memory can be had, and changes nothing otherwise |
| ConfParser.NextAdvances | lib/srvd/libsrvd/conf.c:260-394 | every iteration of the main loop strictly advances the cursor, to one past the NUL at the furthest, except that a line end found where a value should be only changes the state |
| ConfParser.ReadingIsWithin | lib/srvd/libsrvd/conf.c:278-328 | the states that read a name and a value are entered and left within one iteration, although a blank would keep the value state: the blanks behind the equals sign have been skipped |
| ConfParser.ReadingNeverLive | lib/srvd/libsrvd/conf.c:260-394 | over every run these two states are never live at the head of the loop, and every iteration advances the cursor, so there are at most one more than the text has characters |
| ConfParser.FailureIsEmpty | lib/srvd/libsrvd/conf.c:396-406 | a parse that fails, of any text, leaves no item |
| ConfParser.ReadWhile | lib/srvd/libsrvd/conf.c:235-239 | the reading macros take one character and then all that follow in their class |
| ConfParser.ReadQuoted | lib/srvd/libsrvd/conf.c:334-345 | where the scan of a quoted value stops, with escaped quotes and the character it skips after a line end |
| ConfParser.ReadBare | lib/srvd/libsrvd/conf.c:363-364 | where a bare value ends |
| ConfParser.CloseAssignment | lib/srvd/libsrvd/conf.c:372-392 | stores the item only if the line ends and nothing has been wrong before; without a value it is undefined, unless the name is taken and refused first |
| ConfParser.ReadValue | lib/srvd/libsrvd/conf.c:321-371 | the value state, its blank branch included, and the end of the assignment it goes on to |
| ConfParser.ReadAssignment | lib/srvd/libsrvd/conf.c:285-320 | the state that looks for the equals sign, as one step of the machine |
| ConfParser.Iterate | lib/srvd/libsrvd/conf.c:260-393 | one turn of the main loop, in every state |
| ConfParser.FileRead | lib/srvd/libsrvd/conf.c:226-407 | the parser, on every text: its result and the items it leaves are those of the machine's run, and it reads outside the text only where that run is undefined |
| ConfDocument.NeverTaken | lib/srvd/libsrvd/conf.c:67 | in a text without NUL the duplicate check never fires for an item of the parser |
| ConfDocument.PlainQuoted | lib/srvd/libsrvd/conf.c:334-345 | on one line, what can stand between quotes is exactly a text whose quotes all follow a backslash and which does not end in one |
| ConfDocument.DocumentAccepted | lib/srvd/libsrvd/conf.c:260-406 | a well-formed document, with any blanks, comments, padding and line ends, is accepted from wherever it starts, and its assignments are stored, newest first |
| ConfDocument.DocumentFound | lib/srvd/libsrvd/conf.c:260-406 | whatever is accepted of the texts without NUL is the text of a well-formed document |
| ConfDocument.FailedStaysFailed | lib/srvd/libsrvd/conf.c:300-318 | after a syntax error the parser never succeeds |
| ConfDocument.AcceptsExactlyDocuments | lib/srvd/libsrvd/conf.c:226-407 | for every text without NUL: it is accepted if and only if it is the text of a well-formed document, and the items are then that document's assignments |
| ConfDocument.PrintedAccepted | lib/srvd/libsrvd/conf.c:226-407 | every sequence of allowed pieces, with any mixture of CR, LF and CR LF, is accepted when printed, and its assignments are stored |
| ConfDocument.FindStored | lib/srvd/libsrvd/conf.c:107-126 | looking a name up among stored assignments finds the last one of that name, or what was there before |
| ConfDocument.LookupAfterParse | lib/srvd/libsrvd/conf.c:107-126 | after parsing a printed document, a lookup yields the last raw value of the name and fails for every other name |
| ConfDocument.RoundTrip | lib/srvd/libsrvd/conf.c:226-407 | with distinct names every printed assignment is found with exactly its value |
| ConfLines.RowsParsed | lib/srvd/libsrvd/conf.c:226-407 | every sequence of lines, indented by spaces and tabs and ended by LF, CR or CR LF, each a setting, a remark behind `#` or nothing, is accepted, and its settings are the items, the last one first; all characters are written out |
| ConfLines.SettingFound | lib/srvd/libsrvd/conf.c:107-126 | a setting that no later line makes again is found under its name, such as those of lib/srvd/libsrvd/client.c:23 and 34, with exactly its value |
| ConfLines.NothingFound | lib/srvd/libsrvd/conf.c:107-126 | a name that no line sets is not found |
| ConfLines.LineParsed | lib/srvd/libsrvd/conf.c:233-239 | one line: any name of letters, digits and colons, any spaces and tabs on both sides of `=`, any value without blanks, line ends and NUL that does not start with a quote, and any of the three line ends give that one item |
| ConfLines.QuotableIs | lib/srvd/libsrvd/conf.c:334-345 | what can stand between quotes, over several lines: every quote follows a backslash, and the character behind a line end is passed over, whatever it is |
| ConfLines.QuotableOnOneLine | lib/srvd/libsrvd/conf.c:334-345 | on one line these are the texts of `ConfDocument.PlainQuoted` |
| ConfLines.NotASetting | lib/srvd/libsrvd/conf.c:285-320 | behind a name and blanks every other character than `=`, and the end of the text, makes the parse fail, whatever follows |
| ConfLines.NothingBehindValue | lib/srvd/libsrvd/conf.c:372-383 | a blank behind a value without quotes, or anything but a line end behind one in quotes, makes it fail |
| ConfDefined.TakenExactly | lib/srvd/libsrvd/conf.c:128-139 | in any text the name the parser passes is taken if and only if it starts with NUL and an item with an empty name is stored |
| ConfDefined.UndefinedExactly | lib/srvd/libsrvd/conf.c:226-407 | for every text, NUL characters included: the parser reads behind its text or passes on a NULL pointer if and only if some line breaks: a comment without a line end; or, while nothing has been wrong, a line end where a value should be, unless the name starts with NUL and one such has been stored; or a quoted value that the scan leaves behind the text |
| ConfDefined.OneOfThree | lib/srvd/libsrvd/conf.c:226-407 | for every text without NUL: it breaks and the parser is undefined; or it is the text of a document and its assignments are stored; or the parser fails and no item is left |
| ConfDefined.DefinedOnDomain | lib/srvd/libsrvd/conf.c:260-394 | so the parser is defined on all texts that end in a line end and whose equals signs all have values, syntax errors included |
| ConfDefined.CursorStaysWithin | lib/srvd/libsrvd/conf.c:231-252 | over every run on a text that does not break, from any items the parser may have stored: every iteration can be made without reading where it must not, and the cursor gets one past the final NUL at the furthest, and never past it if the text ends in a line end |
| ConfDefined.CursorOnDomain | lib/srvd/libsrvd/conf.c:231-252 | so it is on all texts that end in a line end and whose equals signs all have values |
| ConfDefined.ThreeWays | lib/srvd/libsrvd/conf.c:328-346 | one text for each way to be undefined |
| ConfDefined.HarmlessAfterError | lib/srvd/libsrvd/conf.c:374-388 | an equals sign without a value does no harm after a syntax error |
| ConfDefined.HarmlessWhenTaken | lib/srvd/libsrvd/conf.c:67 | nor does it for a second name that starts with NUL, though it does for the first |
| ConfCache.StepCoherent | lib/srvd/libsrvd/conf.c:198-214 | writing at a time not used before, removing, parsing and getting keep: a cache that looks up to date holds the parse of the file |
| ConfCache.RunCoherent | lib/srvd/libsrvd/conf.c:409-468 | so does every history in which no two writes share a time, in whatever order the times come |
| ConfCache.GetIsCurrent | lib/srvd/libsrvd/conf.c:476-504 | after every such history a call succeeds exactly if the file can be read (or need not be) and parsed, and exposes the parse of the current content, whatever parses have failed before |
| ConfCache.HistoryIsCalls | lib/srvd/libsrvd/conf.c:409-504 | a history of writes, removals and calls leaves the cache that its calls leave |
| ConfCache.CurrentExactly | lib/srvd/libsrvd/conf.c:198-214 | for any calls on any files, with times that repeat, go back or are zero: every call is current if and only if every file that is taken for an earlier accepted one, by its time and with no other file accepted in between, is acceptable with just the items then kept, which are none if a file has been rejected since |
| ConfCache.HistoryCurrentExactly | lib/srvd/libsrvd/conf.c:198-214 | likewise for the calls of any history of writes, removals and calls |
| ConfCache.StaleWhenTimesRepeat | lib/srvd/libsrvd/conf.c:205-210 | any acceptable file followed at the same non-zero time by any other that is empty or parses differently: the next call is not current |
| ConfCache.StaleAfterRejected | lib/srvd/libsrvd/conf.c:447-458 | any acceptable file with items, restored with its time after a rejected one: the next call succeeds without items |
| ConfCache.CurrentAfterAnother | lib/srvd/libsrvd/conf.c:205-210 | a time that comes back does no harm if another file has been accepted in between |
| ConfCache.CurrentWithoutItems | lib/srvd/libsrvd/conf.c:447-458 | nor does it after a rejected file if the new one has no items |
| ConfCache.FileConf.constructor | lib/srvd/libsrvd/conf.c:154-178 | a fresh cache has no item and is not up to date |
| ConfCache.FileConf.IsUpToDate | lib/srvd/libsrvd/conf.c:198-214 | compares the remembered time with that of the file |
| ConfCache.FileConf.ParseFile | lib/srvd/libsrvd/conf.c:409-468 | a failed parse leaves no item but keeps the remembered time; a file that cannot be read changes nothing |
| ConfCache.FileConf.DefaultGet | lib/srvd/libsrvd/conf.c:476-504 | parses only if not up to date |
| Buffers.StoredIsTerminated | lib/srvd/nss/passwd.c:40-41 | an entry copied with strncpy and a final NUL is a terminated string within its own size, holding what the entry holds before a NUL |
| Buffers.Store | lib/srvd/nss/passwd.c:40-44 | the copy goes where the cursor is and touches nothing else |
| Passwd.PackingExact | lib/srvd/nss/passwd.c:25-128 | populating succeeds if and only if every recognised field has an entry and the string sizes sum to at most the buffer's; if only room is missing the error is ERANGE |
| Passwd.PackingMonotone | lib/srvd/nss/passwd.c:25-128 | success with some buffer size means success with any larger one, with the same offsets and bytes |
| Passwd.NeededGrows | lib/srvd/nss/passwd.c:44 | the places of different fields do not overlap |
| Passwd.StringsPlaced | lib/srvd/nss/passwd.c:25-120 | after success each string stands at its place and the record points to the last one of its type |
| Passwd.NumbersTaken | lib/srvd/nss/passwd.c:47-63 | a uid or gid entry of four bytes is the number in network order |
| Passwd.MembersPointed | lib/srvd/nss/passwd.c:29-116 | by type number and member: after success the last field of type 751 is `name`, of 754 `dir`, of 755 `shell`, and of 756 `gecos` where records have it, with its bytes where the member points |
| Passwd.NumbersRead | lib/srvd/nss/passwd.c:47-63 | the last field of type 752 whose first entry has four bytes is `uid`, of 753 `gid`, highest byte first |
| Passwd.NumbersLeft | lib/srvd/nss/passwd.c:47-63 | without such a field the number is what it was |
| Passwd.PointersLeft | lib/srvd/nss/passwd.c:29-116 | a member whose type does not occur, and `gecos` where it is not supported, is what it was |
| Passwd.OthersSkipped | lib/srvd/nss/passwd.c:117-119 | a field of any other type, anywhere among the others, makes no difference to record, bytes or error |
| Passwd.WithoutEntry | lib/srvd/nss/passwd.c:29-64 | the first field of these types without an entry stops with EINVAL, unless the strings before it lack room, which is ERANGE |
| Passwd.ResponsePacked | lib/srvd/nss/passwd.c:19-128 | for any message a response was received from: after success each string field is a terminated copy within the buffer and the record points to it |
| Passwd.PopulateField | lib/srvd/nss/passwd.c:28-121 | one field in memory: cursor, record and buffer as specified, nothing behind the cursor touched |
| Passwd.Populate | lib/srvd/nss/passwd.c:19-128 | the whole function in memory, over the linked fields behind the first one |
| Aliases.OneExact | lib/srvd/nss/aliases.c:29-91 | one field, for every buffer: packed, refused or run past its table, each under its exact condition |
| Aliases.PackingExact | lib/srvd/nss/aliases.c:29-91 | populating succeeds if and only if name and local fields have entries, no member counter has wrapped, and name, pointer table and member strings fit together; if only room is missing the error is ERANGE |
| Aliases.OverrunExactly | lib/srvd/nss/aliases.c:51-77 | a pointer is written behind the end of its table if and only if some member counter has wrapped, all fields before it are packed, and the strings up to the first without a slot fit |
| Aliases.OverrunReceived | lib/srvd/nss/aliases.c:51-77 | such packets can be received: whenever two member fields of one message do not wrap their counters but do so together, and the strings up to the first without a slot fit, the message is read without complaint and packing runs past its table |
| Aliases.OverrunHappens | lib/srvd/nss/aliases.c:51-77 | for instance with two times 32768 members of one byte, for every buffer that is not empty |
| Aliases.PackingMonotone | lib/srvd/nss/aliases.c:29-91 | success with some buffer size means the same result with any larger one |
| Aliases.PlacesApart | lib/srvd/nss/aliases.c:48-76 | the places of different fields do not overlap |
| Aliases.MembersApart | lib/srvd/nss/aliases.c:65-76 | nor do those of different members of a field |
| Aliases.MemberPlaced | lib/srvd/nss/aliases.c:51-77 | slot k of the table lies in front of all strings and points to the copy of entry k |
| Aliases.FieldPlaced | lib/srvd/nss/aliases.c:29-91 | after success each field's bytes stand at its place within the buffer, and the record's pointer, count or flag is that of the last field of its type |
| Aliases.LocalSettled | lib/srvd/nss/aliases.c:26-86 | whatever the record held, after success `alias_local` is the byte of the last field of type 153 whose first entry is one byte, and 0 if there is none |
| Aliases.MembersPointed | lib/srvd/nss/aliases.c:32-77 | by type number: after success the last field of type 151 is the name, where its bytes stand, and the last of 152 the members and their count |
| Aliases.MembersLeft | lib/srvd/nss/aliases.c:32-77 | without a field of its type the name, or the members and their count, are what they were |
| Aliases.OthersSkipped | lib/srvd/nss/aliases.c:88-89 | a field of any other type makes no difference |
| Aliases.WithoutEntry | lib/srvd/nss/aliases.c:33-84 | the first name or local field without an entry stops with EINVAL, unless what is before it lacks room |
| Aliases.MembersAlone | lib/srvd/nss/aliases.c:51-77 | one member field with any number of entries: eight bytes for each as far as 16 bits count, and the strings; packed, refused, or past the table, each under its numbers |
| Aliases.MembersPacked | lib/srvd/nss/aliases.c:51-77 | for any message a response was received from: after success `alias_members` is a table within the buffer whose slot k, below `alias_members_len`, points to a terminated copy of entry k, at places of their own |
| Aliases.NamePacked | lib/srvd/nss/aliases.c:33-49 | likewise for the name |
| Aliases.StoreMember | lib/srvd/nss/aliases.c:71-75 | copies one member and sets its slot, and nothing else |
| Aliases.FillStrings | lib/srvd/nss/aliases.c:64-76 | the strings and their slots, member by member, up to the end, a string that does not fit, or one without a slot |
| Aliases.FillMembers | lib/srvd/nss/aliases.c:51-77 | the table and the strings in memory for every field, a wrapped counter included: filled, refused, or past the end of the table, as specified |
| Aliases.PopulateField | lib/srvd/nss/aliases.c:32-90 | one field in memory: cursor, record and buffer, or how it ends, as specified |
| Aliases.Populate | lib/srvd/nss/aliases.c:20-96 | the whole function in memory, over the linked fields behind the first one |
| Delivery.Delivered | lib/srvd/libsrvd/service.c:78-106 | what a handler sets reaches the client as the fields behind the first one of a packet received from a message |
| Delivery.PasswdDelivered | lib/srvd/nss/passwd.c:19-128 | from handler to caller: when a handler sets passwd fields that fit the buffer, the query has its status and the record points to each of its strings, terminated and within the buffer |
| Delivery.NumberDelivered | lib/srvd/nss/passwd.c:47-63 | likewise the record has the numbers the handler has set |
| Delivery.MemberDelivered | lib/srvd/nss/aliases.c:51-77 | likewise for aliases: the table in the buffer points to each of the handler's member strings, as many as the record counts |
| Delivery.AliasNameDelivered | lib/srvd/nss/aliases.c:33-49 | likewise for the name |
| Callers.Ask | lib/srvd/libsrvd/service.c:78-106 | one question sent from memory: status and response as the specification of a query says |
| Callers.GetPasswd | lib/srvd/nss/passwd.c:131-158 | the passwd calls by name and by number in memory, for every server: not found, unavailable, failed, or populated from the answer, or from the part of it that arrived, with record and buffer as packing says |
| Callers.GetAlias | lib/srvd/nss/aliases.c:98-123 | likewise the alias call, which can also run past its table |
| Callers.PasswdByStatus | lib/srvd/nss/passwd.c:145-157 | only with status 0 is anything unpacked; 2 is not found, 3 unavailable, any other fails with EINVAL, and then record and buffer are untouched |
| Callers.AliasByStatus | lib/srvd/nss/aliases.c:112-123 | likewise for aliases |
| Callers.QuestionSeen | lib/srvd/nss/passwd.c:138-143 | the handler of a question sees one field with one entry; without a handler the query ends with status 3 |
| Callers.PasswdReaches | lib/srvd/nss/passwd.c:131-158 | from handler to caller's memory: when the handler reports success and sets fields that fit the buffer, the call succeeds and the record points to each of its strings, terminated and in the buffer |
| Callers.MemberReaches | lib/srvd/nss/aliases.c:98-123 | likewise the pointer table in the buffer points to each member string |

## Left out

- Socket, bind, accept, connect, partial reads and writes, client selection and setup: system calls and wrappers; a connection delivers whole messages.
- Logging, with the parser's line counter that only feeds it, build files, the empty PAM module: no logic.
- The request getters and response setters under lib/srvd/libsrvd/service/nss/: thin wrappers over packet operations, easy members only.
- Mutexes, thread keys and the per-thread offsets of the enumeration functions: a mutex is an abstract lock; nothing is claimed about enumeration.
- Entry lists under their own lock: the interleaving model covers field lists; entry lists are modelled sequentially.
- The raw field adder and injector in the interleaving model: they do not check types, so distinctness would not hold with them.
- Serialization.SerialPacket.Serialize: what memory holds after a write past the allocation is not stated, nor is that of a packet left dangling.
- Service.QueryExact: encodings of 2^32 bytes and more, whose size word wraps, are outside it; for those `Outcomes.AnsweredOnly`, `PartialOnly` and `NoAnswerOnly` say how a query ends, but not which are refused and which left dangling. Sums that overflow a 32-bit `size_t` are not modelled.
- Refused allocations in the middle of a whole query, and of the body buffer: single operations model refusals, queries grant all.
- Service.RunQuery: status and response are not stated where server or client is undefined.
- Handlers that keep pointers, run threads or do anything but read the request and set the response.
- Allocation failure inside the parser: a refused item is silently missing there.
- ConfParser.FileRead: reads the C locale's letters and digits only; characters beyond ASCII are not name characters.
- Passwd.Populate: what buffer and record hold after ERANGE or EINVAL is not stated; callers discard them.
- Aliases.Populate: likewise.
- ConfDocument.DocumentFound: for texts with NUL it does not say what is accepted; `HarmlessWhenTaken` is one that is accepted though an assignment has no value.
- Callers.GetPasswd: freeing request and response at the end, and building the request by name, whose fixed size reads behind a shorter string.
- Callers.GetAlias: likewise.
- 4-byte pointers, alignment of the pointer table, host byte order.
- Finalizing the handler registry, and freeing of a service node: lists of the same kind are covered by the packet and configuration finalizers.
