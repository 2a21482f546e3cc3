/**
  Requests and responses: what the server makes of one client message, and what the client makes
  of the answer. A connection delivers each message as one whole byte string.
 */
module Service {
  import opened Bytes
  import opened Wrappers
  import opened Codec
  import opened Merging
  import opened Packets
  import opened Readings
  import opened Serialization
  import opened Registry

  const STATUS: uint16 := 65535  // reserved field type

  const FAIL: uint16 := 1
  const UNAVAIL: uint16 := 3
  const UNKNOWN: uint16 := 65535

  // ---------- one message, on values ----------

  /** All allocations are granted. */
  function Always(k: nat): bool { true }

  /** How reading `message` onto `q` ends. */
  ghost function Reception(q: seq<Field>, message: seq<byte>, memory: nat -> bool): Reading {
    if |message| < HEADER_SIZE || DecodeHeader(message).None? then Refused(q)
    else
      var h := DecodeHeader(message).value;
      if |message| < HEADER_SIZE + h.size then Refused(q)
      else ReadBody(q, message[HEADER_SIZE..HEADER_SIZE + h.size] + [0, 0, 0], h.size, h.count, memory)
  }

  /** The packet that reading `message` onto `q` leaves, if reading succeeds. */
  ghost function Received(q: seq<Field>, message: seq<byte>): Option<seq<Field>> {
    match Reception(q, message, Always)
    case Accepted(p) => Some(p)
    case _ => None
  }

  /** Whatever message it comes from, a received packet has distinct types and no empty entry. */
  lemma ReceivedIsPlain(message: seq<byte>)
    requires Received([], message).Some?
    ensures DistinctTypes(Received([], message).value) && NoEmptyEntry(Received([], message).value)
  {
    hide DecodeHeader, ReadBody;
    var h := DecodeHeader(message).value;
    AcceptedIsPlain(message[HEADER_SIZE..HEADER_SIZE + h.size] + [0, 0, 0], h.size, h.count, Always);
  }

  /** The size word of a message can hold the size of the packet. */
  ghost predicate SizeFits(p: seq<Field>) { |EncodeFields(p)| < 0x1_0000_0000 }

  /** Nor has a packet an empty entry of which only the first fields have been received. */
  lemma PartIsPlain(message: seq<byte>)
    ensures var r := Reception([], message, Always); !r.Dangling? ==> NoEmptyEntry(r.p)
  {
    hide DecodeHeader, ReadFrom, StopsAfter, Merge;
    NoEmptyNil();
    if Received([], message).Some? {
      ReceivedIsPlain(message);
    } else if |message| >= HEADER_SIZE && DecodeHeader(message).Some? {
      var h := DecodeHeader(message).value;
      if |message| >= HEADER_SIZE + h.size {
        RefusedIsPlain(message[HEADER_SIZE..HEADER_SIZE + h.size] + [0, 0, 0], h.size, h.count);
      }
    }
  }

  lemma RefusedIsPlain(body: seq<byte>, size: nat, n: nat)
    requires size + 3 <= |body|
    ensures var r := ReadBody([], body, size, n, Always); r.Refused? ==> NoEmptyEntry(r.p)
  {
    hide ReadFrom, Merge, HeaderRefused, EncodeFields;
    NoEmptyNil();
    var r := ReadFrom([], body, size, 0, n, Always, 0);
    if r.Refused? {
      RefusedExactly([], body, size, 0, n, Always, 0, r.p);
      var p :| StopsAfter([], body, size, 0, n, Always, 0, p) && r.p == Merge([], p);
      MergeNoEmpty([], p);
    }
  }

  /** A message can carry the packet: no counter wraps and the size word does not. */
  ghost predicate Encodable(p: seq<Field>) {
    CountersFit(p) && SizeFits(p)
  }

  /** Sending and receiving, for every packet a message can carry and any packet `q` it is read
      onto: the fields are merged into `q`, unless there is an empty entry; then `q` is left
      dangling. */
  lemma ReceiveSent(q: seq<Field>, p: seq<Field>)
    requires Encodable(p)
    ensures Reception(q, Encode(p), Always) == if NoEmptyEntry(p) then Accepted(Merge(q, p)) else Dangling
  {
    hide ReadBody, EncodeFields, EncodeHeader, DecodeHeader;
    var header, body := EncodeHeader(|p|, |EncodeFields(p)|), EncodeFields(p);
    EncodeIs(p);
    HeaderPrefix(header, body);
    HeaderInverse(header, |p|, |body|);
    assert (header + body)[HEADER_SIZE..HEADER_SIZE + |body|] == body;
    EncodedBody(q, p, [0, 0, 0], Always);
  }

  lemma EncodeIs(p: seq<Field>)
    requires Encodable(p)
    ensures Encode(p) == EncodeHeader(|p|, |EncodeFields(p)|) + EncodeFields(p)
    ensures |EncodeHeader(|p|, |EncodeFields(p)|)| == HEADER_SIZE
  {
    hide EncodeFields;
    Low16Holds(|p|);
    NoWrap32(|EncodeFields(p)|);
  }

  lemma NoWrap32(n: nat)
    requires n < 0x1_0000_0000
    ensures Low32(n) == n
  {
  }

  lemma HeaderPrefix(h: seq<byte>, rest: seq<byte>)
    requires |h| == HEADER_SIZE
    ensures DecodeHeader(h + rest) == DecodeHeader(h)
  {
    assert forall i :: 0 <= i < HEADER_SIZE ==> (h + rest)[i] == h[i];
  }

  /** The status goes in front, unless the handler has used its type. */
  function WithStatus(p: seq<Field>, status: uint16): seq<Field> {
    if IndexOf(p, STATUS) < |p| then p else [Field(STATUS, [Put16(status)])] + p
  }

  /** The response packet for a non-empty request. */
  function Response(handler: Option<Handler>, request: seq<Field>): seq<Field> {
    match handler
    case None => WithStatus([], UNAVAIL)
    case Some(h) => WithStatus(Merge([], h(request).fields), h(request).status)
  }

  /** What the server does with a message: it answers, or closes the connection; or it goes on with
      a packet that has been left dangling, or writes past the allocation for a response with a
      wrapped counter. */
  datatype Served = Replied(message: seq<byte>) | Silent | Undefined

  ghost function Answer(lookup: uint16 -> Option<Handler>, message: seq<byte>): Served {
    match Reception([], message, Always)
    case Accepted(request) =>
      if request == [] then Silent
      else
        var p := Response(lookup(request[0].ty), request);
        if CountersFit(p) then Replied(Encode(p)) else Undefined
    case Refused(_) => Silent
    case Dangling => Undefined
  }

  /** The status the client takes from a response: 16 bits in the first entry of the first field. */
  function StatusOf(p: seq<Field>): uint16 {
    if p == [] || p[0].entries == [] then FAIL
    else if |p[0].entries[0]| == 2 then Get16(p[0].entries[0], 0)
    else UNKNOWN
  }

  /** What iterating over a response visits: every field after the first. */
  function Payload(p: seq<Field>): seq<Field> {
    if p == [] then [] else p[1..]
  }

  /** What a query ends with: a response; no answer, with status FAIL and an empty response; a
      response cut short, with what has been read of it; or server or client going on with a
      dangling packet or writing past an allocation. */
  datatype Outcome =
    | Answered(status: uint16, response: seq<Field>)
    | NoAnswer
    | Partial(status: uint16, response: seq<Field>)
    | ServerUndefined
    | ClientUndefined

  ghost function Query(lookup: uint16 -> Option<Handler>, request: seq<Field>): Outcome {
    if !CountersFit(request) then ClientUndefined
    else
      match Answer(lookup, Encode(request))
      case Silent => NoAnswer
      case Undefined => ServerUndefined
      case Replied(message) =>
        match Reception([], message, Always)
        case Accepted(response) => Answered(StatusOf(response), response)
        case Refused(response) => Partial(StatusOf(response), response)
        case Dangling => ClientUndefined
  }

  // ---------- end to end ----------

  lemma Status16(status: uint16)
    ensures Get16(Put16(status), 0) == status
  {
    Get16Put16(status, [], []);
    assert [] + Put16(status) + [] == Put16(status);
  }

  lemma NoStatusIndex(p: seq<Field>)
    requires !HasType(p, STATUS)
    ensures IndexOf(p, STATUS) == |p|
  {
  }

  /** Every response has distinct types, whatever the handler sets. */
  lemma ResponseDistinct(p: seq<Field>, status: uint16)
    requires DistinctTypes(p)
    ensures DistinctTypes(WithStatus(p, status))
  {
    var w := WithStatus(p, status);
    if IndexOf(p, STATUS) == |p| {
      assert forall i :: 1 <= i < |w| ==> w[i] == p[i - 1] && w[i].ty != STATUS;
    }
  }

  /** A packet with distinct types arrives as it was sent, if it has no empty entry. */
  lemma ArrivesUnchanged(p: seq<Field>)
    requires Encodable(p) && DistinctTypes(p)
    ensures Reception([], Encode(p), Always) == if NoEmptyEntry(p) then Accepted(p) else Dangling
  {
    ReceiveSent([], p);
    assert [] + p == p;
    MergeDistinct([], p);
  }

  /** The request that reaches the handler: the client's fields merged by type. Its first type is
      that of the client's first field. */
  lemma FirstTypeKept(p: seq<Field>)
    requires p != []
    ensures Merge([], p) != [] && Merge([], p)[0].ty == p[0].ty
  {
    MergeTypes([], p);
    assert TypeSet([]) == {};
    assert Types(Merge([], p)) == [p[0].ty] + NewTypes({} + {p[0].ty}, p[1..]);
    assert Types(Merge([], p))[0] == p[0].ty;
  }

  /** End to end, for every request, every handler and every response whose sizes fit: how the query
      ends. The handler sees the request merged by type, and the client ends up with exactly the
      response packet and the status in its first field, if no counter of the two packets has
      wrapped, the request is not empty, and neither holds an empty entry. */
  lemma QueryExact(lookup: uint16 -> Option<Handler>, request: seq<Field>)
    requires SizeFits(request)
    requires request != [] ==> SizeFits(Response(lookup(request[0].ty), Merge([], request)))
    ensures Query(lookup, request) ==
              if !CountersFit(request) then ClientUndefined
              else if request == [] then NoAnswer
              else if !NoEmptyEntry(request) then ServerUndefined
              else
                var p := Response(lookup(request[0].ty), Merge([], request));
                if !CountersFit(p) then ServerUndefined
                else if NoEmptyEntry(p) then Answered(StatusOf(p), p)
                else ClientUndefined
  {
    hide StatusOf, EncodeFields, Encode, Reception, CountersFit, Merge;
    if CountersFit(request) {
      ReceiveSent([], request);
      if request == [] {
        NoEmptyNil();
        MergeDistinct([], []);
      } else if NoEmptyEntry(request) {
        var handler, seen := lookup(request[0].ty), Merge([], request);
        FirstTypeKept(request);
        ResponseIsDistinct(handler, seen);
        if CountersFit(Response(handler, seen)) { ArrivesUnchanged(Response(handler, seen)); }
      }
    }
  }

  lemma ResponseIsDistinct(handler: Option<Handler>, request: seq<Field>)
    ensures DistinctTypes(Response(handler, request))
  {
    if handler.Some? {
      MergeTypes([], handler.value(request).fields);
      ResponseDistinct(Merge([], handler.value(request).fields), handler.value(request).status);
    }
  }

  /** If the type of the first field is registered and the handler sets distinct fields, none of
      them empty or of the reserved type, the client gets the handler's status, and iterating over
      the response yields exactly the handler's fields, in order. */
  lemma QueryHandled(lookup: uint16 -> Option<Handler>, request: seq<Field>)
    requires request != [] && Encodable(request) && NoEmptyEntry(request)
    requires lookup(request[0].ty).Some?
    requires var reply := lookup(request[0].ty).value(Merge([], request));
             && Encodable(WithStatus(reply.fields, reply.status))
             && DistinctTypes(reply.fields) && NoEmptyEntry(reply.fields) && !HasType(reply.fields, STATUS)
    ensures var reply := lookup(request[0].ty).value(Merge([], request));
            var r := Query(lookup, request);
            r.Answered? && r.status == reply.status && Payload(r.response) == reply.fields
  {
    hide Query, CountersFit, SizeFits, Response, WithStatus, NoEmptyEntry;
    var reply := lookup(request[0].ty).value(Merge([], request));
    PlainResponse(lookup(request[0].ty), Merge([], request));
    QueryExact(lookup, request);
  }

  /** The response of a handler that sets distinct fields, none of them empty or reserved. */
  lemma PlainResponse(handler: Option<Handler>, request: seq<Field>)
    requires handler.Some?
    requires var reply := handler.value(request);
             DistinctTypes(reply.fields) && NoEmptyEntry(reply.fields) && !HasType(reply.fields, STATUS)
    ensures var reply, p := handler.value(request), Response(handler, request);
            && p == WithStatus(reply.fields, reply.status) && NoEmptyEntry(p)
            && StatusOf(p) == reply.status && Payload(p) == reply.fields
  {
    var reply := handler.value(request);
    assert [] + reply.fields == reply.fields;
    MergeDistinct([], reply.fields);
    NoStatusIndex(reply.fields);
    NoEmptyCons(Field(STATUS, [Put16(reply.status)]), reply.fields);
    Status16(reply.status);
  }

  lemma NoEmptyCons(f: Field, p: seq<Field>)
    requires [] !in f.entries && NoEmptyEntry(p)
    ensures NoEmptyEntry([f] + p) && ([f] + p)[1..] == p
  {
    assert forall i :: 1 <= i < |[f] + p| ==> ([f] + p)[i] == p[i - 1];
  }

  /** If the type is not registered, the status is UNAVAIL and there is nothing else. */
  lemma QueryUnavailable(lookup: uint16 -> Option<Handler>, request: seq<Field>)
    requires request != [] && Encodable(request) && NoEmptyEntry(request)
    requires lookup(request[0].ty).None?
    ensures var r := Query(lookup, request);
            r.Answered? && r.status == UNAVAIL && Payload(r.response) == []
  {
    var w := [Field(STATUS, [Put16(UNAVAIL)])];
    assert WithStatus([], UNAVAIL) == w;
    Small(w);
    QueryExact(lookup, request);
    Status16(UNAVAIL);
  }

  lemma Small(w: seq<Field>)
    requires |w| == 1 && |w[0].entries| == 1 && |w[0].entries[0]| == 2
    ensures Encodable(w)
  {
    hide EncodeFields;
    EncodedLength(w);
    var es := w[0].entries;
    assert w[1..] == [] && es[1..] == [];
    assert EntryCount(w) == 1 && DataSize(es) == 2;
    assert DataBytes(w) == 2;
  }

  /** A request without fields gets no answer; one with an empty entry leaves the server with a
      dangling packet. */
  lemma QueryRefused(lookup: uint16 -> Option<Handler>, request: seq<Field>)
    requires Encodable(request)
    ensures request == [] ==> Query(lookup, request) == NoAnswer
    ensures !NoEmptyEntry(request) ==> Query(lookup, request) == ServerUndefined
  {
    ReceiveSent([], request);
    if request == [] { NoEmptyNil(); }
  }

  /** The message leaves the packet `q` dangling: it is complete, and its fields are acceptable up to
      one that has an acceptable header and an entry that is empty, or overruns, or is refused. */
  ghost predicate LeavesDangling(q: seq<Field>, message: seq<byte>, memory: nat -> bool) {
    && |message| >= HEADER_SIZE && DecodeHeader(message).Some?
    && var h := DecodeHeader(message).value;
       && |message| >= HEADER_SIZE + h.size && h.size >= h.count as int * FIELD_HEADER_SIZE
       && Dangles(q, message[HEADER_SIZE..HEADER_SIZE + h.size] + [0, 0, 0], h.size, 0, h.count, memory, 0)
  }

  /** The server is undefined exactly for a message that leaves its packet dangling, and for one to
      which the response has a wrapped counter. */
  lemma ServerUndefinedExactly(lookup: uint16 -> Option<Handler>, message: seq<byte>)
    ensures Answer(lookup, message).Undefined? <==>
              || LeavesDangling([], message, Always)
              || (Received([], message).Some?
                  && var request := Received([], message).value;
                     request != [] && !CountersFit(Response(lookup(request[0].ty), request)))
  {
    hide Response, CountersFit;
    DanglingExactly([], message, Always);
  }

  /** The same for any packet a message is read onto, and any pattern of refused allocations. */
  lemma DanglingExactly(q: seq<Field>, message: seq<byte>, memory: nat -> bool)
    ensures Reception(q, message, memory).Dangling? <==> LeavesDangling(q, message, memory)
  {
    hide DecodeHeader, ReadFrom, Dangles;
    if |message| >= HEADER_SIZE && DecodeHeader(message).Some? {
      var h := DecodeHeader(message).value;
      if |message| >= HEADER_SIZE + h.size {
        DanglesExactly(q, message[HEADER_SIZE..HEADER_SIZE + h.size] + [0, 0, 0], h.size, 0, h.count, memory, 0);
      }
    }
  }

  // ---------- the same in memory ----------

  /** Reads one message onto `packet`; `slack` is what lies behind the body buffer in memory. */
  method ReadMessage(message: seq<byte>, slack: seq<byte>, packet: Packet, memory: nat -> bool) returns (status: Status)
    requires packet.Valid() && |slack| >= 3
    modifies packet, packet.fields, packet.nodes
    ensures Left(Reception(old(packet.Model()), message, memory), status, packet)
    ensures !status.Broken? ==> Grown(packet, old(packet.fields), old(packet.nodes))
  {
    hide Packet.Valid, Packet.Model, ReadBody;
    if |message| < HEADER_SIZE { return Clean; }
    var header := message[..HEADER_SIZE];
    HeaderPrefix(header, message[HEADER_SIZE..]);
    assert header + message[HEADER_SIZE..] == message;
    var serial := new SerialPacket();
    var ok := serial.UnserializeHeader(header);
    if !ok { return Clean; }
    if |message| < serial.size { return Clean; }
    var bytes := message[HEADER_SIZE..serial.size] + slack;
    var body := new byte[|bytes|](i requires 0 <= i < |bytes| => bytes[i]);
    assert body[..] == bytes;
    BodyIgnoresSlack(packet.Model(), bytes, message[HEADER_SIZE..serial.size] + [0, 0, 0],
                     serial.bodySize, serial.fieldCount, memory);
    status := serial.UnserializeBody(packet, body, memory);
  }

  lemma BodyIgnoresSlack(p: seq<Field>, b: seq<byte>, c: seq<byte>, size: nat, n: nat, memory: nat -> bool)
    requires size + 3 <= |b| && size + 3 <= |c| && b[..size] == c[..size]
    ensures ReadBody(p, b, size, n, memory) == ReadBody(p, c, size, n, memory)
  {
    ReadIgnoresSlack(p, b, c, size, 0, n, memory, 0);
  }

  /** The message for a packet, unless a counter has wrapped. */
  method WriteMessage(packet: Packet) returns (message: Option<seq<byte>>)
    requires packet.Valid()
    ensures message == if CountersFit(packet.Model()) then Some(Encode(packet.Model())) else None
  {
    hide Packet.Valid, Packet.Model, Encode, CountersFit;
    var serial := new SerialPacket();
    var end := serial.Serialize(packet, true);
    message := if end == Whole then Some(serial.data[..]) else None;
  }

  /** What a handler can see of a request: all of it. */
  method Contents(packet: Packet) returns (p: seq<Field>)
    requires packet.Valid()
    ensures p == packet.Model()
  {
    p := [];
    var field := packet.fieldHead;
    while field != null
      invariant |p| <= |packet.fields| && field == if |p| < |packet.fields| then packet.fields[|p|] else null
      invariant p == packet.Model()[..|p|]
      decreases |packet.fields| - |p|
    {
      assert field in packet.fields;
      var es := FieldContents(field);
      p := p + [Field(field.ty, es)];
      field := field.next;
    }
  }

  method FieldContents(field: FieldNode) returns (es: seq<Data>)
    requires field.Valid()
    ensures es == DataOf(field.entries)
  {
    es := [];
    var entry := field.entryHead;
    while entry != null
      invariant |es| <= |field.entries| && entry == if |es| < |field.entries| then field.entries[|es|] else null
      invariant es == DataOf(field.entries)[..|es|]
      decreases |field.entries| - |es|
    {
      es := es + [entry.data];
      entry := entry.next;
    }
  }

  /** Sets one field of a response: its entries are added to the field of that type. */
  method SetField(response: Packet, ghost m: seq<Field>, f: Field)
    requires response.Valid() && response.Model() == m
    modifies response, response.fields, response.nodes
    ensures response.Valid() && Grown(response, old(response.fields), old(response.nodes))
    ensures response.Model() == Absorb(m, f)
  {
    hide Packet.Valid, Packet.Model;
    ghost var i := IndexOf(m, f.ty);
    var field := response.GetOrAdd(f.ty, true);
    ghost var q := response.Model();
    AppendNothing(q, i);
    for k := 0 to |f.entries|
      invariant response.Valid() && Grown(response, old(response.fields), old(response.nodes))
      invariant i < |response.fields| && response.fields[i] == field
      invariant response.Model() == AppendAt(q, i, f.entries[..k])
    {
      var d := f.entries[k];
      var data := if d == [] then None else Some(d);
      assert Copied(|d|, data) == d;
      AppendMore(q, i, f.entries[..k], d);
      assert f.entries[..k + 1] == f.entries[..k] + [d];
      var _ := response.EntryAdd(i, field, |d|, data, true);
    }
    assert f.entries[..|f.entries|] == f.entries;
  }

  lemma AppendMore(p: seq<Field>, i: nat, es: seq<Data>, d: Data)
    requires i < |p|
    ensures AppendAt(AppendAt(p, i, es), i, [d]) == AppendAt(p, i, es + [d])
  {
    Assoc(p[i].entries, es, [d]);
  }

  /** A handler at work: it looks at the request, sets fields of the response and gives a status. */
  method Handle(handler: Handler, request: Packet, response: Packet) returns (status: uint16)
    requires request.Valid() && response.Valid() && response.fields == [] && response.nodes == {}
    modifies response
    ensures response.Valid() && Grown(response, [], {})
    ensures response.Model() == Merge([], handler(old(request.Model())).fields)
    ensures status == handler(old(request.Model())).status
  {
    hide Packet.Valid, Packet.Model, Merge;
    var seen := Contents(request);
    var reply := handler(seen);
    SetFields(response, reply.fields);
    status := reply.status;
  }

  method SetFields(response: Packet, fields: seq<Field>)
    requires response.Valid() && response.fields == [] && response.nodes == {}
    modifies response
    ensures response.Valid() && Grown(response, [], {})
    ensures response.Model() == Merge([], fields)
  {
    hide Packet.Valid, Absorb;
    ghost var m := response.Model();
    assert m == [] && fields[0..] == fields;
    for k := 0 to |fields|
      invariant response.Valid() && Grown(response, [], {})
      invariant response.Model() == m && Merge(m, fields[k..]) == Merge([], fields)
    {
      assert fields[k..][0] == fields[k] && fields[k..][1..] == fields[k + 1..];
      SetField(response, m, fields[k]);
      m := response.Model();
    }
  }

  lemma FirstField(packet: Packet)
    requires packet.Valid() && packet.fields != []
    ensures packet.Model()[0].ty == packet.fields[0].ty
  {
  }

  /** The status insertion, which does nothing if the type is taken. */
  method InsertStatus(response: Packet, status: uint16)
    requires response.Valid()
    modifies response, response.fields
    ensures response.Valid() && response.Model() == WithStatus(old(response.Model()), status)
    ensures fresh(response.nodes - old(response.nodes))
    ensures forall k :: 0 <= k < |response.fields| ==>
              response.fields[k] in old(response.fields) || fresh(response.fields[k])
  {
    hide Packet.Valid, Packet.Model;
    var data := Put16(status);
    assert Copied(2, Some(data)) == data;
    var _ := response.Insert(STATUS, 2, Some(data), true, true);
  }

  /** Runs the matching handler, if any, and puts the status in front. */
  method Dispatch(server: Server, request: Packet, response: Packet)
    requires server.Valid() && request.Valid() && request.fields != []
    requires response != request && response.Valid() && response.fields == [] && response.nodes == {}
    modifies response
    ensures response.Valid() && Grown(response, [], {})
    ensures response.Model() == Response(server.Table()(old(request.Model())[0].ty), old(request.Model()))
  {
    hide Packet.Valid, Packet.Model, WithStatus;
    ghost var lookup, seen := server.Table(), request.Model();
    var field := request.GetFirst();
    assert field.ty == seen[0].ty by { FirstField(request); }
    var status := UNKNOWN;
    var handler := server.Get(field.ty);
    match handler {
      case Some(h) =>
        status := Handle(h, request, response);
        InsertStatus(response, status);
      case None =>
        InsertStatus(response, UNAVAIL);
    }
  }

  /** Frees both packets of a client and everything in them. */
  method Close(request: Packet, response: Packet) returns (freedFields: seq<FieldNode>, freedEntries: seq<EntryNode>)
    requires request.Valid() && response.Valid()
    requires request != response && request.nodes !! response.nodes
    requires forall k :: 0 <= k < |response.fields| ==> response.fields[k] !in request.fields
    modifies request, request.fields, response, response.fields
    ensures request.Valid() && request.fields == [] && response.Valid() && response.fields == []
    ensures freedFields == old(request.fields) + old(response.fields)
    ensures freedEntries == old(Flatten(request.fields)) + old(Flatten(response.fields))
    ensures Freed(old(request.Model()), old(response.Model()), freedFields, freedEntries)
  {
    hide Packet.Valid, Packet.Model, Freed;
    BothFreed(request, response);
    var fs, es := request.Finalize();
    var gs, ds := response.Finalize();
    freedFields, freedEntries := fs + gs, es + ds;
  }

  /** These are the fields and entries of a packet with that value, field by field, in chain order. */
  ghost predicate Holding(p: seq<Field>, fields: seq<FieldNode>, entries: seq<EntryNode>) {
    && |fields| == |p|
    && if p == [] then entries == []
       else
         var n := |p[0].entries|;
         && n <= |entries| && DataOf(entries[..n]) == p[0].entries
         && (forall k :: 0 <= k < n ==> entries[k].owner == fields[0])
         && Holding(p[1..], fields[1..], entries[n..])
  }

  /** What two packets with these values hold has been freed, all of it and nothing twice. */
  ghost predicate Freed(p: seq<Field>, q: seq<Field>, freedFields: seq<FieldNode>, freedEntries: seq<EntryNode>) {
    Holding(p + q, freedFields, freedEntries) && Distinct(freedFields) && Distinct(freedEntries)
  }

  lemma {:induction false} HoldsItsOwn(s: seq<FieldNode>)
    requires forall f :: f in s ==> f.Valid()
    ensures Holding(ModelOf(s), s, Flatten(s))
  {
    if s != [] {
      hide Flatten, FieldNode.Valid, Holding;
      var p, n := ModelOf(s), |s[0].entries|;
      HoldsItsOwn(s[1..]);
      assert p[1..] == ModelOf(s[1..]);
      FlattenFirst(s);
      assert Flatten(s)[..n] == s[0].entries && Flatten(s)[n..] == Flatten(s[1..]);
      OwnEntries(s[0]);
      HoldsOneMore(p, s, Flatten(s));
    } else {
      HoldsNothing(s);
    }
  }

  lemma HoldsNothing(s: seq<FieldNode>)
    requires s == []
    ensures Holding(ModelOf(s), s, Flatten(s))
  {
  }

  lemma FlattenFirst(s: seq<FieldNode>)
    requires s != []
    ensures Flatten(s) == s[0].entries + Flatten(s[1..])
  {
  }

  lemma OwnEntries(f: FieldNode)
    requires f.Valid()
    ensures forall k :: 0 <= k < |f.entries| ==> f.entries[k].owner == f
  {
  }

  lemma HoldsOneMore(p: seq<Field>, fields: seq<FieldNode>, entries: seq<EntryNode>)
    requires p != [] && |fields| == |p| && |p[0].entries| <= |entries|
    requires var n := |p[0].entries|;
             && DataOf(entries[..n]) == p[0].entries && (forall k :: 0 <= k < n ==> entries[k].owner == fields[0])
             && Holding(p[1..], fields[1..], entries[n..])
    ensures Holding(p, fields, entries)
  {
  }

  lemma {:induction false} HoldingTogether(p: seq<Field>, fields: seq<FieldNode>, entries: seq<EntryNode>,
                                           q: seq<Field>, others: seq<FieldNode>, rest: seq<EntryNode>)
    requires Holding(p, fields, entries) && Holding(q, others, rest)
    ensures Holding(p + q, fields + others, entries + rest)
    decreases |p|
  {
    if p == [] {
      assert p + q == q && fields + others == others && entries + rest == rest;
    } else {
      var n := |p[0].entries|;
      HoldingTogether(p[1..], fields[1..], entries[n..], q, others, rest);
      assert (p + q)[1..] == p[1..] + q && (fields + others)[1..] == fields[1..] + others;
      assert (entries + rest)[..n] == entries[..n] && (entries + rest)[n..] == entries[n..] + rest;
      assert forall k :: 0 <= k < n ==> (entries + rest)[k] == entries[k];
    }
  }

  /** What two separate packets hold. */
  lemma BothFreed(request: Packet, response: Packet)
    requires request.Valid() && response.Valid() && request.nodes !! response.nodes
    requires forall k :: 0 <= k < |response.fields| ==> response.fields[k] !in request.fields
    ensures Freed(request.Model(), response.Model(), request.fields + response.fields,
                  Flatten(request.fields) + Flatten(response.fields))
  {
    hide Holding;
    EntriesApart(request);
    EntriesApart(response);
    HoldsItsOwn(request.fields);
    HoldsItsOwn(response.fields);
    HoldingTogether(request.Model(), request.fields, Flatten(request.fields),
                    response.Model(), response.fields, Flatten(response.fields));
    DistinctTogether(request.fields, response.fields);
    DistinctTogether(Flatten(request.fields), Flatten(response.fields));
  }

  lemma EntriesApart(packet: Packet)
    requires packet.Valid()
    ensures Distinct(packet.fields) && Distinct(Flatten(packet.fields))
    ensures forall k :: 0 <= k < |Flatten(packet.fields)| ==> Flatten(packet.fields)[k] in packet.nodes
  {
    FlattenOnce(packet.fields);
    var r := Flatten(packet.fields);
    forall k | 0 <= k < |r|
      ensures r[k] in packet.nodes
    {
      assert r[k].owner in packet.fields && r[k] in r[k].owner.entries && r[k].owner.Within(packet.nodes);
    }
  }

  lemma DistinctTogether<T>(s: seq<T>, t: seq<T>)
    requires Distinct(s) && Distinct(t) && forall i, j :: 0 <= i < |s| && 0 <= j < |t| ==> s[i] != t[j]
    ensures Distinct(s + t)
  {
  }

  /** Dispatches a request that has been read, unless it is empty, and encodes the response. */
  method Serve(server: Server, request: Packet, response: Packet) returns (served: Served)
    requires server.Valid() && request.Valid()
    requires response != request && response.Valid() && response.fields == [] && response.nodes == {}
    modifies response
    ensures response.Valid() && Grown(response, [], {})
    ensures var seen := old(request.Model());
            if seen == [] then served == Silent && response.Model() == []
            else
              var r := Response(server.Table()(seen[0].ty), seen);
              && served == (if CountersFit(r) then Replied(Encode(r)) else Undefined)
              && response.Model() == r
  {
    hide Packet.Valid, Packet.Model, Response, CountersFit;
    served := Silent;
    var field := request.GetFirst();
    if field != null {
      Dispatch(server, request, response);
      var message := WriteMessage(response);
      served := if message == None then Undefined else Replied(message.value);
    }
  }

  /** What becomes of a request that has been read, up to freeing both packets. */
  method Finish(server: Server, request: Packet, response: Packet)
    returns (served: Served, freedFields: seq<FieldNode>, freedEntries: seq<EntryNode>)
    requires server.Valid() && request.Valid()
    requires response != request && response.Valid() && response.fields == [] && response.nodes == {}
    modifies request, request.fields, response
    ensures var seen := old(request.Model());
            if seen == [] then served == Silent && Freed(seen, [], freedFields, freedEntries)
            else
              var r := Response(server.Table()(seen[0].ty), seen);
              if CountersFit(r) then served == Replied(Encode(r)) && Freed(seen, r, freedFields, freedEntries)
              else served == Undefined
  {
    hide Packet.Valid, Packet.Model, Response, Freed, CountersFit;
    freedFields, freedEntries := [], [];
    served := Serve(server, request, response);
    if served.Undefined? { return; }
    freedFields, freedEntries := Close(request, response);
  }

  /** The body of the server's accept loop, from the client's message to the end of the connection.
      Whatever way it ends in, both packets are freed, unless it is undefined. */
  method ServeClient(server: Server, message: seq<byte>, slack: seq<byte>)
    returns (served: Served, freedFields: seq<FieldNode>, freedEntries: seq<EntryNode>)
    requires server.Valid() && |slack| >= 3
    ensures served == Answer(server.Table(), message)
    ensures !served.Undefined? ==>
              match Reception([], message, Always)
              case Accepted(seen) =>
                var r := if seen == [] then [] else Response(server.Table()(seen[0].ty), seen);
                Freed(seen, r, freedFields, freedEntries)
              case Refused(seen) => Freed(seen, [], freedFields, freedEntries)
              case Dangling => false
  {
    hide Packet.Valid, Packet.Model, Reception, Response, Freed, CountersFit;
    var request := new Packet();
    var response := new Packet();
    var status := ReadMessage(message, slack, request, Always);
    match status {
      case Broken => return Undefined, [], [];
      case Clean =>
        served := Silent;
        freedFields, freedEntries := Close(request, response);
      case Read => served, freedFields, freedEntries := Finish(server, request, response);
    }
  }

  /** Takes the status from a response whose `status` member still holds its initial value. */
  method ExtractStatus(response: Packet) returns (status: uint16)
    requires response.Valid()
    ensures status == StatusOf(response.Model())
  {
    status := UNKNOWN;
    var field := response.GetFirst();
    if field == null { return FAIL; }
    assert field in response.fields;
    var entry := field.entryHead;
    if entry == null { return FAIL; }
    if |entry.data| == 2 { status := Get16(entry.data, 0); }
  }

  /** The client's side of a query over a connection to `server`; `gone` tells that server or client
      has been undefined, and then nothing else is said. */
  method RunQuery(server: Server, request: Packet, response: Packet, serverSlack: seq<byte>, clientSlack: seq<byte>)
    returns (ok: bool, status: uint16, gone: bool)
    requires server.Valid() && request.Valid()
    requires response.Valid() && response.fields == [] && response.nodes == {}
    requires |serverSlack| >= 3 && |clientSlack| >= 3
    modifies response
    ensures match Query(server.Table(), old(request.Model()))
            case Answered(s, p) => !gone && ok && status == s && response.Valid() && response.Model() == p
            case NoAnswer => !gone && !ok && status == FAIL && response.Valid() && response.Model() == []
            case Partial(s, p) => !gone && !ok && status == s && response.Valid() && response.Model() == p
            case ServerUndefined => gone
            case ClientUndefined => gone
  {
    hide Packet.Valid, Packet.Model, Reception, Answer, CountersFit, Encode;
    ok, status, gone := false, UNKNOWN, true;
    var message := WriteMessage(request);
    if message == None { return; }
    var served, _, _ := ServeClient(server, message.value, serverSlack);
    match served {
      case Undefined => return;
      case Silent =>
      case Replied(reply) =>
        var end := ReadMessage(reply, clientSlack, response, Always);
        if end.Broken? { return; }
        ok := end.Read?;
    }
    gone := false;
    status := ExtractStatus(response);
  }
}
