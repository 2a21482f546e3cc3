/**
  From a handler to the buffer of a caller on the other side: a query composed with the packers.
 */
module Delivery {
  import opened Bytes
  import opened Wrappers
  import opened Codec
  import opened Merging
  import opened Registry
  import opened Service
  import opened Buffers
  import Passwd
  import Aliases

  /** The reply of the handler that the request reaches. */
  function ReplyTo(lookup: uint16 -> Option<Handler>, request: seq<Field>): Reply
    requires request != [] && lookup(request[0].ty).Some?
  {
    lookup(request[0].ty).value(Merge([], request))
  }

  /** The request can be sent and reaches a handler, and the handler sets distinct fields, none of
      them empty or of the reserved type, that can be sent back. */
  ghost predicate Handled(lookup: uint16 -> Option<Handler>, request: seq<Field>) {
    && request != [] && Encodable(request) && NoEmptyEntry(request) && lookup(request[0].ty).Some?
    && var reply := ReplyTo(lookup, request);
       && Encodable(WithStatus(reply.fields, reply.status))
       && DistinctTypes(reply.fields) && NoEmptyEntry(reply.fields) && !HasType(reply.fields, STATUS)
  }

  /** What the client receives, as a message that has been read. */
  lemma Delivered(lookup: uint16 -> Option<Handler>, request: seq<Field>) returns (message: seq<byte>)
    requires Handled(lookup, request)
    ensures var q, reply := Query(lookup, request), ReplyTo(lookup, request);
            && q.Answered? && q.status == reply.status && Payload(q.response) == reply.fields
            && Received([], message) == Some(q.response)
  {
    hide Encodable, WithStatus, Encode, Reception, StatusOf;
    QueryHandled(lookup, request);
    message := Answer(lookup, Encode(request)).message;
  }

  /** An entry that is a string with its NUL. */
  predicate Spelt(d: Data, s: seq<byte>) { d == s + [0] && 0 !in s }

  lemma SpeltIs(d: Data, s: seq<byte>)
    requires Spelt(d, s)
    ensures CString(d[..|d| - 1]) == s
  {
    assert d[..|d| - 1] == s;
    assert End(s) == |s|;
  }

  /** When a handler sets passwd fields that fit into `size` bytes, the client's record points to
      each of the handler's strings, in the buffer, and has its status. */
  lemma PasswdDelivered(lookup: uint16 -> Option<Handler>, request: seq<Field>, size: nat, gecos: bool,
                        r: Passwd.Record, k: nat, s: seq<byte>)
    requires Handled(lookup, request)
    requires var fields := ReplyTo(lookup, request).fields;
             && Passwd.Complete(fields, gecos) && Passwd.Needed(fields, gecos) <= size
             && k < |fields| && Passwd.IsString(fields[k].ty, gecos) && Spelt(fields[k].entries[0], s)
    ensures var q, reply := Query(lookup, request), ReplyTo(lookup, request);
            && q.Answered? && q.status == reply.status
            && var o := Passwd.Pack(Payload(q.response), size, gecos, r, []);
               && o.Filled?
               && var p := Passwd.PointerOf(o.record, reply.fields[k].ty);
                  p.Some? && p.value + |s| < |o.bytes| <= size && CString(o.bytes[p.value..]) == s
  {
    hide Encodable, WithStatus, NoEmptyEntry, Query, Received, Passwd.Pack, Passwd.Complete, Passwd.Needed;
    var fields := ReplyTo(lookup, request).fields;
    var message := Delivered(lookup, request);
    Passwd.PackingExact(fields, size, gecos, r, []);
    Passwd.ResponsePacked(message, size, gecos, r, k);
    SpeltIs(fields[k].entries[0], s);
  }

  /** Likewise for the numbers. */
  lemma NumberDelivered(lookup: uint16 -> Option<Handler>, request: seq<Field>, size: nat, gecos: bool,
                        r: Passwd.Record, k: nat, n: uint32)
    requires Handled(lookup, request)
    requires var fields := ReplyTo(lookup, request).fields;
             && Passwd.Complete(fields, gecos) && Passwd.Needed(fields, gecos) <= size
             && k < |fields| && Passwd.IsNumber(fields[k].ty) && fields[k].entries[0] == Put32(n)
    ensures var q, reply := Query(lookup, request), ReplyTo(lookup, request);
            && q.Answered?
            && var o := Passwd.Pack(Payload(q.response), size, gecos, r, []);
               o.Filled? && Passwd.NumberOf(o.record, reply.fields[k].ty) == n
  {
    hide Query, Received, Passwd.Pack, Passwd.Needed, Encodable, WithStatus, Put32, Get32;
    var fields := ReplyTo(lookup, request).fields;
    var message := Delivered(lookup, request);
    Passwd.PackingExact(fields, size, gecos, r, []);
    Passwd.NumbersTaken(fields, size, gecos, r, [], k);
    Sum32(n);
  }

  /** When a handler sets alias fields that fit, the client's table points to each of the handler's
      member strings, in the buffer. */
  lemma MemberDelivered(lookup: uint16 -> Option<Handler>, request: seq<Field>, size: nat,
                        address: nat -> Aliases.Address, r: Aliases.Record, k: nat, i: nat, s: seq<byte>)
    requires Handled(lookup, request)
    requires var fields := ReplyTo(lookup, request).fields;
             && Aliases.Complete(fields) && Aliases.AllUnwrapped(fields) && Aliases.Needed(fields) <= size
             && k < |fields| && fields[k].ty == Aliases.MEMBERS && i < |fields[k].entries|
             && Spelt(fields[k].entries[i], s)
    ensures var q, reply := Query(lookup, request), ReplyTo(lookup, request);
            && q.Answered? && q.status == reply.status
            && var o := Aliases.Pack(Payload(q.response), size, address, r);
               && o.Filled? && o.record.members.Some? && o.record.count as int == |reply.fields[k].entries|
               && var slot := o.record.members.value + Aliases.ADDRESS_SIZE * i;
                  slot + Aliases.ADDRESS_SIZE <= |o.bytes| <= size
                  && PointsToString(o.bytes, slot, s, address)
  {
    hide Encodable, WithStatus, NoEmptyEntry, Query, Received, Aliases.PackFrom, Aliases.Complete,
         Aliases.AllUnwrapped, Aliases.Needed,
         Aliases.PointsTo, PointsToString, Aliases.SizeOf, Aliases.PlaceOf, Aliases.MemberPlace;
    var fields := ReplyTo(lookup, request).fields;
    var message := Delivered(lookup, request);
    Aliases.PackingExact(fields, size, address, r.(local := 0), []);
    Aliases.MembersPacked(message, size, address, r, k, i);
    SpeltIs(fields[k].entries[i], s);
    var slot := Aliases.PlaceOf(fields, k) + Aliases.ADDRESS_SIZE * i;
    var copy := Aliases.PlaceOf(fields, k) + Aliases.ADDRESS_SIZE * |fields[k].entries|
                + Aliases.MemberPlace(fields[k].entries, i);
    Pointed(Aliases.Pack(fields, size, address, r).bytes, slot, copy, fields[k].entries[i], s, address);
  }

  /** The terminated string `s` stands at `p`. */
  predicate StringAt(bytes: seq<byte>, p: nat, s: seq<byte>) {
    p + |s| < |bytes| && CString(bytes[p..]) == s
  }

  /** The pointer at `slot` is to the terminated string `s`. */
  ghost predicate PointsToString(bytes: seq<byte>, slot: nat, s: seq<byte>, address: nat -> Aliases.Address)
    requires slot + Aliases.ADDRESS_SIZE <= |bytes|
  {
    exists copy: nat :: StringAt(bytes, copy, s) && bytes[slot..slot + Aliases.ADDRESS_SIZE] == address(copy)
  }

  lemma Pointed(bytes: seq<byte>, slot: nat, copy: nat, d: Data, s: seq<byte>, address: nat -> Aliases.Address)
    requires Aliases.PointsTo(bytes, slot, copy, d, address) && Spelt(d, s) && CString(d[..|d| - 1]) == s
    ensures slot + Aliases.ADDRESS_SIZE <= |bytes| && PointsToString(bytes, slot, s, address)
  {
    assert StringAt(bytes, copy, s);
  }

  /** Likewise for the name. */
  lemma AliasNameDelivered(lookup: uint16 -> Option<Handler>, request: seq<Field>, size: nat,
                           address: nat -> Aliases.Address, r: Aliases.Record, k: nat, s: seq<byte>)
    requires Handled(lookup, request)
    requires var fields := ReplyTo(lookup, request).fields;
             && Aliases.Complete(fields) && Aliases.AllUnwrapped(fields) && Aliases.Needed(fields) <= size
             && k < |fields| && fields[k].ty == Aliases.NAME && Spelt(fields[k].entries[0], s)
    ensures var q := Query(lookup, request);
            && q.Answered?
            && var o := Aliases.Pack(Payload(q.response), size, address, r);
               o.Filled? && |o.bytes| <= size && o.record.name.Some? && StringAt(o.bytes, o.record.name.value, s)
  {
    hide Encodable, WithStatus, NoEmptyEntry, Query, Received, Aliases.PackFrom, Aliases.Complete,
         Aliases.AllUnwrapped, Aliases.Needed;
    var fields := ReplyTo(lookup, request).fields;
    var message := Delivered(lookup, request);
    Aliases.PackingExact(fields, size, address, r.(local := 0), []);
    Aliases.NamePacked(message, size, address, r, k);
    SpeltIs(fields[k].entries[0], s);
  }
}
