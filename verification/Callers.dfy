/**
  The name-service entry points: one question to the server, and the answer unpacked into the
  record and the buffer of the caller.
 */
module Callers {
  import opened Bytes
  import opened Wrappers
  import opened Codec
  import opened Merging
  import opened Packets
  import opened Registry
  import opened Service
  import opened Buffers
  import opened Delivery
  import Passwd
  import Aliases

  const SUCCESS: uint16 := 0
  const NOTFOUND: uint16 := 2

  /** NSS_STATUS_SUCCESS, NSS_STATUS_NOTFOUND, NSS_STATUS_UNAVAIL, or NSS_STATUS_TRYAGAIN with the
      error number; or the program has read or written where it must not. */
  datatype Verdict<E> = Success | NotFound | Unavailable | TryAgain(errno: E) | Gone

  /** The request with one field and one entry. */
  function Question(ty: uint16, d: Data): seq<Field> { [Field(ty, [d])] }

  /** What a passwd call makes of a status and a response: the verdict, and record and buffer
      afterwards, of which nothing is said if packing fails. */
  ghost predicate PasswdSettled(status: uint16, p: seq<Field>, gecos: bool, verdict: Verdict<Passwd.Errno>,
                                r: Passwd.Record, r': Passwd.Record, was: seq<byte>, now: seq<byte>) {
    if status == NOTFOUND then verdict == NotFound && r' == r && now == was
    else if status == UNAVAIL then verdict == Unavailable && r' == r && now == was
    else if status != SUCCESS then verdict == TryAgain(Passwd.EINVAL) && r' == r && now == was
    else
      match Passwd.Pack(Payload(p), |was|, gecos, r, [])
      case Filled(record, bytes) =>
        verdict == Success && r' == record && |bytes| <= |was| && now == bytes + was[|bytes|..]
      case TryAgain(e) => verdict == TryAgain(e)
  }

  /** Likewise for aliases, where packing can run past the table. */
  ghost predicate AliasSettled(status: uint16, p: seq<Field>, address: nat -> Aliases.Address,
                               verdict: Verdict<Aliases.Errno>, r: Aliases.Record, r': Aliases.Record,
                               was: seq<byte>, now: seq<byte>) {
    if status == NOTFOUND then verdict == NotFound && r' == r && now == was
    else if status == UNAVAIL then verdict == Unavailable && r' == r && now == was
    else if status != SUCCESS then verdict == TryAgain(Aliases.EINVAL) && r' == r && now == was
    else
      match Aliases.Pack(Payload(p), |was|, address, r)
      case Filled(record, bytes) =>
        verdict == Success && r' == record && |bytes| <= |was| && now == bytes + was[|bytes|..]
      case TryAgain(e) => verdict == TryAgain(e)
      case Overrun => verdict == Gone
  }

  // ---------- what a status means to the caller ----------

  /** Only with status 0 is anything unpacked. Status 2 is no such record, 3 no service, and any other
      a failure with EINVAL; record and buffer are then left alone. */
  lemma PasswdByStatus(status: uint16, p: seq<Field>, gecos: bool, verdict: Verdict<Passwd.Errno>,
                       r: Passwd.Record, r': Passwd.Record, was: seq<byte>, now: seq<byte>)
    requires PasswdSettled(status, p, gecos, verdict, r, r', was, now)
    ensures status == 2 ==> verdict == NotFound
    ensures status == 3 ==> verdict == Unavailable
    ensures status !in {0, 2, 3} ==> verdict == TryAgain(Passwd.EINVAL)
    ensures status != 0 ==> r' == r && now == was
    ensures status == 0 ==>
              var o := Passwd.Pack(if p == [] then [] else p[1..], |was|, gecos, r, []);
              && (o.Filled? ==>
                    verdict == Success && r' == o.record && |now| == |was| && o.bytes <= now
                    && forall i :: |o.bytes| <= i < |was| ==> now[i] == was[i])
              && (o.TryAgain? ==> verdict == TryAgain(o.errno))
  {
    hide Passwd.Pack;
  }

  lemma AliasByStatus(status: uint16, p: seq<Field>, address: nat -> Aliases.Address,
                      verdict: Verdict<Aliases.Errno>, r: Aliases.Record, r': Aliases.Record,
                      was: seq<byte>, now: seq<byte>)
    requires AliasSettled(status, p, address, verdict, r, r', was, now)
    ensures status == 2 ==> verdict == NotFound
    ensures status == 3 ==> verdict == Unavailable
    ensures status !in {0, 2, 3} ==> verdict == TryAgain(Aliases.EINVAL)
    ensures status != 0 ==> r' == r && now == was
    ensures status == 0 ==>
              var o := Aliases.Pack(if p == [] then [] else p[1..], |was|, address, r);
              && (o.Filled? ==>
                    verdict == Success && r' == o.record && |now| == |was| && o.bytes <= now
                    && forall i :: |o.bytes| <= i < |was| ==> now[i] == was[i])
              && (o.TryAgain? ==> verdict == TryAgain(o.errno))
              && (o.Overrun? ==> verdict == Gone)
  {
    hide Aliases.PackFrom;
  }

  /** The handler that a question reaches sees one field with one entry; if there is none, the status
      is that of no service. */
  lemma QuestionSeen(lookup: uint16 -> Option<Handler>, ty: uint16, d: Data)
    requires d != []
    ensures lookup(ty).Some? ==> ReplyTo(lookup, Question(ty, d)) == lookup(ty).value([Field(ty, [d])])
    ensures lookup(ty).None? ==> Query(lookup, Question(ty, d)).Answered? && Query(lookup, Question(ty, d)).status == 3
  {
    hide Query, Encodable, WithStatus, Put16;
    var p := Question(ty, d);
    assert [] + p == p;
    MergeDistinct([], p);
    QuestionFits(ty, d);
    if lookup(ty).None? { QueryUnavailable(lookup, p); }
  }

  lemma QuestionFits(ty: uint16, d: Data)
    ensures Encodable(Question(ty, d)) && (d != [] ==> NoEmptyEntry(Question(ty, d)))
  {
    hide EncodeFields;
    var p := Question(ty, d);
    EncodedLength(p);
    assert p[1..] == [] && p[0].entries[1..] == [];
    assert EntryCount(p) == 1 && DataSize(p[0].entries) == |d|;
    assert DataBytes(p) == |d|;
  }

  // ---------- what reaches the caller ----------

  /** The string at `p` of the packed bytes stands there in the whole buffer. */
  lemma StaysThere(bytes: seq<byte>, rest: seq<byte>, p: nat, s: seq<byte>)
    requires p + |s| < |bytes| && CString(bytes[p..]) == s
    ensures CString((bytes + rest)[p..]) == s
  {
    var x, y := bytes[p..], (bytes + rest)[p..];
    assert y == x + rest;
    assert End(x) == |s|;
    assert forall i :: 0 <= i <= |s| ==> y[i] == x[i];
    assert End(y) == |s|;
  }

  /** When the handler reports success and sets fields that fit the buffer, the call succeeds, and the
      record points to each of its strings, terminated and in the caller's buffer. */
  lemma PasswdReaches(lookup: uint16 -> Option<Handler>, request: seq<Field>, gecos: bool,
                      verdict: Verdict<Passwd.Errno>, r: Passwd.Record, r': Passwd.Record,
                      was: seq<byte>, now: seq<byte>, k: nat, s: seq<byte>)
    requires Handled(lookup, request) && ReplyTo(lookup, request).status == SUCCESS
    requires var q := Query(lookup, request);
             q.Answered? ==> PasswdSettled(q.status, q.response, gecos, verdict, r, r', was, now)
    requires var fields := ReplyTo(lookup, request).fields;
             && Passwd.Complete(fields, gecos) && Passwd.Needed(fields, gecos) <= |was|
             && k < |fields| && Passwd.IsString(fields[k].ty, gecos) && Spelt(fields[k].entries[0], s)
    ensures var p := Passwd.PointerOf(r', ReplyTo(lookup, request).fields[k].ty);
            verdict == Success && |now| == |was| && p.Some? && p.value + |s| < |now| && CString(now[p.value..]) == s
  {
    hide Encodable, WithStatus, NoEmptyEntry, Query, Passwd.Pack, Passwd.Complete, Passwd.Needed, Spelt, CString,
         Payload;
    PasswdDelivered(lookup, request, |was|, gecos, r, k, s);
    var o := Passwd.Pack(Payload(Query(lookup, request).response), |was|, gecos, r, []);
    var p := Passwd.PointerOf(o.record, ReplyTo(lookup, request).fields[k].ty).value;
    StaysThere(o.bytes, was[|o.bytes|..], p, s);
  }

  /** Likewise the table of the caller's alias record points to each member. */
  lemma MemberReaches(lookup: uint16 -> Option<Handler>, request: seq<Field>, address: nat -> Aliases.Address,
                      verdict: Verdict<Aliases.Errno>, r: Aliases.Record, r': Aliases.Record,
                      was: seq<byte>, now: seq<byte>, k: nat, i: nat, s: seq<byte>)
    requires Handled(lookup, request) && ReplyTo(lookup, request).status == SUCCESS
    requires var q := Query(lookup, request);
             q.Answered? ==> AliasSettled(q.status, q.response, address, verdict, r, r', was, now)
    requires var fields := ReplyTo(lookup, request).fields;
             && Aliases.Complete(fields) && Aliases.AllUnwrapped(fields) && Aliases.Needed(fields) <= |was|
             && k < |fields| && fields[k].ty == Aliases.MEMBERS && i < |fields[k].entries|
             && Spelt(fields[k].entries[i], s)
    ensures verdict == Success && |now| == |was| && r'.members.Some?
    ensures r'.count as int == |ReplyTo(lookup, request).fields[k].entries|
    ensures var slot := r'.members.value + Aliases.ADDRESS_SIZE * i;
            slot + Aliases.ADDRESS_SIZE <= |now| && PointsToString(now, slot, s, address)
  {
    hide Handled, Query, Aliases.PackFrom, Aliases.Complete, Aliases.AllUnwrapped, Aliases.Needed, Spelt, CString,
         Payload;
    MemberDelivered(lookup, request, |was|, address, r, k, i, s);
    var o := Aliases.Pack(Payload(Query(lookup, request).response), |was|, address, r);
    var slot := o.record.members.value + Aliases.ADDRESS_SIZE * i;
    var copy: nat :| StringAt(o.bytes, copy, s)
                     && o.bytes[slot..slot + Aliases.ADDRESS_SIZE] == address(copy);
    StaysThere(o.bytes, was[|o.bytes|..], copy, s);
    assert now[slot..slot + Aliases.ADDRESS_SIZE] == o.bytes[slot..slot + Aliases.ADDRESS_SIZE];
    assert StringAt(now, copy, s);
  }

  // ---------- the program ----------

  /** Asks the server one question. */
  method Ask(server: Server, ty: uint16, d: Data, serverSlack: seq<byte>, clientSlack: seq<byte>)
    returns (response: Packet, status: uint16, gone: bool)
    requires server.Valid() && d != [] && |serverSlack| >= 3 && |clientSlack| >= 3
    ensures fresh(response)
    ensures match Query(server.Table(), Question(ty, d))
            case Answered(s, p) =>
              !gone && status == s && response.Valid() && response.Model() == p && NoEmptyEntry(p)
            case NoAnswer => !gone && status == FAIL && response.Valid() && response.Model() == []
            case Partial(s, p) =>
              !gone && status == s && response.Valid() && response.Model() == p && NoEmptyEntry(p)
            case ServerUndefined => gone
            case ClientUndefined => gone
  {
    hide Packet.Valid, Packet.Model, Query, NoEmptyEntry;
    var request := new Packet();
    var added := request.Append(ty, |d|, Some(d), true, true);
    response := new Packet();
    assert d[..|d|] == d;
    assert request.Model() == Question(ty, d);
    ReceivedPlain(server.Table(), Question(ty, d));
    var ok;
    ok, status, gone := RunQuery(server, request, response, serverSlack, clientSlack);
  }

  lemma ReceivedPlain(lookup: uint16 -> Option<Handler>, request: seq<Field>)
    ensures var q := Query(lookup, request); q.Answered? || q.Partial? ==> NoEmptyEntry(q.response)
  {
    hide Reception, NoEmptyEntry, CountersFit;
    var a := Answer(lookup, Encode(request));
    if a.Replied? { PartIsPlain(a.message); }
  }

  /** `_nss_srvd_getpwnam_r` and `_nss_srvd_getpwuid_r`, which differ in the question: a name is sent as
      the LOGIN_NAME_MAX + 1 bytes found at it, a number as its four bytes. */
  method GetPasswd(server: Server, ty: uint16, d: Data, pwd: Passwd.PasswdEntry, buffer: array<byte>, gecos: bool,
                   serverSlack: seq<byte>, clientSlack: seq<byte>)
    returns (verdict: Verdict<Passwd.Errno>)
    requires server.Valid() && d != [] && |serverSlack| >= 3 && |clientSlack| >= 3
    modifies pwd, buffer
    ensures match Query(server.Table(), Question(ty, d))
            case Answered(s, p) =>
              PasswdSettled(s, p, gecos, verdict, old(pwd.Value()), pwd.Value(), old(buffer[..]), buffer[..])
            case Partial(s, p) =>
              PasswdSettled(s, p, gecos, verdict, old(pwd.Value()), pwd.Value(), old(buffer[..]), buffer[..])
            case NoAnswer =>
              PasswdSettled(FAIL, [], gecos, verdict, old(pwd.Value()), pwd.Value(), old(buffer[..]), buffer[..])
            case ServerUndefined => verdict == Gone
            case ClientUndefined => verdict == Gone
  {
    hide Packet.Valid, Packet.Model, Query, NoEmptyEntry, Passwd.Pack, Passwd.PasswdEntry.Value;
    var response, status, gone := Ask(server, ty, d, serverSlack, clientSlack);
    if gone { return Gone; }
    if status == NOTFOUND { return NotFound; }
    if status == UNAVAIL { return Unavailable; }
    if status != SUCCESS { return TryAgain(Passwd.EINVAL); }
    var errno := Passwd.Populate(response, pwd, buffer, gecos);
    verdict := if errno == None then Success else TryAgain(errno.value);
  }

  /** `_nss_srvd_getaliasbyname_r`. */
  method GetAlias(server: Server, ty: uint16, d: Data, ae: Aliases.AliasEntry, buffer: array<byte>,
                  address: nat -> Aliases.Address, serverSlack: seq<byte>, clientSlack: seq<byte>)
    returns (verdict: Verdict<Aliases.Errno>)
    requires server.Valid() && d != [] && |serverSlack| >= 3 && |clientSlack| >= 3
    modifies ae, buffer
    ensures match Query(server.Table(), Question(ty, d))
            case Answered(s, p) =>
              AliasSettled(s, p, address, verdict, old(ae.Value()), ae.Value(), old(buffer[..]), buffer[..])
            case Partial(s, p) =>
              AliasSettled(s, p, address, verdict, old(ae.Value()), ae.Value(), old(buffer[..]), buffer[..])
            case NoAnswer =>
              AliasSettled(FAIL, [], address, verdict, old(ae.Value()), ae.Value(), old(buffer[..]), buffer[..])
            case ServerUndefined => verdict == Gone
            case ClientUndefined => verdict == Gone
  {
    hide Packet.Valid, Packet.Model, Query, NoEmptyEntry, Aliases.PackFrom, Aliases.AliasEntry.Value;
    var response, status, gone := Ask(server, ty, d, serverSlack, clientSlack);
    if gone { return Gone; }
    if status == NOTFOUND { return NotFound; }
    if status == UNAVAIL { return Unavailable; }
    if status != SUCCESS { return TryAgain(Aliases.EINVAL); }
    var end := Aliases.Populate(response, ae, buffer, address);
    verdict := match end case Success => Success case Failure(e) => TryAgain(e) case PastTable => Gone;
  }
}
