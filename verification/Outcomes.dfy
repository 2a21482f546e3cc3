/**
  What a query ends with, for every request, handler and response, whatever their sizes.
 */
module Outcomes {
  import opened Bytes
  import opened Wrappers
  import opened Codec
  import opened Merging
  import opened Readings
  import opened Registry
  import opened Service
  import opened Messages

  // ---------- the response and its status ----------

  lemma {:induction false} NoNewType(seen: set<uint16>, wire: seq<Field>, t: uint16)
    requires forall i :: 0 <= i < |wire| ==> wire[i].ty != t
    ensures t !in NewTypes(seen, wire)
    decreases |wire|
  {
    if wire != [] { NoNewType(if wire[0].ty in seen then seen else seen + {wire[0].ty}, wire[1..], t); }
  }

  /** A type is in the merged packet exactly if it is on the wire. */
  lemma TypeMerged(fields: seq<Field>, t: uint16)
    ensures IndexOf(Merge([], fields), t) < |Merge([], fields)| <==>
              exists i :: 0 <= i < |fields| && fields[i].ty == t
  {
    hide Merge, NewTypes;
    if i :| 0 <= i < |fields| && fields[i].ty == t {
      TypeThere([], fields, fields[i]);
    } else {
      NoNewType({}, fields, t);
      MergeTypes([], fields);
      assert TypeSet([]) == {};
      assert Types(Merge([], fields)) == NewTypes({}, fields);
      NotAmong(Merge([], fields), t);
    }
  }

  lemma NotAmong(p: seq<Field>, t: uint16)
    requires t !in Types(p)
    ensures IndexOf(p, t) == |p|
  {
    assert forall j :: 0 <= j < |p| ==> p[j].ty == Types(p)[j];
  }

  /** The response to a handler's reply: the status as two bytes under the reserved type 65535, in
      front of the fields merged by type; or these alone if the handler has used that type. */
  lemma ResponseIs(h: Handler, request: seq<Field>)
    ensures var Reply(fields, status) := h(request);
            Response(Some(h), request) ==
              if exists i :: 0 <= i < |fields| && fields[i].ty == 65535 then Merge([], fields)
              else [Field(65535, [[status / 256, status % 256]])] + Merge([], fields)
  {
    hide Merge, IndexOf;
    TypeMerged(h(request).fields, 65535);
  }

  /** A request that no handler is registered for is answered with these sixteen bytes: version 110,
      one field, eight bytes; type 65535, one entry; two bytes, status 3. */
  lemma UnavailableSent(lookup: uint16 -> Option<Handler>, m: seq<byte>, p: seq<Field>)
    requires Carries(m, p) && p != [] && lookup(p[0].ty).None?
    ensures Answer(lookup, m) == Replied([0, 110, 0, 1, 0, 0, 0, 8, 255, 255, 0, 1, 0, 2, 0, 3])
  {
    hide Carries, Encode, CountersFit, EncodeFields;
    var w := [Field(65535, [[0, 3]])];
    assert Response(None, Merge([], p)) == w;
    Small(w);
    SmallSent(w);
    AnsweredExactly(lookup, m, Encode(w));
  }

  lemma SmallSent(w: seq<Field>)
    requires w == [Field(65535, [[0, 3]])]
    ensures Encode(w) == [0, 110, 0, 1, 0, 0, 0, 8, 255, 255, 0, 1, 0, 2, 0, 3]
  {
    var es := w[0].entries;
    assert w[1..] == [] && es[1..] == [] && |es[0]| == 2;
    assert EncodeEntry(es[0]) == [0, 2, 0, 3];
    assert EncodeEntries(es) == [0, 2, 0, 3];
    assert EncodeField(w[0]) == [255, 255, 0, 1, 0, 2, 0, 3];
    assert EncodeFields(w) == [255, 255, 0, 1, 0, 2, 0, 3];
    assert EncodeHeader(1, 8) == [0, 110, 0, 1, 0, 0, 0, 8];
  }

  /** The status a client takes from a response: 1 if there is no field or the first one has no
      entry; the number in its first entry if that has two bytes; else 65535, as before the query. */
  lemma StatusRead(p: seq<Field>)
    ensures p == [] ==> StatusOf(p) == 1
    ensures p != [] && p[0].entries == [] ==> StatusOf(p) == 1
    ensures p != [] && p[0].entries != [] && |p[0].entries[0]| == 2 ==> StatusOf(p) == Two(p[0].entries[0], 0)
    ensures p != [] && p[0].entries != [] && |p[0].entries[0]| != 2 ==> StatusOf(p) == 65535
  {
    if p != [] && p[0].entries != [] && |p[0].entries[0]| == 2 { TwoIs(p[0].entries[0], 0); }
  }

  // ---------- messages whose size word has wrapped ----------

  lemma {:induction false} EncodePrefix(p: seq<Field>, k: nat)
    requires k <= |p|
    ensures EncodeFields(p) == EncodeFields(p[..k]) + EncodeFields(p[k..])
  {
    hide EncodeField;
    if k == 0 {
      assert p[..0] == [] && p[0..] == p;
    } else {
      assert p[..k][1..] == p[1..][..k - 1] && p[1..][k - 1..] == p[k..];
      EncodePrefix(p[1..], k - 1);
    }
  }

  lemma {:induction false} CountersOfPrefix(p: seq<Field>, k: nat)
    requires k <= |p| && EntryCountersFit(p)
    ensures EntryCountersFit(p[..k])
  {
    var q := p[..k];
    assert forall i :: 0 <= i < |q| ==> q[i] == p[i];
  }

  /** Fields that the same bytes begin with are the same fields. */
  lemma PrefixFree(p: seq<Field>, q: seq<Field>)
    requires EntryCountersFit(p) && EntryCountersFit(q) && NoEmptyEntry(q) && |q| <= |p|
    requires EncodeFields(q) <= EncodeFields(p)
    ensures q == p[..|q|]
  {
    hide EncodeFields, EntryCountersFit, NoEmptyEntry, ParseFields;
    var size, s := |EncodeFields(p)|, p[..|q|];
    var b := EncodeFields(p) + [0, 0, 0];
    EncodePrefix(p, |q|);
    CountersOfPrefix(p, |q|);
    assert b[..|EncodeFields(q)|] == EncodeFields(q);
    assert b[..|EncodeFields(s)|] == EncodeFields(s);
    FieldsAccepted(b, size, 0, q);
    FieldsAccepted(b, size, 0, s);
  }

  /** The message for a packet whose counters have not wrapped, whatever its size. */
  lemma MessageIs(p: seq<Field>)
    requires CountersFit(p)
    ensures var m := Encode(p);
            |m| >= 8 && Two(m, 2) == |p| && m[8..] == EncodeFields(p) && Four(m, 4) == Low32(|EncodeFields(p)|)
  {
    hide EncodeFields, DecodeHeader, Low32, Put16, Put32;
    var m, size, body := Encode(p), Low32(|EncodeFields(p)|), EncodeFields(p);
    var header := EncodeHeader(|p|, size);
    Low16Holds(|p|);
    HeaderInverse(header, |p|, size);
    HeaderPrefix(header, body);
    HeaderRead(m);
  }

  lemma CarriedBegins(m: seq<byte>, q: seq<Field>)
    requires Carries(m, q) || StopsBehind(m, q)
    ensures var n := |EncodeFields(q)|;
            && |m| >= 8 && n <= Four(m, 4) && n <= |m| - 8 && m[8..][..n] == EncodeFields(q)
            && EntryCountersFit(q) && NoEmptyEntry(q)
            && (Carries(m, q) ==> |q| == Two(m, 2)) && (StopsBehind(m, q) ==> |q| < Two(m, 2))
  {
    hide EncodeFields, EntryCountersFit, NoEmptyEntry;
  }

  /** What such a message carries, or carries before it stops short, is what the packet begins with. */
  lemma CarriedPrefix(p: seq<Field>, q: seq<Field>)
    requires CountersFit(p) && (Carries(Encode(p), q) || StopsBehind(Encode(p), q))
    ensures |q| <= |p| && q == p[..|q|] && NoEmptyEntry(q)
    ensures Carries(Encode(p), q) ==> |q| == |p|
    ensures StopsBehind(Encode(p), q) ==> |q| < |p|
    ensures |EncodeFields(q)| <= Low32(|EncodeFields(p)|)
  {
    hide EncodeFields, Encode, EntryCountersFit, NoEmptyEntry, Carries, StopsBehind, Low32;
    MessageIs(p);
    CarriedBegins(Encode(p), q);
    PrefixFree(p, q);
  }

  /** A packet that is too long for the size word is never received. */
  lemma OversizedIsNot(p: seq<Field>, q: seq<Field>)
    requires CountersFit(p) && !SizeFits(p)
    ensures !Reception(q, Encode(p), Always).Accepted?
  {
    hide Carries, Encode, EncodeFields, Merge, Reception, CountersFit;
    var r := Reception(q, Encode(p), Always);
    if r.Accepted? {
      ReceivedExactly(q, Encode(p), r.p);
      var s :| Carries(Encode(p), s) && r.p == Merge(q, s);
      assert p[..|p|] == p;
      CarriedPrefix(p, s);
    }
  }

  /** Of a packet with distinct types that is refused, some leading fields have been read. */
  lemma CutShort(p: seq<Field>)
    requires CountersFit(p) && DistinctTypes(p) && Reception([], Encode(p), Always).Refused?
    ensures var r := Reception([], Encode(p), Always).p; r <= p && (p != [] ==> r != p)
  {
    hide StopsBehind, Encode, EncodeFields, Merge, Reception, CountersFit, Unreadable, DistinctTypes, NoEmptyEntry;
    var r := Reception([], Encode(p), Always).p;
    RefusedExactlyBy([], Encode(p), r);
    if !Unreadable(Encode(p)) {
      var s :| StopsBehind(Encode(p), s) && r == Merge([], s);
      CarriedPrefix(p, s);
      PrefixMerged(p, |s|);
    }
  }

  lemma PrefixMerged(p: seq<Field>, k: nat)
    requires DistinctTypes(p) && k <= |p|
    ensures Merge([], p[..k]) == p[..k]
  {
    var s := p[..k];
    assert [] + s == s && forall i :: 0 <= i < |s| ==> s[i] == p[i];
    MergeDistinct([], s);
  }

  // ---------- queries ----------

  /** A query is answered exactly if the request has a field, request and response can be carried by
      a message, and neither holds an empty entry; then the client has the response, and its status. */
  lemma AnsweredOnly(lookup: uint16 -> Option<Handler>, request: seq<Field>, status: uint16, r: seq<Field>)
    ensures Query(lookup, request) == Answered(status, r) <==>
              && request != [] && Encodable(request) && NoEmptyEntry(request)
              && r == Response(lookup(request[0].ty), Merge([], request))
              && Encodable(r) && NoEmptyEntry(r) && status == StatusOf(r)
  {
    hide Encode, EncodeFields, Merge, Reception, CountersFit, Response, StatusOf, NoEmptyEntry;
    if CountersFit(request) {
      if !SizeFits(request) {
        OversizedIsNot(request, []);
      } else if request != [] {
        var p := Response(lookup(request[0].ty), Merge([], request));
        if SizeFits(p) {
          QueryExact(lookup, request);
        } else {
          if CountersFit(p) { OversizedIsNot(p, []); }
          ReceiveSent([], request);
          FirstTypeKept(request);
        }
      } else {
        ReceiveSent([], request);
        NothingMerged();
      }
    }
  }

  /** A response cut short leaves the client with the first fields of the response and the same
      status, or with none and status 1. It happens only if the size word has wrapped. */
  lemma PartialOnly(lookup: uint16 -> Option<Handler>, request: seq<Field>)
    requires Query(lookup, request).Partial?
    ensures request != [] && Encodable(request)
    ensures var Partial(status, r) := Query(lookup, request);
            var p := Response(lookup(request[0].ty), Merge([], request));
            CountersFit(p) && !SizeFits(p) && r < p && status == if r == [] then 1 else StatusOf(p)
  {
    hide Encode, EncodeFields, Merge, Reception, CountersFit, Response, NoEmptyEntry, SizeFits;
    if !SizeFits(request) {
      OversizedIsNot(request, []);
    } else {
      ReceiveSent([], request);
      if request == [] { NothingMerged(); } else {
        FirstTypeKept(request);
        var handler, seen := lookup(request[0].ty), Merge([], request);
        ResponseIsDistinct(handler, seen);
        var p := Response(handler, seen);
        CutShort(p);
        NothingIsSmall();
        if SizeFits(p) { ArrivesUnchanged(p); }
      }
    }
  }

  /** There is no answer exactly if the request is empty, or too long for the size word and refused. */
  lemma NoAnswerOnly(lookup: uint16 -> Option<Handler>, request: seq<Field>)
    ensures Query(lookup, request).NoAnswer? <==>
              && CountersFit(request)
              && (request == [] || (!SizeFits(request) && Reception([], Encode(request), Always).Refused?))
  {
    hide Encode, EncodeFields, Merge, Reception, CountersFit, Response, NoEmptyEntry;
    if CountersFit(request) {
      if SizeFits(request) {
        ReceiveSent([], request);
        if request == [] { NothingMerged(); NoEmptyNil(); } else { FirstTypeKept(request); }
      } else {
        OversizedIsNot(request, []);
        NothingIsSmall();
      }
    }
  }

  lemma NothingIsSmall()
    ensures SizeFits([])
  {
  }
}
