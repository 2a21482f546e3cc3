/**
  Messages byte by byte: where every number and every entry of a packet stands on the wire, which
  messages are received, and what is answered to each. Numbers are written out digit by digit, the
  highest first.
 */
module Messages {
  import opened Bytes
  import opened Wrappers
  import opened Codec
  import opened Merging
  import opened Packets
  import opened Readings
  import opened Registry
  import opened Service

  /** The number in the two bytes at `i`. */
  function Two(m: seq<byte>, i: nat): int
    requires i + 2 <= |m|
  {
    256 * m[i] as int + m[i + 1] as int
  }

  /** The number in the four bytes at `i`. */
  function Four(m: seq<byte>, i: nat): int
    requires i + 4 <= |m|
  {
    16777216 * m[i] as int + 65536 * m[i + 1] as int + 256 * m[i + 2] as int + m[i + 3] as int
  }

  lemma TwoIs(m: seq<byte>, i: nat)
    requires i + 2 <= |m|
    ensures Get16(m, i) == Two(m, i)
  {
  }

  lemma FourIs(m: seq<byte>, i: nat)
    requires i + 4 <= |m|
    ensures Get32(m, i) == Four(m, i)
  {
  }

  // ---------- what is sent ----------

  /** The header of a message: version 110, the number of fields, and the size of what follows. */
  lemma HeaderSent(p: seq<Field>)
    requires Encodable(p)
    ensures var m := Encode(p);
            && |m| >= 8 && m[0] == 0 && m[1] == 110
            && Two(m, 2) == |p| && Four(m, 4) == |m| - 8 == 4 * |p| + 2 * EntryCount(p) + DataBytes(p)
  {
    hide EncodeFields, EncodeHeader, DecodeHeader;
    var header, body := EncodeHeader(|p|, |EncodeFields(p)|), EncodeFields(p);
    EncodeIs(p);
    EncodedLength(p);
    HeaderPrefix(header, body);
    HeaderInverse(header, |p|, |body|);
    HeaderRead(header + body);
  }

  /** What the decoder takes from a header. */
  lemma HeaderRead(m: seq<byte>)
    requires |m| >= 8
    ensures DecodeHeader(m) == if m[0] == 0 && m[1] == 110 then Some(Header(Two(m, 2), Four(m, 4))) else None
  {
    TwoIs(m, 0);
    TwoIs(m, 2);
    FourIs(m, 4);
  }

  lemma {:induction false} FieldsSplit(p: seq<Field>, k: nat)
    requires k < |p|
    ensures EncodeFields(p) == EncodeFields(p[..k]) + (EncodeField(p[k]) + EncodeFields(p[k + 1..]))
  {
    hide EncodeField;
    if k == 0 {
      assert p[..0] == [];
    } else {
      assert p[..k][1..] == p[1..][..k - 1] && p[1..][k..] == p[k + 1..];
      FieldsSplit(p[1..], k - 1);
    }
  }

  lemma {:induction false} EntriesSplit(es: seq<Data>, i: nat)
    requires i < |es|
    ensures EncodeEntries(es) == EncodeEntries(es[..i]) + (EncodeEntry(es[i]) + EncodeEntries(es[i + 1..]))
  {
    hide EncodeEntry;
    if i == 0 {
      assert es[..0] == [];
    } else {
      assert es[..i][1..] == es[1..][..i - 1] && es[1..][i..] == es[i + 1..];
      EntriesSplit(es[1..], i - 1);
    }
  }

  /** Where field `k` starts on the wire. */
  function FieldPlace(p: seq<Field>, k: nat): nat
    requires k <= |p|
  {
    8 + 4 * k + 2 * EntryCount(p[..k]) + DataBytes(p[..k])
  }

  /** Where entry `i` of field `k` starts. */
  function EntryPlace(p: seq<Field>, k: nat, i: nat): nat
    requires k < |p| && i <= |p[k].entries|
  {
    FieldPlace(p, k) + 4 + 2 * i + DataSize(p[k].entries[..i])
  }

  /** Field `k` stands at its place: its type and the number of its entries. */
  lemma FieldSent(p: seq<Field>, k: nat)
    requires Encodable(p) && k < |p|
    ensures var m, at := Encode(p), FieldPlace(p, k);
            at + 4 <= |m| && Two(m, at) == p[k].ty && Two(m, at + 2) == |p[k].entries|
  {
    hide EncodeFields, EncodeHeader, EncodeEntries, Put16, EncodeField;
    var m, at, f, es := Encode(p), FieldPlace(p, k), EncodeField(p[k]), EncodeEntries(p[k].entries);
    FieldStands(p, k);
    assert EntryCountersFit(p) && |p[k].entries| < 0x1_0000;
    FieldText(p[k]);
    Spells(m, at, Put16(p[k].ty) + Put16(|p[k].entries|), es);
    Spells(m, at, Put16(p[k].ty), Put16(|p[k].entries|));
    Get16At(m, at, p[k].ty);
    Get16At(m, at + 2, |p[k].entries|);
    TwoIs(m, at);
    TwoIs(m, at + 2);
  }

  lemma FieldStands(p: seq<Field>, k: nat)
    requires Encodable(p) && k < |p|
    ensures var m, at, f := Encode(p), FieldPlace(p, k), EncodeField(p[k]);
            at + |f| <= |m| && m[at..at + |f|] == f
  {
    hide EncodeFields, EncodeHeader, EncodeField, EntryCount, DataBytes;
    var header, f := EncodeHeader(|p|, |EncodeFields(p)|), EncodeField(p[k]);
    var before, after := EncodeFields(p[..k]), EncodeFields(p[k + 1..]);
    EncodeIs(p);
    FieldsSplit(p, k);
    EncodedLength(p[..k]);
    Assoc(header, before, f + after);
    Amid(header + before, f, after);
  }

  lemma Amid(before: seq<byte>, s: seq<byte>, after: seq<byte>)
    ensures (before + (s + after))[|before|..|before| + |s|] == s
  {
  }

  /** Every entry stands at its place: its size, and its bytes behind it. */
  lemma EntrySent(p: seq<Field>, k: nat, i: nat)
    requires Encodable(p) && k < |p| && i < |p[k].entries|
    ensures var m, at, d := Encode(p), EntryPlace(p, k, i), p[k].entries[i];
            at + 2 + |d| <= |m| && Two(m, at) == |d| && m[at + 2..at + 2 + |d|] == d
  {
    hide EncodeFields, EncodeHeader, EncodeEntries, EncodeEntry, Encode, Put16, EncodeField, FieldPlace, DataSize;
    var m, at, f, es, d := Encode(p), FieldPlace(p, k), EncodeField(p[k]), p[k].entries, p[k].entries[i];
    FieldStands(p, k);
    assert EntryCountersFit(p) && |es| < 0x1_0000;
    FieldText(p[k]);
    Spells(m, at, Put16(p[k].ty) + Put16(|es|), EncodeEntries(es));
    EntriesSplit(es, i);
    EntriesSize(es[..i]);
    Spells(m, at + 4, EncodeEntries(es[..i]), EncodeEntry(d) + EncodeEntries(es[i + 1..]));
    Spells(m, EntryPlace(p, k, i), EncodeEntry(d), EncodeEntries(es[i + 1..]));
    EntryText(d);
    Spells(m, EntryPlace(p, k, i), Put16(|d|), d);
    Get16At(m, EntryPlace(p, k, i), |d|);
    TwoIs(m, EntryPlace(p, k, i));
  }

  lemma EntryText(d: Data)
    ensures EncodeEntry(d) == Put16(|d|) + d
  {
  }

  // ---------- what is received ----------

  /** The message is complete and carries the fields `p`, all acceptable: a header of version 110
      with their number and a size within which they fit, and then their bytes. */
  ghost predicate Carries(m: seq<byte>, p: seq<Field>) {
    && |m| >= 8 && m[0] == 0 && m[1] == 110 && Two(m, 2) == |p|
    && |EncodeFields(p)| <= Four(m, 4) <= |m| - 8
    && m[8..8 + |EncodeFields(p)|] == EncodeFields(p)
    && EntryCountersFit(p) && NoEmptyEntry(p)
  }

  lemma {:induction false} AlwaysGranted(q: seq<Field>, p: seq<Field>, tick: nat)
    ensures Granted(q, p, Always, tick)
    decreases |p|
  {
    hide Absorb;
    if p != [] { AlwaysGranted(Absorb(q, p[0]), p[1..], tick + 1 + |p[0].entries|); }
  }

  /** The body of a message and what lies behind it in memory. */
  function Body(m: seq<byte>): seq<byte>
    requires |m| >= 8 && Four(m, 4) <= |m| - 8
  {
    m[8..8 + Four(m, 4)] + [0, 0, 0]
  }

  /** Reading goes on to the body exactly if the version is right and the message is complete. */
  lemma HeaderDecides(q: seq<Field>, m: seq<byte>, memory: nat -> bool)
    ensures Reception(q, m, memory) ==
              if |m| >= 8 && m[0] == 0 && m[1] == 110 && Four(m, 4) <= |m| - 8
              then ReadBody(q, Body(m), Four(m, 4), Two(m, 2), memory)
              else Refused(q)
  {
    hide ReadBody;
    if |m| >= 8 { HeaderRead(m); }
  }

  lemma CarriesIs(m: seq<byte>, p: seq<Field>, q: seq<Field>)
    requires |m| >= 8 && m[0] == 0 && m[1] == 110 && Four(m, 4) <= |m| - 8
    ensures Carries(m, p) <==> Two(m, 2) == |p| && Reads(q, Body(m), Four(m, 4), 0, Always, 0, p)
  {
    hide EncodeFields, EntryCountersFit, NoEmptyEntry;
    AlwaysGranted(q, p, 0);
    var b, n := Body(m), |EncodeFields(p)|;
    if n <= Four(m, 4) { assert b[..n] == m[8..8 + n]; }
  }

  /** A message is received exactly if it carries some fields; they are merged into the packet it is
      read onto. */
  lemma ReceivedExactly(q: seq<Field>, m: seq<byte>, r: seq<Field>)
    ensures Received(q, m) == Some(r) <==> exists p :: Carries(m, p) && r == Merge(q, p)
  {
    hide ReadFrom, Reads, Merge, Carries;
    HeaderDecides(q, m, Always);
    if |m| >= 8 && m[0] == 0 && m[1] == 110 && Four(m, 4) <= |m| - 8 {
      var b, size, n := Body(m), Four(m, 4), Two(m, 2);
      BodyAccepted(q, b, size, n, Always, r);
      forall p
        ensures Carries(m, p) <==> n == |p| && Reads(q, b, size, 0, Always, 0, p)
      {
        CarriesIs(m, p, q);
      }
    } else {
      forall p
        ensures !Carries(m, p)
      {
        CarriedWhole(m, p);
      }
    }
  }

  lemma CarriedWhole(m: seq<byte>, p: seq<Field>)
    ensures Carries(m, p) ==> |m| >= 8 && m[0] == 0 && m[1] == 110 && Four(m, 4) <= |m| - 8
  {
  }

  /** For a whole body: accepted exactly if it spells `n` acceptable fields and all is granted. The
      first check, of the number of fields against the size, refuses none of these. */
  lemma BodyAccepted(q: seq<Field>, b: seq<byte>, size: nat, n: nat, memory: nat -> bool, r: seq<Field>)
    requires size + 3 <= |b|
    ensures ReadBody(q, b, size, n, memory) == Accepted(r) <==>
              exists p :: |p| == n && Reads(q, b, size, 0, memory, 0, p) && r == Merge(q, p)
  {
    hide ReadFrom, Granted, Merge, EntryCountersFit, NoEmptyEntry, EncodeFields;
    AcceptedExactly(q, b, size, 0, n, memory, 0, r);
    if p :| |p| == n && Reads(q, b, size, 0, memory, 0, p) && r == Merge(q, p) { EncodedLength(p); }
  }

  /** A header is refused exactly if what is left of the body cannot hold it and the sizes of its
      entries, or if its type is not in the packet and a field for it cannot be had. */
  lemma HeaderRefusedExactly(q: seq<Field>, b: seq<byte>, size: nat, pos: nat, memory: bool)
    requires pos <= size && size + 3 <= |b|
    ensures pos + 4 <= |b| ==>
              (HeaderRefused(q, b, size, pos, memory) <==>
                 || size - pos < 4 + 2 * Two(b, pos + 2)
                 || (!memory && forall i :: 0 <= i < |q| ==> q[i].ty != Two(b, pos)))
    ensures pos + 4 > |b| ==> HeaderRefused(q, b, size, pos, memory)
  {
    if pos + 4 <= |b| {
      TwoIs(b, pos);
      TwoIs(b, pos + 2);
    }
  }

  /** A whole body is refused by its first check, with nothing read, or by a header. */
  lemma BodyRefused(q: seq<Field>, b: seq<byte>, size: nat, n: nat, memory: nat -> bool, r: seq<Field>)
    requires size + 3 <= |b|
    ensures ReadBody(q, b, size, n, memory) == Refused(r) <==>
              if size < 4 * n then r == q
              else exists p :: StopsAfter(q, b, size, 0, n, memory, 0, p) && r == Merge(q, p)
  {
    hide ReadFrom, StopsAfter, Merge;
    RefusedExactly(q, b, size, 0, n, memory, 0, r);
  }

  /** It leaves a freed field linked exactly if it passes the first check and an entry breaks it. */
  lemma BodyDangles(q: seq<Field>, b: seq<byte>, size: nat, n: nat, memory: nat -> bool)
    requires size + 3 <= |b|
    ensures ReadBody(q, b, size, n, memory).Dangling? <==> size >= 4 * n && Dangles(q, b, size, 0, n, memory, 0)
  {
    hide ReadFrom, Dangles;
    DanglesExactly(q, b, size, 0, n, memory, 0);
  }

  /** The message is complete and long enough for the fields announced, and carries some of them,
      the fields `p`; behind them there is less than the next field needs for its header and the
      sizes of its entries. */
  ghost predicate StopsBehind(m: seq<byte>, p: seq<Field>) {
    && |m| >= 8 && m[0] == 0 && m[1] == 110 && |p| < Two(m, 2) && 4 * Two(m, 2) <= Four(m, 4) <= |m| - 8
    && |EncodeFields(p)| <= Four(m, 4)
    && m[8..8 + |EncodeFields(p)|] == EncodeFields(p)
    && EntryCountersFit(p) && NoEmptyEntry(p)
    && var at := 8 + |EncodeFields(p)|;
       var left := Four(m, 4) - |EncodeFields(p)|;
       left < 4 || left < 4 + 2 * Two(m, at + 2)
  }

  /** Nothing of the message is read: it is incomplete, of another version, or its size cannot hold
      the headers of the fields announced. */
  predicate Unreadable(m: seq<byte>) {
    !(|m| >= 8 && m[0] == 0 && m[1] == 110 && 4 * Two(m, 2) <= Four(m, 4) <= |m| - 8)
  }

  lemma StopsIs(m: seq<byte>, p: seq<Field>, q: seq<Field>)
    requires !Unreadable(m)
    ensures StopsBehind(m, p) <==> StopsAfter(q, Body(m), Four(m, 4), 0, Two(m, 2), Always, 0, p)
  {
    hide EncodeFields, EntryCountersFit, NoEmptyEntry, HeaderRefused;
    AlwaysGranted(q, p, 0);
    var b, n, size := Body(m), |EncodeFields(p)|, Four(m, 4);
    if n <= size {
      assert b[..n] == m[8..8 + n];
      HeaderRefusedExactly(Merge(q, p), b, size, n, true);
      if n + 4 <= size { assert b[n + 2] == m[8 + n + 2] && b[n + 3] == m[8 + n + 3]; }
    }
  }

  /** A message is refused, with some of its fields merged into the packet it is read onto, exactly
      if nothing of it can be read, or a field behind these does not fit. */
  lemma RefusedExactlyBy(q: seq<Field>, m: seq<byte>, r: seq<Field>)
    ensures Reception(q, m, Always) == Refused(r) <==>
              if Unreadable(m) then r == q else exists p :: StopsBehind(m, p) && r == Merge(q, p)
  {
    hide ReadBody, StopsAfter, StopsBehind, Merge;
    HeaderDecides(q, m, Always);
    if |m| >= 8 && m[0] == 0 && m[1] == 110 && Four(m, 4) <= |m| - 8 {
      var b, size, n := Body(m), Four(m, 4), Two(m, 2);
      BodyRefused(q, b, size, n, Always, r);
      if !Unreadable(m) {
        forall p
          ensures StopsBehind(m, p) <==> StopsAfter(q, b, size, 0, n, Always, 0, p)
        {
          StopsIs(m, p, q);
        }
      }
    }
  }

  // ---------- what is answered ----------

  /** The request that a handler sees, of a message that carries `p`: `p` merged by type. If there is
      a first field the message is answered with the response for it, and only then is anything
      answered at all. */
  lemma AnsweredExactly(lookup: uint16 -> Option<Handler>, m: seq<byte>, reply: seq<byte>)
    ensures Answer(lookup, m) == Replied(reply) <==>
              exists p: seq<Field> :: Carries(m, p) && p != []
                && var r := Response(lookup(p[0].ty), Merge([], p)); CountersFit(r) && reply == Encode(r)
  {
    hide Carries, Reception, Response, Merge, Encode, CountersFit;
    forall p: seq<Field> | Carries(m, p)
      ensures Reception([], m, Always) == Accepted(Merge([], p))
      ensures if p == [] then Merge([], p) == [] else Merge([], p) != [] && Merge([], p)[0].ty == p[0].ty
    {
      ReceivedExactly([], m, Merge([], p));
      if p == [] { NothingMerged(); } else { FirstTypeKept(p); }
    }
    if Received([], m).Some? { ReceivedExactly([], m, Received([], m).value); }
  }

  lemma NothingMerged()
    ensures Merge([], []) == []
  {
  }

  /** The connection is closed without an answer exactly for a message that cannot be read, or stops
      short of the fields announced, or carries none. */
  lemma SilentExactly(lookup: uint16 -> Option<Handler>, m: seq<byte>)
    ensures Answer(lookup, m).Silent? <==> Unreadable(m) || Carries(m, []) || exists p :: StopsBehind(m, p)
  {
    hide Carries, Reception, Response, Merge, Encode, CountersFit, StopsBehind, Unreadable;
    var e := Reception([], m, Always);
    match e {
      case Refused(r) =>
        RefusedExactlyBy([], m, r);
      case Accepted(r) =>
        ReceivedExactly([], m, r);
        var p :| Carries(m, p) && r == Merge([], p);
        if p == [] { NothingMerged(); } else { FirstTypeKept(p); }
      case Dangling =>
    }
    StoppedIsRefused([], m);
    if Carries(m, []) { ReceivedExactly([], m, Merge([], [])); NothingMerged(); }
  }

  lemma StoppedIsRefused(q: seq<Field>, m: seq<byte>)
    ensures (Unreadable(m) || exists p :: StopsBehind(m, p)) ==> Reception(q, m, Always).Refused?
  {
    hide Reception, Merge;
    if Unreadable(m) {
      RefusedExactlyBy(q, m, q);
    } else if p :| StopsBehind(m, p) {
      RefusedExactlyBy(q, m, Merge(q, p));
    }
  }
}
