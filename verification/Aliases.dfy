/**
  Filling a `struct aliasent` from a response: the name, a table of member pointers and the member
  strings share the caller's buffer. Pointers are 8 bytes wide; `address` gives the bytes of the
  pointer to an offset of the buffer.
 */
module Aliases {
  import opened Bytes
  import opened Wrappers
  import opened Codec
  import opened Merging
  import opened Packets
  import opened Serialization
  import opened Service
  import opened Buffers

  const NAME: uint16 := 151
  const MEMBERS: uint16 := 152
  const LOCAL: uint16 := 153
  const ADDRESS_SIZE := 8

  type Address = s: seq<byte> | |s| == ADDRESS_SIZE witness [0, 0, 0, 0, 0, 0, 0, 0]

  /** No pointer is None: what the caller left there. */
  datatype Record = Record(name: Option<nat>, members: Option<nat>, count: uint16, local: byte)

  datatype Errno = EINVAL | ERANGE

  /** How populating ends: with NSS_STATUS_SUCCESS, with NSS_STATUS_TRYAGAIN, or with a pointer
      stored behind the end of the table, after which anything can have happened. */
  datatype Ending = Success | Failure(errno: Errno) | PastTable

  /** The same with the record and the bytes packed. */
  datatype Outcome = Filled(record: Record, bytes: seq<byte>) | TryAgain(errno: Errno) | Overrun

  /** The pointers to strings that follow one another from `at` on. */
  function Table(entries: seq<Data>, at: nat, address: nat -> Address): (r: seq<byte>)
    ensures |r| == ADDRESS_SIZE * |entries|
  {
    if entries == [] then [] else address(at) + Table(entries[1..], at + |entries[0]|, address)
  }

  function Strings(entries: seq<Data>): seq<byte> {
    if entries == [] then [] else Stored(entries[0]) + Strings(entries[1..])
  }

  /** What a field leaves in the buffer from `at` on. */
  function Image(f: Field, at: nat, address: nat -> Address): seq<byte> {
    if f.ty == NAME && f.entries != [] then Stored(f.entries[0])
    else if f.ty == MEMBERS then Packed(f.entries, at, address)
    else []
  }

  function Packed(entries: seq<Data>, at: nat, address: nat -> Address): seq<byte> {
    Table(entries, at + ADDRESS_SIZE * |entries|, address) + Strings(entries)
  }

  /** How packing a member field ends. The table has as many slots as the 16-bit counter says; the
      entries are followed along their links. */
  function MembersEnd(entries: seq<Data>, size: nat, at: nat): Ending {
    var slots := Low16(|entries|);
    var first := at + ADDRESS_SIZE * slots;
    if first > size then Failure(ERANGE)
    else if slots == |entries| then if first + DataSize(entries) <= size then Success else Failure(ERANGE)
    else if first + DataSize(entries[..slots + 1]) <= size then PastTable
    else Failure(ERANGE)
  }

  /** One field packed behind the bytes already there. */
  function PackOne(f: Field, size: nat, address: nat -> Address, r: Record, bytes: seq<byte>): Outcome {
    if f.ty == NAME then
      if f.entries == [] then TryAgain(EINVAL)
      else if |bytes| + |f.entries[0]| > size then TryAgain(ERANGE)
      else Filled(r.(name := Some(|bytes|)), bytes + Image(f, |bytes|, address))
    else if f.ty == MEMBERS then
      match MembersEnd(f.entries, size, |bytes|)
      case Failure(e) => TryAgain(e)
      case PastTable => Overrun
      case Success => Filled(r.(members := Some(|bytes|), count := Low16(|f.entries|)),
                             bytes + Image(f, |bytes|, address))
    else if f.ty == LOCAL then
      if f.entries == [] then TryAgain(EINVAL)
      else Filled(if |f.entries[0]| == 1 then r.(local := f.entries[0][0]) else r, bytes)
    else Filled(r, bytes)
  }

  function PackFrom(fields: seq<Field>, size: nat, address: nat -> Address, r: Record, bytes: seq<byte>): Outcome
    decreases |fields|
  {
    if fields == [] then Filled(r, bytes)
    else
      match PackOne(fields[0], size, address, r, bytes)
      case TryAgain(e) => TryAgain(e)
      case Overrun => Overrun
      case Filled(r', b') => PackFrom(fields[1..], size, address, r', b')
  }

  /** Servers need not send whether the alias is local. */
  function Pack(fields: seq<Field>, size: nat, address: nat -> Address, r: Record): Outcome {
    PackFrom(fields, size, address, r.(local := 0), [])
  }

  // ---------- what packing means ----------

  function SizeOf(f: Field): nat {
    if f.ty == NAME && f.entries != [] then |f.entries[0]|
    else if f.ty == MEMBERS then ADDRESS_SIZE * |f.entries| + DataSize(f.entries)
    else 0
  }

  function Needed(fields: seq<Field>): nat {
    if fields == [] then 0 else SizeOf(fields[0]) + Needed(fields[1..])
  }

  predicate Complete(fields: seq<Field>) {
    forall i :: 0 <= i < |fields| ==> HasEntries(fields[i])
  }

  predicate AllUnwrapped(fields: seq<Field>) {
    forall i :: 0 <= i < |fields| ==> Unwrapped(fields[i])
  }

  lemma {:induction false} StringsLength(entries: seq<Data>)
    ensures |Strings(entries)| == DataSize(entries)
  {
    if entries != [] { StringsLength(entries[1..]); }
  }

  lemma OneAdds(f: Field, size: nat, address: nat -> Address, r: Record, bytes: seq<byte>)
    requires |bytes| <= size && PackOne(f, size, address, r, bytes).Filled?
    ensures var o := PackOne(f, size, address, r, bytes);
            && o.bytes == bytes + Image(f, |bytes|, address) && |o.bytes| == |bytes| + SizeOf(f) <= size
            && (f.ty == NAME || f.ty == LOCAL ==> f.entries != [])
            && (f.ty == NAME ==> o.record.name == Some(|bytes|))
            && (f.ty == MEMBERS ==> o.record.members == Some(|bytes|) && o.record.count == Low16(|f.entries|))
            && (f.ty == LOCAL && |f.entries[0]| == 1 ==> o.record.local == f.entries[0][0])
  {
    StringsLength(f.entries);
  }

  /** The table of a member field holds all its slots exactly if the counter has not wrapped. */
  lemma TableHoldsAll(entries: seq<Data>)
    ensures ADDRESS_SIZE * Low16(|entries|) == ADDRESS_SIZE * |entries| <==> |entries| < 0x1_0000
    ensures ADDRESS_SIZE * Low16(|entries|) < ADDRESS_SIZE * |entries| <==> |entries| >= 0x1_0000
  {
  }

  /** The counter of a member field has not wrapped. */
  predicate Unwrapped(f: Field) { f.ty == MEMBERS ==> |f.entries| < 0x1_0000 }

  predicate HasEntries(f: Field) { f.ty == NAME || f.ty == LOCAL ==> f.entries != [] }

  /** What is written before a pointer goes behind the end of the table: the table, and the strings
      up to the one that has no slot. */
  function BeforeOverrun(f: Field): nat {
    var slots := Low16(|f.entries|);
    ADDRESS_SIZE * slots + DataSize(f.entries[..if slots < |f.entries| then slots + 1 else slots])
  }

  lemma OneExact(f: Field, size: nat, address: nat -> Address, r: Record, bytes: seq<byte>)
    requires |bytes| <= size
    ensures var o := PackOne(f, size, address, r, bytes);
            && (o.Filled? <==> HasEntries(f) && Unwrapped(f) && |bytes| + SizeOf(f) <= size)
            && (HasEntries(f) && Unwrapped(f) && |bytes| + SizeOf(f) > size ==> o == TryAgain(ERANGE))
            && (o.Overrun? <==> !Unwrapped(f) && |bytes| + BeforeOverrun(f) <= size)
  {
    TableHoldsAll(f.entries);
  }

  lemma CompleteSplit(fields: seq<Field>)
    requires fields != []
    ensures Complete(fields) <==> HasEntries(fields[0]) && Complete(fields[1..])
  {
    assert forall i :: 1 <= i < |fields| ==> fields[i] == fields[1..][i - 1];
  }

  lemma UnwrappedSplit(fields: seq<Field>)
    requires fields != []
    ensures AllUnwrapped(fields) <==> Unwrapped(fields[0]) && AllUnwrapped(fields[1..])
  {
    assert forall i :: 1 <= i < |fields| ==> fields[i] == fields[1..][i - 1];
  }

  /** Packing succeeds exactly when the name and local fields have entries, no member counter has
      wrapped and the name, the table and the member strings fit together; if only the room is
      missing the error is ERANGE. */
  lemma {:induction false} PackingExact(fields: seq<Field>, size: nat, address: nat -> Address, r: Record,
          bytes: seq<byte>)
    requires |bytes| <= size
    ensures var o := PackFrom(fields, size, address, r, bytes);
            && (o.Filled? <==> Complete(fields) && AllUnwrapped(fields) && |bytes| + Needed(fields) <= size)
            && (Complete(fields) && AllUnwrapped(fields) && |bytes| + Needed(fields) > size ==> o == TryAgain(ERANGE))
            && (o.Filled? ==> |o.bytes| == |bytes| + Needed(fields) && o.bytes[..|bytes|] == bytes)
    decreases |fields|
  {
    if fields != [] {
      hide Complete, AllUnwrapped, HasEntries, Unwrapped, Image, PackOne, SizeOf, BeforeOverrun;
      var f, rest := fields[0], fields[1..];
      CompleteSplit(fields);
      UnwrappedSplit(fields);
      OneExact(f, size, address, r, bytes);
      var o := PackOne(f, size, address, r, bytes);
      if o.Filled? {
        OneAdds(f, size, address, r, bytes);
        PackingExact(rest, size, address, o.record, o.bytes);
      }
    }
  }

  /** A pointer goes behind the end of the table exactly if some member field's counter has wrapped,
      all before it is packed, and the strings up to the one that has no slot fit. */
  ghost predicate RunsOver(fields: seq<Field>, size: nat, at: nat) {
    exists k :: RunsOverAt(fields, size, at, k)
  }

  predicate RunsOverAt(fields: seq<Field>, size: nat, at: nat, k: nat) {
    && k < |fields| && !Unwrapped(fields[k])
    && Complete(fields[..k]) && AllUnwrapped(fields[..k]) && at + Needed(fields[..k]) + BeforeOverrun(fields[k]) <= size
  }

  lemma {:induction false} OverrunExactly(fields: seq<Field>, size: nat, address: nat -> Address, r: Record,
          bytes: seq<byte>)
    requires |bytes| <= size
    ensures PackFrom(fields, size, address, r, bytes).Overrun? <==> RunsOver(fields, size, |bytes|)
    decreases |fields|
  {
    hide PackOne, SizeOf, BeforeOverrun, Unwrapped, RunsOverAt, Image;
    if fields == [] {
      NothingRunsOver(size, |bytes|);
    } else {
      var f, rest := fields[0], fields[1..];
      OneExact(f, size, address, r, bytes);
      var o := PackOne(f, size, address, r, bytes);
      if o.Filled? {
        OneAdds(f, size, address, r, bytes);
        OverrunExactly(rest, size, address, o.record, o.bytes);
        RunsOverLater(fields, size, |bytes|);
      } else {
        RunsOverNow(fields, size, |bytes|);
      }
    }
  }

  /** A response that carries its members in two fields. */
  function TwoParts(status: uint16, es: seq<Data>, ds: seq<Data>): seq<Field> {
    [Field(STATUS, [Put16(status)]), Field(MEMBERS, es), Field(MEMBERS, ds)]
  }

  /** Such packets can be received: whenever neither part wraps its counter but both together do,
      and the strings up to the first without a slot fit, the message is read without complaint and
      a pointer is then written behind the end of the table. */
  lemma OverrunReceived(status: uint16, es: seq<Data>, ds: seq<Data>, size: nat, address: nat -> Address, r: Record)
    requires [] !in es && [] !in ds && |es| < 0x1_0000 && |ds| < 0x1_0000 && |es| + |ds| >= 0x1_0000
    requires SizeFits(TwoParts(status, es, ds)) && BeforeOverrun(Field(MEMBERS, es + ds)) <= size
    ensures var p := TwoParts(status, es, ds);
            && Received([], Encode(p)) == Some([p[0], Field(MEMBERS, es + ds)])
            && Pack(Payload([p[0], Field(MEMBERS, es + ds)]), size, address, r) == Overrun
  {
    hide Reception, SizeFits, BeforeOverrun, Encode, Put16, Merge;
    var p := TwoParts(status, es, ds);
    ReceiveSent([], p);
    BothMerged(p[0], es, ds);
    OneExact(Field(MEMBERS, es + ds), size, address, r.(local := 0), []);
    assert [p[0], Field(MEMBERS, es + ds)][1..] == [Field(MEMBERS, es + ds)];
  }

  lemma BothMerged(f: Field, es: seq<Data>, ds: seq<Data>)
    requires f.ty != MEMBERS
    ensures Merge([], [f, Field(MEMBERS, es), Field(MEMBERS, ds)]) == [f, Field(MEMBERS, es + ds)]
  {
    var a, b := Field(MEMBERS, es), Field(MEMBERS, ds);
    assert [f, a, b][1..] == [a, b] && [a, b][1..] == [b] && [b][1..] == [];
    assert Absorb([], f) == [f] by { assert [] + f.entries == f.entries; }
    assert Absorb([f], a) == [f, a] by { assert IndexOf([f], MEMBERS) == 1 && [] + es == es; }
    assert Absorb([f, a], b) == [f, Field(MEMBERS, es + ds)] by { assert IndexOf([f, a], MEMBERS) == 1; }
    assert Merge([f, a], [b]) == Merge([f, Field(MEMBERS, es + ds)], []);
    assert Merge([f], [a, b]) == Merge([f, a], [b]);
  }

  /** For instance with two times 32768 members of one byte each, for any buffer that is not empty. */
  lemma OverrunHappens(status: uint16, size: nat, address: nat -> Address, r: Record)
    requires size > 0
    ensures var half: seq<Data> := seq(0x8000, _ => [0]);
            var p := TwoParts(status, half, half);
            && Received([], Encode(p)) == Some([p[0], Field(MEMBERS, half + half)])
            && Pack(Payload([p[0], Field(MEMBERS, half + half)]), size, address, r) == Overrun
  {
    hide Reception, Encode, PackFrom, EncodeFields;
    var half: seq<Data> := seq(0x8000, _ => [0]);
    OneByteEach(half);
    assert (half + half)[..1] == [[0]] && [[0]][1..] == [];
    PartsSize(status, half, half);
    OverrunReceived(status, half, half, size, address, r);
  }

  lemma PartsSize(status: uint16, es: seq<Data>, ds: seq<Data>)
    ensures |EncodeFields(TwoParts(status, es, ds))| == 16 + 2 * |es| + 2 * |ds| + DataSize(es) + DataSize(ds)
  {
    hide EncodeFields, Put16;
    var p := TwoParts(status, es, ds);
    EncodedLength(p);
    var last := [Field(MEMBERS, ds)];
    assert p[1..][1..] == last && p[1..] == [Field(MEMBERS, es)] + last;
    assert EntryCount(last) == |ds| && DataBytes(last) == DataSize(ds);
    assert DataSize(p[0].entries) == 2 by { assert p[0].entries[1..] == []; }
  }

  lemma {:induction false} OneByteEach(es: seq<Data>)
    requires forall i :: 0 <= i < |es| ==> |es[i]| == 1
    ensures DataSize(es) == |es| && [] !in es
  {
    if es != [] { OneByteEach(es[1..]); }
  }

  lemma NothingRunsOver(size: nat, at: nat)
    ensures !RunsOver([], size, at)
  {
  }

  lemma RunsOverLater(fields: seq<Field>, size: nat, at: nat)
    requires fields != [] && HasEntries(fields[0]) && Unwrapped(fields[0])
    ensures RunsOver(fields, size, at) <==> RunsOver(fields[1..], size, at + SizeOf(fields[0]))
  {
    hide SizeOf, BeforeOverrun, Unwrapped, HasEntries;
    forall k: nat | 0 < k <= |fields|
      ensures RunsOverAt(fields, size, at, k) <==> RunsOverAt(fields[1..], size, at + SizeOf(fields[0]), k - 1)
    {
      LaterIs(fields, size, at, k);
    }
    if RunsOver(fields[1..], size, at + SizeOf(fields[0])) {
      var k: nat :| RunsOverAt(fields[1..], size, at + SizeOf(fields[0]), k);
      assert RunsOverAt(fields, size, at, k + 1);
    }
  }

  lemma LaterIs(fields: seq<Field>, size: nat, at: nat, k: nat)
    requires fields != [] && HasEntries(fields[0]) && Unwrapped(fields[0]) && 0 < k <= |fields|
    ensures RunsOverAt(fields, size, at, k) <==> RunsOverAt(fields[1..], size, at + SizeOf(fields[0]), k - 1)
  {
    hide SizeOf, BeforeOverrun, Unwrapped, HasEntries, Complete, AllUnwrapped;
    var p := fields[..k];
    assert p[1..] == fields[1..][..k - 1] && p[0] == fields[0];
    CompleteSplit(p);
    UnwrappedSplit(p);
  }

  lemma RunsOverNow(fields: seq<Field>, size: nat, at: nat)
    requires fields != [] && at <= size
    requires !(HasEntries(fields[0]) && Unwrapped(fields[0]) && at + SizeOf(fields[0]) <= size)
    ensures RunsOver(fields, size, at) <==> !Unwrapped(fields[0]) && at + BeforeOverrun(fields[0]) <= size
  {
    hide BeforeOverrun, Unwrapped, HasEntries, SizeOf;
    assert fields[..0] == [];
    assert RunsOverAt(fields, size, at, 0) <==> !Unwrapped(fields[0]) && at + BeforeOverrun(fields[0]) <= size;
    forall k: nat | 0 < k < |fields|
      ensures !RunsOverAt(fields, size, at, k)
    {
      FirstCounts(fields, k);
    }
  }

  lemma FirstCounts(fields: seq<Field>, k: nat)
    requires 0 < k <= |fields|
    ensures SizeOf(fields[0]) <= Needed(fields[..k])
    ensures Complete(fields[..k]) ==> HasEntries(fields[0])
    ensures AllUnwrapped(fields[..k]) ==> Unwrapped(fields[0])
  {
    assert fields[..k][0] == fields[0];
  }

  /** What fits in a buffer is packed alike in any larger one. */
  lemma {:induction false} PackingMonotone(fields: seq<Field>, size: nat, larger: nat,
          address: nat -> Address, r: Record, bytes: seq<byte>)
    requires size <= larger && PackFrom(fields, size, address, r, bytes).Filled?
    ensures PackFrom(fields, larger, address, r, bytes) == PackFrom(fields, size, address, r, bytes)
    decreases |fields|
  {
    if fields != [] {
      var o := PackOne(fields[0], size, address, r, bytes);
      PackingMonotone(fields[1..], size, larger, address, o.record, o.bytes);
    }
  }

  function PlaceOf(fields: seq<Field>, k: nat): nat
    requires k <= |fields|
  {
    Needed(fields[..k])
  }

  /** Where member `i` is put, counted from the first of the strings. */
  function MemberPlace(entries: seq<Data>, i: nat): nat
    requires i <= |entries|
  {
    DataSize(entries[..i])
  }

  /** The places of different fields do not overlap. */
  lemma {:induction false} PlacesApart(fields: seq<Field>, j: nat, k: nat)
    requires j < k <= |fields|
    ensures PlaceOf(fields, j) + SizeOf(fields[j]) <= PlaceOf(fields, k)
    decreases j
  {
    var rest := fields[1..];
    assert fields[..k][1..] == rest[..k - 1];
    if j > 0 {
      assert fields[..j][1..] == rest[..j - 1];
      PlacesApart(rest, j - 1, k - 1);
    }
  }

  /** Nor do the places of different members, and all are within the strings. */
  lemma {:induction false} MembersApart(entries: seq<Data>, i: nat, j: nat)
    requires i < j <= |entries|
    ensures MemberPlace(entries, i) + |entries[i]| <= MemberPlace(entries, j) <= DataSize(entries)
    decreases i
  {
    var rest := entries[1..];
    assert entries[..j][1..] == rest[..j - 1];
    if i > 0 {
      assert entries[..i][1..] == rest[..i - 1];
      MembersApart(rest, i - 1, j - 1);
    } else {
      PrefixSize(rest, j - 1);
    }
  }

  lemma {:induction false} PrefixSize(entries: seq<Data>, j: nat)
    requires j <= |entries|
    ensures DataSize(entries[..j]) <= DataSize(entries)
  {
    if j > 0 {
      assert entries[..j][1..] == entries[1..][..j - 1];
      PrefixSize(entries[1..], j - 1);
    }
  }

  lemma {:induction false} TableAt(entries: seq<Data>, at: nat, address: nat -> Address, i: nat)
    requires i < |entries|
    ensures Table(entries, at, address)[ADDRESS_SIZE * i..ADDRESS_SIZE * (i + 1)]
         == address(at + MemberPlace(entries, i))
  {
    var t := Table(entries, at, address);
    if i > 0 {
      var rest := Table(entries[1..], at + |entries[0]|, address);
      TableAt(entries[1..], at + |entries[0]|, address, i - 1);
      assert entries[..i][1..] == entries[1..][..i - 1];
      assert t[ADDRESS_SIZE..] == rest;
      assert t[ADDRESS_SIZE * i..ADDRESS_SIZE * (i + 1)] == rest[ADDRESS_SIZE * (i - 1)..ADDRESS_SIZE * i];
    }
  }

  lemma {:induction false} StringAt(entries: seq<Data>, i: nat)
    requires i < |entries|
    ensures var at := MemberPlace(entries, i);
            at + |entries[i]| <= |Strings(entries)| && Strings(entries)[at..at + |entries[i]|] == Stored(entries[i])
  {
    if i > 0 {
      var n := |entries[0]|;
      StringAt(entries[1..], i - 1);
      assert entries[..i][1..] == entries[1..][..i - 1];
      var at := MemberPlace(entries[1..], i - 1);
      assert Strings(entries)[n..] == Strings(entries[1..]);
      assert Strings(entries)[n + at..n + at + |entries[i]|] == Strings(entries[1..])[at..at + |entries[i]|];
    }
  }

  predicate LastOfItsType(fields: seq<Field>, k: nat)
    requires k < |fields|
  {
    forall i :: k < i < |fields| ==> fields[i].ty != fields[k].ty
  }

  /** The record's part that belongs to a type. */
  function PartOf(r: Record, ty: uint16): (Option<nat>, nat) {
    if ty == NAME then (r.name, 0)
    else if ty == MEMBERS then (r.members, r.count)
    else if ty == LOCAL then (None, r.local)
    else (None, 0)
  }

  lemma {:induction false} PartKept(fields: seq<Field>, size: nat, address: nat -> Address, r: Record,
          bytes: seq<byte>, ty: uint16)
    requires PackFrom(fields, size, address, r, bytes).Filled?
    requires forall i :: 0 <= i < |fields| ==> fields[i].ty != ty
    ensures PartOf(PackFrom(fields, size, address, r, bytes).record, ty) == PartOf(r, ty)
    decreases |fields|
  {
    if fields != [] {
      var o := PackOne(fields[0], size, address, r, bytes);
      PartKept(fields[1..], size, address, o.record, o.bytes, ty);
    }
  }

  /** After success every field's image stands at its place, and if no later field has its type the
      record says so. */
  lemma {:induction false} FieldPlaced(fields: seq<Field>, size: nat, address: nat -> Address, r: Record,
          bytes: seq<byte>, k: nat)
    requires |bytes| <= size && PackFrom(fields, size, address, r, bytes).Filled? && k < |fields|
    ensures fields[k].ty == NAME || fields[k].ty == LOCAL ==> fields[k].entries != []
    ensures var o := PackFrom(fields, size, address, r, bytes);
            var f := fields[k];
            var at := |bytes| + PlaceOf(fields, k);
            && at + SizeOf(f) <= |o.bytes| <= size
            && o.bytes[at..at + SizeOf(f)] == Image(f, at, address)
            && (LastOfItsType(fields, k) ==>
                  && (f.ty == NAME ==> o.record.name == Some(at))
                  && (f.ty == MEMBERS ==> o.record.members == Some(at) && o.record.count == Low16(|f.entries|))
                  && (f.ty == LOCAL && |f.entries[0]| == 1 ==> o.record.local == f.entries[0][0]))
    decreases |fields|
  {
    hide PackOne, Image, SizeOf, Complete, AllUnwrapped;
    var rest := fields[1..];
    var o := PackOne(fields[0], size, address, r, bytes);
    OneAdds(fields[0], size, address, r, bytes);
    PackingExact(rest, size, address, o.record, o.bytes);
    if k == 0 {
      if LastOfItsType(fields, 0) { PartKept(rest, size, address, o.record, o.bytes, fields[0].ty); }
      var n := |bytes| + SizeOf(fields[0]);
      var end := PackFrom(fields, size, address, r, bytes);
      assert end.bytes[|bytes|..n] == end.bytes[..n][|bytes|..];
    } else {
      assert fields[..k][1..] == rest[..k - 1];
      LastInTail(fields, k);
      FieldPlaced(rest, size, address, o.record, o.bytes, k - 1);
    }
  }

  lemma LastInTail(fields: seq<Field>, k: nat)
    requires 0 < k < |fields|
    ensures LastOfItsType(fields, k) <==> LastOfItsType(fields[1..], k - 1)
  {
    var rest := fields[1..];
    assert forall i :: 1 <= i < |fields| ==> fields[i] == rest[i - 1];
    assert forall i :: 0 <= i < |rest| ==> rest[i] == fields[i + 1];
  }

  /** Within the image of a member field at `at`: slot `i` of the table points to the copy of the
      `i`-th entry, which stands behind the table. */
  lemma MemberPlaced(f: Field, at: nat, address: nat -> Address, i: nat)
    requires f.ty == MEMBERS && i < |f.entries|
    ensures var image := Image(f, at, address);
            var slot := ADDRESS_SIZE * i;
            var copy := ADDRESS_SIZE * |f.entries| + MemberPlace(f.entries, i);
            && |image| == SizeOf(f)
            && slot + ADDRESS_SIZE <= ADDRESS_SIZE * |f.entries| <= copy && copy + |f.entries[i]| <= |image|
            && image[slot..slot + ADDRESS_SIZE] == address(at + copy)
            && image[copy..copy + |f.entries[i]|] == Stored(f.entries[i])
  {
    hide Table, Strings, Stored, DataSize, MemberPlace;
    var n := ADDRESS_SIZE * |f.entries|;
    var table, strings := Table(f.entries, at + n, address), Strings(f.entries);
    StringsLength(f.entries);
    TableAt(f.entries, at + n, address, i);
    StringAt(f.entries, i);
    BothParts(table, strings, ADDRESS_SIZE * i, ADDRESS_SIZE * (i + 1),
              MemberPlace(f.entries, i), MemberPlace(f.entries, i) + |f.entries[i]|);
  }

  lemma BothParts(s: seq<byte>, t: seq<byte>, i: nat, j: nat, p: nat, q: nat)
    requires i <= j <= |s| && p <= q <= |t|
    ensures (s + t)[i..j] == s[i..j] && (s + t)[|s| + p..|s| + q] == t[p..q]
  {
  }

  /** The pointer at `slot` is to `copy`, behind it, where the string of the entry `d` stands,
      terminated within the entry's size. */
  ghost predicate PointsTo(bytes: seq<byte>, slot: nat, copy: nat, d: Data, address: nat -> Address) {
    && d != [] && slot + ADDRESS_SIZE <= copy && copy + |d| <= |bytes|
    && bytes[slot..slot + ADDRESS_SIZE] == address(copy)
    && CString(bytes[copy..]) == CString(d[..|d| - 1])
  }

  lemma WithinImage(bytes: seq<byte>, at: nat, image: seq<byte>, slot: nat, copy: nat, d: Data, address: nat -> Address)
    requires at + |image| <= |bytes| && bytes[at..at + |image|] == image && d != []
    requires slot + ADDRESS_SIZE <= copy && copy + |d| <= |image|
    requires image[slot..slot + ADDRESS_SIZE] == address(at + copy) && image[copy..copy + |d|] == Stored(d)
    ensures PointsTo(bytes, at + slot, at + copy, d, address)
  {
    var from := at + copy;
    Nested(bytes, at, at + |image|, slot, slot + ADDRESS_SIZE);
    Nested(bytes, at, at + |image|, copy, copy + |d|);
    assert bytes[from..] == bytes[from..from + |d|] + bytes[from + |d|..];
    StoredIsTerminated(d, bytes[from + |d|..]);
  }

  /** For any received response, whatever message it comes from: if packing into `size` bytes
      succeeds, `alias_members` is the table of a member field, entry `i` of it points to a
      terminated copy of the field's `i`-th entry, and table and copies lie within the buffer at
      places that are the field's own. */
  lemma MembersPacked(message: seq<byte>, size: nat, address: nat -> Address, r: Record, k: nat, i: nat)
    requires Received([], message).Some?
    requires var fields := Payload(Received([], message).value);
             && Pack(fields, size, address, r).Filled? && k < |fields| && fields[k].ty == MEMBERS
             && i < |fields[k].entries|
    ensures var fields := Payload(Received([], message).value);
            var f := fields[k];
            var o := Pack(fields, size, address, r);
            var table := PlaceOf(fields, k);
            var copy := table + ADDRESS_SIZE * |f.entries| + MemberPlace(f.entries, i);
            && o.record.members == Some(table) && o.record.count as int == |f.entries|
            && copy + |f.entries[i]| <= table + SizeOf(f) <= |o.bytes| <= size
            && PointsTo(o.bytes, table + ADDRESS_SIZE * i, copy, f.entries[i], address)
  {
    hide Received, PackFrom, Image, SizeOf, PointsTo, MemberPlace, PlaceOf;
    var p := Received([], message).value;
    var fields := Payload(p);
    ReceivedIsPlain(message);
    NoEmptyAt(p, k + 1);
    FieldPlaced(fields, size, address, r.(local := 0), [], k);
    PackingExact(fields, size, address, r.(local := 0), []);
    assert Unwrapped(fields[k]);
    var f, at := fields[k], PlaceOf(fields, k);
    MemberPlaced(f, at, address, i);
    WithinImage(Pack(fields, size, address, r).bytes, at, Image(f, at, address), ADDRESS_SIZE * i,
                ADDRESS_SIZE * |f.entries| + MemberPlace(f.entries, i), f.entries[i], address);
  }

  /** Likewise for the name. */
  lemma NamePacked(message: seq<byte>, size: nat, address: nat -> Address, r: Record, k: nat)
    requires Received([], message).Some?
    requires var fields := Payload(Received([], message).value);
             Pack(fields, size, address, r).Filled? && k < |fields| && fields[k].ty == NAME
    ensures var fields := Payload(Received([], message).value);
            var f := fields[k];
            var o := Pack(fields, size, address, r);
            var at := PlaceOf(fields, k);
            && f.entries != [] && f.entries[0] != []
            && o.record.name == Some(at) && at + |f.entries[0]| <= |o.bytes| <= size
            && CString(o.bytes[at..]) == CString(f.entries[0][..|f.entries[0]| - 1])
  {
    hide Received, PackFrom, Image, SizeOf, PlaceOf, CString, Stored;
    var p := Received([], message).value;
    var fields := Payload(p);
    ReceivedIsPlain(message);
    NoEmptyAt(p, k + 1);
    FieldPlaced(fields, size, address, r.(local := 0), [], k);
    var o, at, d := Pack(fields, size, address, r), PlaceOf(fields, k), fields[k].entries[0];
    NameImage(fields[k], at, address);
    Cut(o.bytes, at, at + |d|, |o.bytes|);
    assert o.bytes[at..] == o.bytes[at..|o.bytes|] && o.bytes[at + |d|..] == o.bytes[at + |d|..|o.bytes|];
    StoredIsTerminated(d, o.bytes[at + |d|..]);
  }

  lemma NameImage(f: Field, at: nat, address: nat -> Address)
    requires f.ty == NAME && f.entries != []
    ensures SizeOf(f) == |f.entries[0]| && Image(f, at, address) == Stored(f.entries[0])
  {
  }

  // ---------- the numbers of the types and the members they fill ----------

  /** A field that tells whether the alias is local: its first entry is one byte. */
  predicate TellsLocal(f: Field) { f.ty == 153 && f.entries != [] && |f.entries[0]| == 1 }

  /** Whatever the record held before, after success `alias_local` is the byte of the last field of
      type 153 whose first entry is one byte, and 0 if there is none. */
  lemma LocalSettled(fields: seq<Field>, size: nat, address: nat -> Address, r: Record)
    requires Pack(fields, size, address, r).Filled?
    ensures var o := Pack(fields, size, address, r);
            && ((forall i :: 0 <= i < |fields| ==> !TellsLocal(fields[i])) ==> o.record.local == 0)
            && forall k :: 0 <= k < |fields| && TellsLocal(fields[k])
                           && (forall i :: k < i < |fields| ==> !TellsLocal(fields[i])) ==>
                 o.record.local == fields[k].entries[0][0]
  {
    hide PackFrom;
    if forall i :: 0 <= i < |fields| ==> !TellsLocal(fields[i]) {
      LocalLeft(fields, size, address, r.(local := 0), []);
    }
    forall k | 0 <= k < |fields| && TellsLocal(fields[k]) && (forall i :: k < i < |fields| ==> !TellsLocal(fields[i]))
      ensures Pack(fields, size, address, r).record.local == fields[k].entries[0][0]
    {
      LocalTold(fields, size, address, r.(local := 0), [], k);
    }
  }

  lemma {:induction false} LocalLeft(fields: seq<Field>, size: nat, address: nat -> Address, r: Record,
          bytes: seq<byte>)
    requires PackFrom(fields, size, address, r, bytes).Filled?
    requires forall i :: 0 <= i < |fields| ==> !TellsLocal(fields[i])
    ensures PackFrom(fields, size, address, r, bytes).record.local == r.local
    decreases |fields|
  {
    hide MembersEnd, Image;
    if fields != [] {
      var rest := fields[1..];
      var o := PackOne(fields[0], size, address, r, bytes);
      assert forall i :: 0 <= i < |rest| ==> rest[i] == fields[i + 1];
      LocalLeft(rest, size, address, o.record, o.bytes);
    }
  }

  lemma {:induction false} LocalTold(fields: seq<Field>, size: nat, address: nat -> Address, r: Record,
          bytes: seq<byte>, k: nat)
    requires PackFrom(fields, size, address, r, bytes).Filled?
    requires k < |fields| && TellsLocal(fields[k]) && forall i :: k < i < |fields| ==> !TellsLocal(fields[i])
    ensures PackFrom(fields, size, address, r, bytes).record.local == fields[k].entries[0][0]
    decreases |fields|
  {
    hide MembersEnd, Image;
    var rest := fields[1..];
    var o := PackOne(fields[0], size, address, r, bytes);
    assert forall i :: 0 <= i < |rest| ==> rest[i] == fields[i + 1];
    if k == 0 {
      LocalLeft(rest, size, address, o.record, o.bytes);
    } else {
      LocalTold(rest, size, address, o.record, o.bytes, k - 1);
    }
  }

  /** After success the last field of type 151 is the name and the last of type 152 the members. */
  lemma MembersPointed(fields: seq<Field>, size: nat, address: nat -> Address, r: Record, k: nat)
    requires Pack(fields, size, address, r).Filled?
    requires k < |fields| && forall i :: k < i < |fields| ==> fields[i].ty != fields[k].ty
    ensures var o := Pack(fields, size, address, r);
            var (f, at) := (fields[k], PlaceOf(fields, k));
            && (f.ty == 151 ==>
                  && f.entries != [] && at + |f.entries[0]| <= |o.bytes| <= size
                  && o.record.name == Some(at)
                  && o.bytes[at..at + |f.entries[0]|] == Stored(f.entries[0]))
            && (f.ty == 152 ==>
                  && at + 8 * |f.entries| + DataSize(f.entries) <= |o.bytes| <= size
                  && o.record.members == Some(at) && o.record.count as int == |f.entries|)
  {
    hide PackFrom, PlaceOf, Complete, Stored, DataSize, Packed;
    PackingExact(fields, size, address, r.(local := 0), []);
    FieldPlaced(fields, size, address, r.(local := 0), [], k);
    assert Unwrapped(fields[k]);
  }

  /** Without a field of its type the name, or the members, are left as they were. */
  lemma MembersLeft(fields: seq<Field>, size: nat, address: nat -> Address, r: Record)
    requires Pack(fields, size, address, r).Filled?
    ensures var o := Pack(fields, size, address, r);
            && ((forall i :: 0 <= i < |fields| ==> fields[i].ty != 151) ==> o.record.name == r.name)
            && ((forall i :: 0 <= i < |fields| ==> fields[i].ty != 152) ==>
                  o.record.members == r.members && o.record.count == r.count)
  {
    hide PackFrom;
    if forall i :: 0 <= i < |fields| ==> fields[i].ty != 151 {
      PartKept(fields, size, address, r.(local := 0), [], 151);
    }
    if forall i :: 0 <= i < |fields| ==> fields[i].ty != 152 {
      PartKept(fields, size, address, r.(local := 0), [], 152);
    }
  }

  lemma AloneIs(f: Field, size: nat, address: nat -> Address, r: Record)
    ensures Pack([f], size, address, r) == PackOne(f, size, address, r.(local := 0), [])
  {
    hide PackOne;
    var o := PackOne(f, size, address, r.(local := 0), []);
    if o.Filled? { assert PackFrom([f][1..], size, address, o.record, o.bytes) == o; }
  }

  /** A member field by itself, with any number of entries: as many eight-byte pointers are set aside
      as 16 bits can count, and the strings follow; the first one without a slot, if it fits, makes
      the pointer that goes behind the table. */
  lemma MembersAlone(es: seq<Data>, size: nat, address: nat -> Address, r: Record)
    ensures var o := Pack([Field(152, es)], size, address, r);
            if |es| < 65536 then
              if 8 * |es| + DataSize(es) <= size then
                o.Filled? && o.record == Record(r.name, Some(0), |es|, 0) && |o.bytes| == 8 * |es| + DataSize(es)
              else o == TryAgain(ERANGE)
            else
              var n := |es| % 65536;
              o == if 8 * n + DataSize(es[..n + 1]) <= size then Overrun else TryAgain(ERANGE)
  {
    hide DataSize, Strings, Image, Pack;
    var f := Field(152, es);
    OneExact(f, size, address, r.(local := 0), []);
    AloneIs(f, size, address, r);
    if |es| < 65536 && 8 * |es| + DataSize(es) <= size { OneAdds(f, size, address, r.(local := 0), []); }
  }

  /** A field of any other type makes no difference anywhere among the fields. */
  lemma {:induction false} OthersSkipped(fields: seq<Field>, f: Field, after: seq<Field>, size: nat,
          address: nat -> Address, r: Record, bytes: seq<byte>)
    requires f.ty !in {151, 152, 153}
    ensures PackFrom(fields + [f] + after, size, address, r, bytes) == PackFrom(fields + after, size, address, r, bytes)
    decreases |fields|
  {
    if fields == [] {
      assert fields + [f] + after == [f] + after && ([f] + after)[1..] == after && fields + after == after;
    } else {
      hide PackOne;
      var rest := fields[1..];
      assert (fields + [f] + after)[1..] == rest + [f] + after && (fields + after)[1..] == rest + after;
      var o := PackOne(fields[0], size, address, r, bytes);
      if o.Filled? { OthersSkipped(rest, f, after, size, address, o.record, o.bytes); }
    }
  }

  /** The first name or local field that lacks its entry stops packing with EINVAL, unless the
      bytes before it already lack room. */
  lemma {:induction false} WithoutEntry(fields: seq<Field>, k: nat, size: nat, address: nat -> Address, r: Record,
          bytes: seq<byte>)
    requires |bytes| <= size && k < |fields| && fields[k].ty in {151, 153} && fields[k].entries == []
    requires Complete(fields[..k]) && AllUnwrapped(fields[..k])
    ensures PackFrom(fields, size, address, r, bytes)
         == TryAgain(if |bytes| + PlaceOf(fields, k) <= size then EINVAL else ERANGE)
    decreases k
  {
    if k > 0 {
      hide PackOne, Complete, AllUnwrapped, HasEntries, Unwrapped, SizeOf, Image, BeforeOverrun;
      var f, rest, p := fields[0], fields[1..], fields[..k];
      assert p[0] == f && p[1..] == rest[..k - 1];
      CompleteSplit(p);
      UnwrappedSplit(p);
      OneExact(f, size, address, r, bytes);
      var o := PackOne(f, size, address, r, bytes);
      if o.Filled? {
        OneAdds(f, size, address, r, bytes);
        WithoutEntry(rest, k - 1, size, address, o.record, o.bytes);
      }
    } else {
      assert fields[..0] == [];
    }
  }

  // ---------- the program ----------

  class AliasEntry {
    var name: Option<nat>
    var members: Option<nat>
    var count: uint16
    var local: byte

    function Value(): Record
      reads this
    {
      Record(name, members, count, local)
    }
  }

  /** Copies one member and sets its slot of the table; touches nothing else. */
  method StoreMember(buffer: array<byte>, slot: nat, at: nat, d: Data, address: nat -> Address)
    requires d != [] && slot + ADDRESS_SIZE <= at && at + |d| <= buffer.Length
    modifies buffer
    ensures buffer[..slot + ADDRESS_SIZE] == old(buffer[..slot]) + address(at)
    ensures buffer[slot + ADDRESS_SIZE..at] == old(buffer[slot + ADDRESS_SIZE..at])
    ensures buffer[at..at + |d|] == Stored(d)
    ensures buffer[at + |d|..] == old(buffer[at + |d|..])
  {
    ghost var was, end := buffer[..], slot + ADDRESS_SIZE;
    Store(buffer, at, d);
    ghost var stored := buffer[..];
    assert stored[..at] == was[..at] by { assert stored[..at + |d|][..at] == was[..at]; }
    assert stored[at..at + |d|] == stored[..at + |d|][at..] == Stored(d);
    CopyData(buffer, slot, address(at));
    assert buffer[end..] == stored[end..];
    assert buffer[at..at + |d|] == buffer[end..][at - end..at - end + |d|] == stored[at..at + |d|];
    assert buffer[at + |d|..] == buffer[end..][at - end + |d|..] == stored[at + |d|..];
    assert buffer[end..at] == buffer[end..][..at - end] == stored[..at][end..];
    assert stored[..slot] == stored[..at][..slot] == was[..slot];
  }

  lemma TableStep(ds: seq<Data>, j: nat, at: nat, address: nat -> Address)
    requires j < |ds|
    ensures Table(ds[j..], at, address) == address(at) + Table(ds[j + 1..], at + |ds[j]|, address)
    ensures Strings(ds[j..]) == Stored(ds[j]) + Strings(ds[j + 1..])
    ensures DataSize(ds[j..]) == |ds[j]| + DataSize(ds[j + 1..])
  {
    assert ds[j..][1..] == ds[j + 1..];
  }

  /** How far a member field has been packed: `j` slots of the table at `table` are set, and the
      strings go up to `bi`. `was` is the buffer before. */
  ghost predicate Halfway(b: seq<byte>, was: seq<byte>, ds: seq<Data>, j: nat, table: nat, bi: nat,
          address: nat -> Address) {
    var first := table + ADDRESS_SIZE * |ds|;
    && j <= |ds| && first <= bi <= |b| == |was|
    && bi + DataSize(ds[j..]) == first + DataSize(ds)
    && b[..table] == was[..table] && b[bi..] == was[bi..]
    && b[table..table + ADDRESS_SIZE * j] + Table(ds[j..], bi, address) == Table(ds, first, address)
    && b[first..bi] + Strings(ds[j..]) == Strings(ds)
  }

  lemma HalfwayStep(b: seq<byte>, b': seq<byte>, was: seq<byte>, ds: seq<Data>, j: nat, table: nat, bi: nat,
          address: nat -> Address)
    requires Halfway(b, was, ds, j, table, bi, address) && j < |ds|
    requires var slot := table + ADDRESS_SIZE * j;
             var next := bi + |ds[j]|;
             && next <= |b'| == |b|
             && b'[..slot + ADDRESS_SIZE] == b[..slot] + address(bi)
             && b'[slot + ADDRESS_SIZE..bi] == b[slot + ADDRESS_SIZE..bi]
             && b'[bi..next] == Stored(ds[j]) && b'[next..] == b[next..]
    ensures Halfway(b', was, ds, j + 1, table, bi + |ds[j]|, address)
  {
    hide Table, Strings, Stored, DataSize;
    var slot, first, next := table + ADDRESS_SIZE * j, table + ADDRESS_SIZE * |ds|, bi + |ds[j]|;
    TableStep(ds, j, bi, address);
    assert b'[..table] == b'[..slot + ADDRESS_SIZE][..table] == b[..table];
    assert b'[next..] == b[bi..][next - bi..] == was[next..];
    assert b'[table..slot + ADDRESS_SIZE] == b'[..slot + ADDRESS_SIZE][table..] == b[table..slot] + address(bi);
    Assoc(b[table..slot], address(bi), Table(ds[j + 1..], next, address));
    assert b'[first..bi] == b'[slot + ADDRESS_SIZE..bi][first - slot - ADDRESS_SIZE..] == b[first..bi];
    Cut(b', first, bi, next);
    Assoc(b[first..bi], Stored(ds[j]), Strings(ds[j + 1..]));
  }

  lemma HalfwayDone(b: seq<byte>, was: seq<byte>, ds: seq<Data>, table: nat, bi: nat, address: nat -> Address)
    requires Halfway(b, was, ds, |ds|, table, bi, address)
    ensures var first := table + ADDRESS_SIZE * |ds|;
            && bi == first + DataSize(ds) && bi <= |b| == |was| && b[bi..] == was[bi..]
            && b[..bi] == was[..table] + Packed(ds, table, address)
  {
    hide Table, Strings, DataSize, Halfway, Packed;
    var first := table + ADDRESS_SIZE * |ds|;
    HalfwayEnd(b, was, ds, table, bi, address);
    PackedIs(ds, table, address);
    Glue(b, table, first, bi, Table(ds, first, address), Strings(ds));
  }

  lemma PackedIs(ds: seq<Data>, at: nat, address: nat -> Address)
    ensures Packed(ds, at, address) == Table(ds, at + ADDRESS_SIZE * |ds|, address) + Strings(ds)
  {
  }

  lemma HalfwayEnd(b: seq<byte>, was: seq<byte>, ds: seq<Data>, table: nat, bi: nat, address: nat -> Address)
    requires Halfway(b, was, ds, |ds|, table, bi, address)
    ensures var first := table + ADDRESS_SIZE * |ds|;
            && bi == first + DataSize(ds) <= |b| == |was| && b[..table] == was[..table] && b[bi..] == was[bi..]
            && b[table..first] == Table(ds, first, address) && b[first..bi] == Strings(ds)
  {
    hide Table, Strings, DataSize;
    assert ds[|ds|..] == [];
    Empty(bi, address);
  }

  lemma Empty(at: nat, address: nat -> Address)
    ensures Table([], at, address) == [] && Strings([]) == [] && DataSize([]) == 0
  {
  }

  lemma HalfwayStart(b: seq<byte>, was: seq<byte>, ds: seq<Data>, table: nat, address: nat -> Address)
    requires table + ADDRESS_SIZE * |ds| <= |b| == |was|
    requires b[..table] == was[..table] && b[table + ADDRESS_SIZE * |ds|..] == was[table + ADDRESS_SIZE * |ds|..]
    ensures Halfway(b, was, ds, 0, table, table + ADDRESS_SIZE * |ds|, address)
  {
    assert ds[0..] == ds;
  }

  /** The table and the members of one field, behind `at`. */
  method FillMembers(field: FieldNode, buffer: array<byte>, at: nat, address: nat -> Address)
    returns (bi: nat, end: Ending)
    requires field.Valid() && [] !in field.Model().entries && at <= buffer.Length
    modifies buffer
    ensures end == MembersEnd(field.Model().entries, buffer.Length, at)
    ensures end.Success? ==> bi <= buffer.Length && buffer[bi..] == old(buffer[bi..])
    ensures end.Success? ==>
              buffer[..bi] == old(buffer[..at]) + Packed(field.Model().entries, at, address)
  {
    hide Packed, Halfway, DataSize, FieldNode.Valid;
    ghost var ds, was := field.Model().entries, buffer[..];
    EntriesHead(field);
    var slots, first: nat := field.entryCount as int, at + ADDRESS_SIZE * field.entryCount as int;
    if first > buffer.Length { return at, Failure(ERANGE); }
    forall k | at <= k < first { buffer[k] := 0; }
    if slots == |ds| { HalfwayStart(buffer[..], was, ds, at, address); }
    bi, end := FillStrings(field, buffer, at, slots, was, address);
    if slots == |ds| && end.Success? { HalfwayDone(buffer[..], was, ds, at, bi, address); }
  }

  /** The strings of the members, from behind the table on, and their slots. */
  method FillStrings(field: FieldNode, buffer: array<byte>, table: nat, slots: nat, ghost was: seq<byte>,
                     address: nat -> Address)
    returns (bi: nat, end: Ending)
    requires field.Valid() && [] !in field.Model().entries && slots == Low16(|field.Model().entries|)
    requires table + ADDRESS_SIZE * slots <= buffer.Length
    requires var ds := field.Model().entries;
             slots == |ds| ==> Halfway(buffer[..], was, ds, 0, table, table + ADDRESS_SIZE * slots, address)
    modifies buffer
    ensures end == MembersEnd(field.Model().entries, buffer.Length, table)
    ensures var ds := field.Model().entries;
            end.Success? ==> slots == |ds| && Halfway(buffer[..], was, ds, slots, table, bi, address)
  {
    hide Halfway, DataSize, FieldNode.Valid;
    ghost var ds := field.Model().entries;
    EntriesHead(field);
    Nothing(ds);
    All(ds);
    var first := table + ADDRESS_SIZE * slots;
    bi, end := first, Success;
    var entry, i := field.entryHead, 0;
    while entry != null
      invariant 0 <= i <= |ds| && i <= slots && entry == if i < |ds| then field.entries[i] else null
      invariant bi == first + DataSize(ds[..i]) <= buffer.Length
      invariant slots == |ds| ==> Halfway(buffer[..], was, ds, i, table, bi, address)
      decreases |ds| - i
    {
      EntryAt(field, i);
      NextString(ds, i);
      if bi + |entry.data| > buffer.Length {
        StringsGrow(ds, i + 1, if slots == |ds| then slots else slots + 1);
        return bi, Failure(ERANGE);
      }
      if i == slots {
        // the pointer goes behind the end of the table
        return bi, PastTable;
      }
      ghost var before := buffer[..];
      StoreMember(buffer, table + ADDRESS_SIZE * i, bi, entry.data, address);
      if slots == |ds| { HalfwayStep(before, buffer[..], was, ds, i, table, bi, address); }
      bi := bi + |entry.data|;
      entry, i := entry.next, i + 1;
    }
  }

  lemma Nothing(ds: seq<Data>)
    ensures DataSize(ds[..0]) == 0
  {
  }

  lemma All(ds: seq<Data>)
    ensures DataSize(ds[..|ds|]) == DataSize(ds)
  {
    assert ds[..|ds|] == ds;
  }

  lemma NextString(ds: seq<Data>, i: nat)
    requires i < |ds|
    ensures DataSize(ds[..i + 1]) == DataSize(ds[..i]) + |ds[i]|
  {
    assert ds[..i + 1] == ds[..i] + [ds[i]];
    DataSizeConcat(ds[..i], [ds[i]]);
  }

  lemma StringsGrow(ds: seq<Data>, i: nat, j: nat)
    requires i <= j <= |ds|
    ensures DataSize(ds[..i]) <= DataSize(ds[..j]) && DataSize(ds[..|ds|]) == DataSize(ds)
  {
    All(ds);
    assert ds[..j][..i] == ds[..i];
    PrefixSize(ds[..j], i);
  }

  lemma EntriesHead(field: FieldNode)
    requires field.Valid()
    ensures field.entryHead == if field.entries == [] then null else field.entries[0]
    ensures field.entryCount == Low16(|field.entries|)
  {
  }

  lemma EntryAt(field: FieldNode, i: nat)
    requires field.Valid() && i < |field.entries|
    ensures field.entries[i].data == field.Model().entries[i]
    ensures field.entries[i].next == if i + 1 < |field.entries| then field.entries[i + 1] else null
  {
  }

  /** One field: the new cursor, or the end. */
  method PopulateField(field: FieldNode, ae: AliasEntry, buffer: array<byte>, at: nat, address: nat -> Address)
    returns (bi: nat, end: Ending)
    requires field.Valid() && [] !in field.Model().entries && at <= buffer.Length
    modifies ae, buffer
    ensures end.Success? ==> bi <= buffer.Length && buffer[bi..] == old(buffer[bi..])
    ensures match PackOne(field.Model(), buffer.Length, address, old(ae.Value()), old(buffer[..at]))
            case Filled(r, bytes) => end == Success && ae.Value() == r && bi <= buffer.Length && buffer[..bi] == bytes
            case TryAgain(e) => end == Failure(e)
            case Overrun => end == PastTable
  {
    hide Packed, DataSize, FieldNode.Valid, MembersEnd;
    ghost var f := field.Model();
    bi, end := at, Success;
    EntriesHead(field);
    if field.ty == MEMBERS {
      MembersFail(f.entries, buffer.Length, at);
      ae.count := field.entryCount;
      bi, end := FillMembers(field, buffer, at, address);
      if end != Success { return; }
      ae.members := Some(at);
    } else if field.ty == NAME || field.ty == LOCAL {
      var entry := field.entryHead;
      if entry == null { return bi, Failure(EINVAL); }
      EntryAt(field, 0);
      if field.ty == LOCAL {
        if |entry.data| == 1 { ae.local := entry.data[0]; }
      } else {
        if at + |entry.data| > buffer.Length { return bi, Failure(ERANGE); }
        Store(buffer, at, entry.data);
        ae.name := Some(at);
        bi := at + |entry.data|;
      }
    }
  }

  lemma MembersFail(entries: seq<Data>, size: nat, at: nat)
    ensures MembersEnd(entries, size, at).Failure? ==> MembersEnd(entries, size, at) == Failure(ERANGE)
  {
  }

  /** Fills `ae` and the buffer from the fields of a response behind its first one. The entries of
      a received response are never empty. */
  method Populate(response: Packet, ae: AliasEntry, buffer: array<byte>, address: nat -> Address) returns (end: Ending)
    requires response.Valid() && NoEmptyEntry(response.Model())
    modifies ae, buffer
    ensures match Pack(Payload(response.Model()), buffer.Length, address, old(ae.Value()))
            case Filled(record, bytes) =>
              end == Success && ae.Value() == record && |bytes| <= buffer.Length
              && buffer[..|bytes|] == bytes && buffer[|bytes|..] == old(buffer[|bytes|..])
            case TryAgain(e) => end == Failure(e)
            case Overrun => end == PastTable
  {
    hide PackOne, PackFrom, NoEmptyEntry, Packet.Valid, FieldNode.Valid, FieldNode.Model, Packet.Model,
         AliasEntry.Value;
    ghost var m, was := response.Model(), buffer[..];
    ghost var goal := Pack(Payload(m), buffer.Length, address, ae.Value());
    end := Success;
    SetLocal(ae);
    PacketHead(response);
    var field := if response.fieldHead != null then response.fieldHead.next else null;
    ghost var k := 1;
    var bi: nat := 0;
    assert Payload(m) == (if 1 < |m| then m[1..] else []) && buffer[..0] == [];
    while field != null
      invariant 1 <= k && field == if k < |m| then response.fields[k] else null
      invariant end == Success && bi <= buffer.Length && buffer[bi..] == was[bi..]
      invariant PackFrom(if k < |m| then m[k..] else [], buffer.Length, address, ae.Value(), buffer[..bi]) == goal
      decreases |m| - k
    {
      PacketField(response, k);
      NoEmptyAt(m, k);
      PackStep(m, k, buffer.Length, address, ae.Value(), buffer[..bi]);
      ghost var before, start := buffer[..], bi;
      OneGrows(m[k], buffer.Length, address, ae.Value(), buffer[..bi]);
      bi, end := PopulateField(field, ae, buffer, bi, address);
      if end != Success { return; }
      TailKept(buffer[..], before, was, start, bi);
      field, k := field.next, k + 1;
    }
    PackedAll(buffer.Length, address, ae.Value(), buffer[..bi]);
  }

  lemma TailKept(now: seq<byte>, before: seq<byte>, was: seq<byte>, i: nat, j: nat)
    requires i <= j <= |now| == |before| == |was| && before[i..] == was[i..] && now[j..] == before[j..]
    ensures now[j..] == was[j..]
  {
    assert before[j..] == before[i..][j - i..];
  }

  /** Packing the fields of a packet from field `k` on. */
  lemma PackStep(m: seq<Field>, k: nat, size: nat, address: nat -> Address, r: Record, bytes: seq<byte>)
    requires k < |m|
    ensures PackFrom(m[k..], size, address, r, bytes) ==
              match PackOne(m[k], size, address, r, bytes)
              case TryAgain(e) => TryAgain(e)
              case Overrun => Overrun
              case Filled(r', b') => PackFrom(if k + 1 < |m| then m[k + 1..] else [], size, address, r', b')
  {
    hide PackOne;
    assert m[k..][1..] == m[k + 1..];
  }

  lemma PackedAll(size: nat, address: nat -> Address, r: Record, bytes: seq<byte>)
    ensures PackFrom([], size, address, r, bytes) == Filled(r, bytes)
  {
  }

  method SetLocal(ae: AliasEntry)
    modifies ae
    ensures ae.Value() == old(ae.Value()).(local := 0)
  {
    ae.local := 0;
  }

  lemma OneGrows(f: Field, size: nat, address: nat -> Address, r: Record, bytes: seq<byte>)
    ensures var o := PackOne(f, size, address, r, bytes); o.Filled? ==> |bytes| <= |o.bytes|
  {
  }
}
