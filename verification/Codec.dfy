/**
  The wire format and its meaning, on values.

  A packet is a sequence of typed fields, each a sequence of byte entries. Field and entry
  chains are unbounded here; the 16-bit counters that the program keeps beside them are
  `Low16` of the chain lengths, so wrap-around is part of the model.
 */
module Codec {
  import opened Bytes
  import opened Wrappers

  const VERSION: uint16 := 110
  const HEADER_SIZE := 8
  const FIELD_HEADER_SIZE := 4
  const ENTRY_HEADER_SIZE := 2

  /** Entry data: its size is a uint16. */
  type Data = d: seq<byte> | |d| < 0x1_0000

  datatype Field = Field(ty: uint16, entries: seq<Data>)

  // ---------- encoding ----------

  function EncodeEntry(d: Data): seq<byte> { Put16(|d|) + d }

  function EncodeEntries(es: seq<Data>): seq<byte> {
    if es == [] then [] else EncodeEntry(es[0]) + EncodeEntries(es[1..])
  }

  function EncodeField(f: Field): seq<byte> {
    Put16(f.ty) + Put16(Low16(|f.entries|)) + EncodeEntries(f.entries)
  }

  function EncodeFields(p: seq<Field>): seq<byte> {
    if p == [] then [] else EncodeField(p[0]) + EncodeFields(p[1..])
  }

  function EncodeHeader(count: uint16, size: uint32): seq<byte> {
    Put16(VERSION) + Put16(count) + Put32(size)
  }

  /** The bytes on the wire: header, then every field in chain order. */
  function Encode(p: seq<Field>): seq<byte> {
    EncodeHeader(Low16(|p|), Low32(|EncodeFields(p)|)) + EncodeFields(p)
  }

  // ---------- the size the serializer allocates ----------

  function DataSize(es: seq<Data>): nat {
    if es == [] then 0 else |es[0]| + DataSize(es[1..])
  }

  /** Sum over the fields of what the entry counter and the entry sizes ask for. */
  function CountedFieldsSize(p: seq<Field>): nat {
    if p == [] then 0
    else ENTRY_HEADER_SIZE * Low16(|p[0].entries|) + DataSize(p[0].entries) + CountedFieldsSize(p[1..])
  }

  /** The body size computed from the counters. */
  function CountedSize(p: seq<Field>): nat {
    FIELD_HEADER_SIZE * Low16(|p|) + CountedFieldsSize(p)
  }

  ghost predicate CountersFit(p: seq<Field>) {
    |p| < 0x1_0000 && EntryCountersFit(p)
  }

  ghost predicate EntryCountersFit(p: seq<Field>) {
    forall i :: 0 <= i < |p| ==> |p[i].entries| < 0x1_0000
  }

  lemma {:induction false} EntriesSize(es: seq<Data>)
    ensures |EncodeEntries(es)| == ENTRY_HEADER_SIZE * |es| + DataSize(es)
  {
    if es != [] { EntriesSize(es[1..]); }
  }

  lemma CountersSplit(p: seq<Field>)
    requires p != []
    ensures EntryCountersFit(p) <==> |p[0].entries| < 0x1_0000 && EntryCountersFit(p[1..])
  {
    assert forall i :: 1 <= i < |p| ==> p[i] == p[1..][i - 1];
  }

  lemma NothingCounted()
    ensures EntryCountersFit([])
  {
  }

  lemma {:induction false} FieldsSize(p: seq<Field>)
    ensures FIELD_HEADER_SIZE * |p| + CountedFieldsSize(p) <= |EncodeFields(p)|
    ensures FIELD_HEADER_SIZE * |p| + CountedFieldsSize(p) == |EncodeFields(p)| <==> EntryCountersFit(p)
  {
    hide EncodeEntries, DataSize, EntryCountersFit, Low16;
    if p == [] {
      assert EntryCountersFit(p) by { NothingCounted(); }
    } else {
      EntriesSize(p[0].entries);
      Low16Holds(|p[0].entries|);
      FieldsSize(p[1..]);
      CountersSplit(p);
    }
  }

  /** The size computed from the counters is the size written by walking the links exactly
      when no 16-bit counter has wrapped; otherwise the allocation is too small. */
  lemma AllocationExact(p: seq<Field>)
    ensures CountedSize(p) <= |EncodeFields(p)|
    ensures CountedSize(p) == |EncodeFields(p)| <==> CountersFit(p)
  {
    hide EncodeFields, CountedFieldsSize, EntryCountersFit, Low16;
    Low16Holds(|p|);
    FieldsSize(p);
  }

  // ---------- decoding ----------

  datatype Parsed<+T> = Rejected | Parsed(value: T, pos: nat)

  /** Reads `n` entries. The size word at `pos` is read before it is known to lie inside the
      body, so up to three bytes behind the `size` body bytes are looked at. */
  function ParseEntries(b: seq<byte>, size: nat, pos: nat, n: nat): (r: Parsed<seq<Data>>)
    requires pos <= size && size + 3 <= |b|
    ensures r.Parsed? ==> pos <= r.pos <= size
    decreases n
  {
    if n == 0 then Parsed([], pos)
    else
      var len := Get16(b, pos);
      var next := pos + ENTRY_HEADER_SIZE + len;
      if next > size || len == 0 then Rejected
      else
        var d: Data := b[pos + ENTRY_HEADER_SIZE..next];
        var rest := ParseEntries(b, size, next, n - 1);
        if rest.Rejected? then Rejected else Parsed([d] + rest.value, rest.pos)
  }

  /** Reads one field: its header and as many entries as the header announces. */
  function ParseField(b: seq<byte>, size: nat, pos: nat): (r: Parsed<Field>)
    requires pos <= size && size + 3 <= |b|
    ensures r.Parsed? ==> pos <= r.pos <= size
  {
    if pos >= size then Rejected
    else
      var count := Get16(b, pos + 2);
      if pos + FIELD_HEADER_SIZE + count * ENTRY_HEADER_SIZE > size then Rejected
      else
        var es := ParseEntries(b, size, pos + FIELD_HEADER_SIZE, count);
        if es.Rejected? then Rejected else Parsed(Field(Get16(b, pos), es.value), es.pos)
  }

  /** Reads `n` fields, leaving repeated types as they stand on the wire. */
  function ParseFields(b: seq<byte>, size: nat, pos: nat, n: nat): (r: Parsed<seq<Field>>)
    requires pos <= size && size + 3 <= |b|
    ensures r.Parsed? ==> pos <= r.pos <= size
    decreases n
  {
    if n == 0 then Parsed([], pos)
    else
      var f := ParseField(b, size, pos);
      if f.Rejected? then Rejected
      else
        var rest := ParseFields(b, size, f.pos, n - 1);
        if rest.Rejected? then Rejected else Parsed([f.value] + rest.value, rest.pos)
  }

  /** The whole body: the first check compares the field count with the size. */
  function ParseBody(b: seq<byte>, size: nat, n: nat): (r: Parsed<seq<Field>>)
    requires size + 3 <= |b|
    ensures r.Parsed? ==> r.pos <= size
  {
    if size < n * FIELD_HEADER_SIZE then Rejected else ParseFields(b, size, 0, n)
  }

  ghost predicate NoEmptyEntry(p: seq<Field>) {
    forall i :: 0 <= i < |p| ==> [] !in p[i].entries
  }

  // What the decoder accepts is exactly the encoding of what it reads.

  lemma {:induction false} EntriesParsed(b: seq<byte>, size: nat, pos: nat, n: nat)
    requires pos <= size && size + 3 <= |b|
    requires ParseEntries(b, size, pos, n).Parsed?
    ensures var r := ParseEntries(b, size, pos, n);
            && |r.value| == n
            && (forall d :: d in r.value ==> d != [])
            && b[pos..r.pos] == EncodeEntries(r.value)
    decreases n
  {
    if n != 0 {
      var next := pos + ENTRY_HEADER_SIZE + Get16(b, pos);
      var r := ParseEntries(b, size, pos, n);
      EntriesParsed(b, size, next, n - 1);
      Put16Get16(b, pos);
      assert r.value[1..] == ParseEntries(b, size, next, n - 1).value;
      assert b[pos..r.pos] == b[pos..pos + 2] + b[pos + 2..next] + b[next..r.pos];
    }
  }

  lemma FieldParsed(b: seq<byte>, size: nat, pos: nat)
    requires pos <= size && size + 3 <= |b|
    requires ParseField(b, size, pos).Parsed?
    ensures var r := ParseField(b, size, pos);
            && [] !in r.value.entries
            && |r.value.entries| < 0x1_0000
            && b[pos..r.pos] == EncodeField(r.value)
  {
    var count := Get16(b, pos + 2);
    EntriesParsed(b, size, pos + 4, count);
    Put16Get16(b, pos);
    Put16Get16(b, pos + 2);
    var Parsed(r, end) := ParseField(b, size, pos);
    Cut(b, pos, pos + 4, end);
    Cut(b, pos, pos + 2, pos + 4);
    assert Low16(|r.entries|) == count;
  }

  lemma {:induction false} FieldsParsed(b: seq<byte>, size: nat, pos: nat, n: nat)
    requires pos <= size && size + 3 <= |b|
    requires ParseFields(b, size, pos, n).Parsed?
    ensures var r := ParseFields(b, size, pos, n);
            && |r.value| == n
            && NoEmptyEntry(r.value)
            && EntryCountersFit(r.value)
            && b[pos..r.pos] == EncodeFields(r.value)
    decreases n
  {
    if n != 0 {
      hide ParseField, EncodeField, EncodeFields, NoEmptyEntry, EntryCountersFit;
      var f := ParseField(b, size, pos);
      var rest := ParseFields(b, size, f.pos, n - 1);
      FieldParsed(b, size, pos);
      FieldsParsed(b, size, f.pos, n - 1);
      Cut(b, pos, f.pos, rest.pos);
      EncodeCons(f.value, rest.value);
      EmptyEntrySplit([f.value] + rest.value);
      CountersSplit([f.value] + rest.value);
    }
  }

  lemma EncodeCons(f: Field, p: seq<Field>)
    ensures EncodeFields([f] + p) == EncodeField(f) + EncodeFields(p)
  {
    assert ([f] + p)[1..] == p;
  }

  // Encodings are accepted exactly when they hold no empty entry.

  lemma {:induction false} EntriesAccepted(b: seq<byte>, size: nat, pos: nat, es: seq<Data>)
    requires size + 3 <= |b| && pos + |EncodeEntries(es)| <= size
    requires b[pos..pos + |EncodeEntries(es)|] == EncodeEntries(es)
    ensures ParseEntries(b, size, pos, |es|) ==
              if [] in es then Rejected else Parsed(es, pos + |EncodeEntries(es)|)
    decreases |es|
  {
    if es == [] {
      assert ParseEntries(b, size, pos, 0) == Parsed([], pos);
    } else {
      hide Put16, Get16, ParseEntries;
      var d, tail := es[0], EncodeEntries(es[1..]);
      var next := pos + 2 + |d|;
      Spells(b, pos, EncodeEntry(d), tail);
      Spells(b, pos, Put16(|d|), d);
      Get16At(b, pos, |d|);
      EntriesAccepted(b, size, next, es[1..]);
      ParseStep(b, size, pos, next, next + |tail|, es);
    }
  }

  /** The decoder takes an entry that is there, and goes on with the rest. */
  lemma ParseStep(b: seq<byte>, size: nat, pos: nat, next: nat, end: nat, es: seq<Data>)
    requires size + 3 <= |b| && es != [] && next == pos + ENTRY_HEADER_SIZE + |es[0]| <= size
    requires Get16(b, pos) == |es[0]| && b[pos + ENTRY_HEADER_SIZE..next] == es[0]
    requires ParseEntries(b, size, next, |es| - 1) == if [] in es[1..] then Rejected else Parsed(es[1..], end)
    ensures ParseEntries(b, size, pos, |es|) == if [] in es then Rejected else Parsed(es, end)
  {
    assert es == [es[0]] + es[1..];
  }

  lemma Get16At(b: seq<byte>, i: nat, x: uint16)
    requires i + 2 <= |b| && b[i..i + 2] == Put16(x)
    ensures Get16(b, i) == x
  {
    assert b[i] == b[i..i + 2][0] && b[i + 1] == b[i..i + 2][1];
  }

  lemma FieldText(f: Field)
    requires |f.entries| < 0x1_0000
    ensures EncodeField(f) == Put16(f.ty) + Put16(|f.entries|) + EncodeEntries(f.entries)
  {
  }

  lemma FieldAccepted(b: seq<byte>, size: nat, pos: nat, f: Field)
    requires size + 3 <= |b| && pos + |EncodeField(f)| <= size
    requires |f.entries| < 0x1_0000
    requires b[pos..pos + |EncodeField(f)|] == EncodeField(f)
    ensures ParseField(b, size, pos) ==
              if [] in f.entries then Rejected else Parsed(f, pos + |EncodeField(f)|)
  {
    hide Get16, Put16, EncodeEntries, EncodeField, ParseEntries;
    var es := EncodeEntries(f.entries);
    FieldText(f);
    Spells(b, pos, Put16(f.ty) + Put16(|f.entries|), es);
    Spells(b, pos, Put16(f.ty), Put16(|f.entries|));
    Get16At(b, pos, f.ty);
    Get16At(b, pos + 2, |f.entries|);
    EntriesSize(f.entries);
    EntriesAccepted(b, size, pos + 4, f.entries);
  }

  lemma {:induction false} FieldsAccepted(b: seq<byte>, size: nat, pos: nat, p: seq<Field>)
    requires size + 3 <= |b| && pos + |EncodeFields(p)| <= size
    requires EntryCountersFit(p)
    requires b[pos..pos + |EncodeFields(p)|] == EncodeFields(p)
    ensures ParseFields(b, size, pos, |p|) ==
              if NoEmptyEntry(p) then Parsed(p, pos + |EncodeFields(p)|) else Rejected
    decreases |p|
  {
    hide EncodeField, ParseField, NoEmptyEntry, EntryCountersFit;
    if p == [] {
      assert NoEmptyEntry(p) by { NoEmptyNil(); }
    } else {
      var f, rest := EncodeField(p[0]), p[1..];
      Spells(b, pos, f, EncodeFields(rest));
      CountersSplit(p);
      FieldAccepted(b, size, pos, p[0]);
      FieldsAccepted(b, size, pos + |f|, rest);
      AcceptedStep(b, size, pos, pos + |f|, pos + |f| + |EncodeFields(rest)|, p, rest);
    }
  }

  lemma NoEmptyAt(p: seq<Field>, k: nat)
    requires NoEmptyEntry(p) && k < |p|
    ensures [] !in p[k].entries
  {
    assert p[k] in p;
  }

  lemma NoEmptyNil()
    ensures NoEmptyEntry([])
  {
  }

  lemma AcceptedStep(b: seq<byte>, size: nat, pos: nat, mid: nat, end: nat, p: seq<Field>, rest: seq<Field>)
    requires p != [] && rest == p[1..] && pos <= size && mid <= size && size + 3 <= |b|
    requires ParseField(b, size, pos) == if [] in p[0].entries then Rejected else Parsed(p[0], mid)
    requires ParseFields(b, size, mid, |rest|) == if NoEmptyEntry(rest) then Parsed(rest, end) else Rejected
    ensures ParseFields(b, size, pos, |p|) == if NoEmptyEntry(p) then Parsed(p, end) else Rejected
  {
    hide ParseField, NoEmptyEntry;
    EmptyEntrySplit(p);
    assert p == [p[0]] + rest;
  }

  lemma EmptyEntrySplit(p: seq<Field>)
    requires p != []
    ensures NoEmptyEntry(p) <==> [] !in p[0].entries && NoEmptyEntry(p[1..])
  {
    assert forall i :: 1 <= i < |p| ==> p[i] == p[1..][i - 1];
  }

  /** Round trip on the wire, for every packet whose counters fit: parsing its encoding, with
      any bytes behind it, gives the packet back if it has no empty entry and fails otherwise. */
  lemma ParseEncoded(p: seq<Field>, slack: seq<byte>)
    requires CountersFit(p) && |slack| >= 3
    ensures ParseBody(EncodeFields(p) + slack, |EncodeFields(p)|, |p|) ==
              if NoEmptyEntry(p) then Parsed(p, |EncodeFields(p)|) else Rejected
  {
    var enc := EncodeFields(p);
    assert (enc + slack)[..|enc|] == enc;
    FieldsAccepted(enc + slack, |enc|, 0, p);
    FieldsSize(p);
  }

  // The bytes behind the body are read, but decide nothing.

  lemma Get16Agree(b: seq<byte>, c: seq<byte>, size: nat, i: nat)
    requires i + 2 <= size <= |b| && size <= |c| && b[..size] == c[..size]
    ensures Get16(b, i) == Get16(c, i)
  {
    assert b[i] == b[..size][i] && b[i + 1] == b[..size][i + 1];
    assert c[i] == c[..size][i] && c[i + 1] == c[..size][i + 1];
  }

  lemma SliceAgree(b: seq<byte>, c: seq<byte>, size: nat, i: nat, j: nat)
    requires i <= j <= size <= |b| && size <= |c| && b[..size] == c[..size]
    ensures b[i..j] == c[i..j]
  {
    forall k | i <= k < j
      ensures b[k] == c[k]
    {
      assert b[k] == b[..size][k] && c[k] == c[..size][k];
    }
  }

  lemma {:induction false} EntriesIgnoreSlack(b: seq<byte>, c: seq<byte>, size: nat, pos: nat, n: nat)
    requires pos <= size && size + 3 <= |b| && size + 3 <= |c| && b[..size] == c[..size]
    ensures ParseEntries(b, size, pos, n) == ParseEntries(c, size, pos, n)
    decreases n
  {
    hide Get16;
    if n != 0 && pos + 2 <= size {
      Get16Agree(b, c, size, pos);
      var next := pos + 2 + Get16(b, pos);
      if next <= size {
        SliceAgree(b, c, size, pos + 2, next);
        EntriesIgnoreSlack(b, c, size, next, n - 1);
      }
    }
  }

  lemma FieldIgnoresSlack(b: seq<byte>, c: seq<byte>, size: nat, pos: nat)
    requires pos <= size && size + 3 <= |b| && size + 3 <= |c| && b[..size] == c[..size]
    ensures ParseField(b, size, pos) == ParseField(c, size, pos)
  {
    hide Get16, ParseEntries;
    if pos + 4 <= size {
      Get16Agree(b, c, size, pos);
      Get16Agree(b, c, size, pos + 2);
      EntriesIgnoreSlack(b, c, size, pos + 4, Get16(b, pos + 2));
    }
  }

  lemma {:induction false} FieldsIgnoreSlack(b: seq<byte>, c: seq<byte>, size: nat, pos: nat, n: nat)
    requires pos <= size && size + 3 <= |b| && size + 3 <= |c| && b[..size] == c[..size]
    ensures ParseFields(b, size, pos, n) == ParseFields(c, size, pos, n)
    decreases n
  {
    if n != 0 {
      FieldIgnoresSlack(b, c, size, pos);
      var f := ParseField(b, size, pos);
      if f.Parsed? { FieldsIgnoreSlack(b, c, size, f.pos, n - 1); }
    }
  }

  /** Verdict and result depend on the first `size` bytes alone. */
  lemma ParseIgnoresSlack(b: seq<byte>, c: seq<byte>, size: nat, n: nat)
    requires size + 3 <= |b| && size + 3 <= |c| && b[..size] == c[..size]
    ensures ParseBody(b, size, n) == ParseBody(c, size, n)
  {
    FieldsIgnoreSlack(b, c, size, 0, n);
  }

  // ---------- the header ----------

  datatype Header = Header(count: uint16, size: uint32)

  function DecodeHeader(h: seq<byte>): Option<Header>
    requires |h| >= HEADER_SIZE
  {
    if Get16(h, 0) != VERSION then None else Some(Header(Get16(h, 2), Get32(h, 4)))
  }

  /** A header is accepted exactly when it is the encoding of what is read from it. */
  lemma HeaderInverse(h: seq<byte>, count: uint16, size: uint32)
    requires |h| == HEADER_SIZE
    ensures DecodeHeader(h) == Some(Header(count, size)) <==> h == EncodeHeader(count, size)
  {
    if DecodeHeader(h) == Some(Header(count, size)) {
      HeaderBytes(h);
    } else if h == EncodeHeader(count, size) {
      HeaderDecoded(count, size);
    }
  }

  lemma HeaderDecoded(count: uint16, size: uint32)
    ensures DecodeHeader(EncodeHeader(count, size)) == Some(Header(count, size))
  {
    var v, c, s := Put16(VERSION), Put16(count), Put32(size);
    Get16Put16(VERSION, [], c + s);
    assert v + c + s == [] + v + (c + s);
    Get16Put16(count, v, s);
    Get32Put32(size, v + c, []);
    assert v + c + s == (v + c) + s + [];
  }

  lemma HeaderBytes(h: seq<byte>)
    requires |h| == HEADER_SIZE
    ensures h == Put16(Get16(h, 0)) + Put16(Get16(h, 2)) + Put32(Get32(h, 4))
  {
    Put16Get16(h, 0);
    Put16Get16(h, 2);
    Put32Get32(h, 4);
    assert h == h[0..2] + h[2..4] + h[4..8];
  }
}
