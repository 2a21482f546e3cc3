/**
  Serialization between packets in memory and byte buffers.
 */
module Serialization {
  import opened Bytes
  import opened Wrappers
  import opened Codec
  import opened Merging
  import opened Packets
  import opened Readings

  /** Stores two bytes in network order. */
  method Store16(data: array<byte>, p: nat, x: uint16)
    requires p + 2 <= data.Length
    modifies data
    ensures data[..] == old(data[..p]) + Put16(x) + old(data[p + 2..])
  {
    data[p] := x / 0x100;
    data[p + 1] := x % 0x100;
  }

  method Store32(data: array<byte>, p: nat, x: uint32)
    requires p + 4 <= data.Length
    modifies data
    ensures data[..] == old(data[..p]) + Put32(x) + old(data[p + 4..])
  {
    data[p] := x / 0x100_0000;
    data[p + 1] := x / 0x1_0000 % 0x100;
    data[p + 2] := x / 0x100 % 0x100;
    data[p + 3] := x % 0x100;
  }

  method CopyData(data: array<byte>, p: nat, src: seq<byte>)
    requires p + |src| <= data.Length
    modifies data
    ensures data[..] == old(data[..p]) + src + old(data[p + |src|..])
  {
    forall k | 0 <= k < |src| {
      data[p + k] := src[k];
    }
  }

  method WriteEntry(data: array<byte>, p: nat, d: Data)
    requires p + |EncodeEntry(d)| <= data.Length
    modifies data
    ensures data[..p + |EncodeEntry(d)|] == old(data[..p]) + EncodeEntry(d)
    ensures data[p + |EncodeEntry(d)|..] == old(data[p + |EncodeEntry(d)|..])
  {
    Store16(data, p, |d|);
    CopyData(data, p + ENTRY_HEADER_SIZE, d);
  }

  method WriteHeader(data: array<byte>, count: uint16, size: uint32)
    requires HEADER_SIZE <= data.Length
    modifies data
    ensures data[..HEADER_SIZE] == EncodeHeader(count, size)
  {
    Store16(data, 0, VERSION);
    Store16(data, 2, count);
    Store32(data, 4, size);
  }

  /** The body size, from the counters and the entry sizes. */
  method MeasureBody(packet: Packet) returns (size: nat)
    requires packet.Valid()
    ensures size == CountedSize(packet.Model())
  {
    size := FIELD_HEADER_SIZE * packet.fieldCount as int;
    var field := packet.fieldHead;
    ghost var k, m := 0, packet.Model();
    while field != null
      invariant 0 <= k <= |m|
      invariant field == if k < |m| then packet.fields[k] else null
      invariant size + CountedFieldsSize(m[k..]) == CountedSize(m)
      decreases |m| - k
    {
      assert field in packet.fields && field.Valid();
      size := size + ENTRY_HEADER_SIZE * field.entryCount as int;
      var entry := field.entryHead;
      ghost var j, ds, base := 0, m[k].entries, size;
      while entry != null
        invariant 0 <= j <= |ds|
        invariant entry == if j < |ds| then field.entries[j] else null
        invariant size + DataSize(ds[j..]) == base + DataSize(ds)
        decreases |ds| - j
      {
        size := size + |entry.data|;
        entry, j := entry.next, j + 1;
      }
      field, k := field.next, k + 1;
    }
  }

  lemma EntriesStep(es: seq<Data>, j: nat)
    requires j < |es|
    ensures EncodeEntries(es[j..]) == EncodeEntry(es[j]) + EncodeEntries(es[j + 1..])
  {
    assert es[j..][1..] == es[j + 1..];
  }

  lemma FieldsStep(p: seq<Field>, k: nat)
    requires k < |p|
    ensures EncodeFields(p[k..]) == EncodeField(p[k]) + EncodeFields(p[k + 1..])
  {
    assert p[k..][1..] == p[k + 1..];
  }

  /** Writes the entries of a field from `start` on, walking the links, unless they run past the end
      of the buffer; touches nothing else. */
  method WriteEntries(field: FieldNode, data: array<byte>, start: nat) returns (p: nat, fits: bool)
    requires field.Valid() && start <= data.Length
    modifies data
    ensures fits <==> start + |EncodeEntries(DataOf(field.entries))| <= data.Length
    ensures fits ==>
              && p == start + |EncodeEntries(DataOf(field.entries))|
              && data[..p] == old(data[..start]) + EncodeEntries(DataOf(field.entries))
              && data[p..] == old(data[p..])
  {
    hide EncodeEntries, Put16;
    ghost var es, was := DataOf(field.entries), data[..];
    p := start;
    var entry := field.entryHead;
    ghost var j := 0;
    while entry != null
      invariant 0 <= j <= |es| && p <= data.Length
      invariant entry == if j < |es| then field.entries[j] else null
      invariant p + |EncodeEntries(es[j..])| == start + |EncodeEntries(es)|
      invariant data[..p] + EncodeEntries(es[j..]) == was[..start] + EncodeEntries(es)
      invariant data[p..] == was[p..]
      decreases |es| - j
    {
      ghost var n, before := |EncodeEntry(entry.data)|, data[..];
      EntriesStep(es, j);
      if p + ENTRY_HEADER_SIZE + |entry.data| > data.Length { return p, false; }
      assert before[p + n..] == before[p..][n..] == was[p..][n..] == was[p + n..];
      WriteEntry(data, p, entry.data);
      Assoc(before[..p], EncodeEntry(entry.data), EncodeEntries(es[j + 1..]));
      p := p + ENTRY_HEADER_SIZE + |entry.data|;
      entry, j := entry.next, j + 1;
    }
    assert es[j..] == [];
    NothingToWrite();
    fits := true;
  }

  /** Writes one field from `start` on, unless it runs past the end; touches nothing else. */
  method WriteField(field: FieldNode, data: array<byte>, start: nat) returns (p: nat, fits: bool)
    requires field.Valid() && start <= data.Length
    modifies data
    ensures fits <==> start + |EncodeField(field.Model())| <= data.Length
    ensures fits ==>
              && p == start + |EncodeField(field.Model())|
              && data[..p] == old(data[..start]) + EncodeField(field.Model())
              && data[p..] == old(data[p..])
  {
    if start + FIELD_HEADER_SIZE > data.Length { return start, false; }
    Store16(data, start, field.ty);
    Store16(data, start + 2, field.entryCount);
    ghost var was := old(data[..start]);
    ghost var header := Put16(field.ty) + Put16(field.entryCount);
    assert data[..start + FIELD_HEADER_SIZE] == was + header;
    p, fits := WriteEntries(field, data, start + FIELD_HEADER_SIZE);
    Assoc(was, header, EncodeEntries(DataOf(field.entries)));
  }

  /** The buffer, zeroed, sized from the counters, and the header and fields written into it. */
  method WriteBuffer(packet: Packet, size: nat, bodySize: nat) returns (data: array<byte>, fits: bool)
    requires packet.Valid()
    requires bodySize == CountedSize(packet.Model()) && size == HEADER_SIZE + bodySize
    ensures fits <==> CountersFit(packet.Model())
    ensures fresh(data) && (fits ==> data[..] == Encode(packet.Model()))
  {
    hide Packet.Valid, Packet.Model, EncodeFields, CountedSize, CountersFit;
    AllocationExact(packet.Model());
    CountIsLow(packet);
    data := new byte[size](_ => 0);
    WriteHeader(data, packet.fieldCount, Low32(bodySize));
    var p;
    p, fits := WriteFields(packet, data);
    if fits { assert data[..p] == data[..]; }
  }

  lemma CountIsLow(packet: Packet)
    requires packet.Valid()
    ensures packet.fieldCount as int == Low16(|packet.Model()|)
  {
  }

  /** The writing loop: every field in chain order behind the header, up to one that runs past the
      end of the buffer. */
  method WriteFields(packet: Packet, data: array<byte>) returns (p: nat, fits: bool)
    requires packet.Valid() && HEADER_SIZE <= data.Length
    modifies data
    ensures fits <==> HEADER_SIZE + |EncodeFields(packet.Model())| <= data.Length
    ensures fits ==>
              && p == HEADER_SIZE + |EncodeFields(packet.Model())|
              && data[..p] == old(data[..HEADER_SIZE]) + EncodeFields(packet.Model())
  {
    hide EncodeField, EncodeFields;
    ghost var m := packet.Model();
    var field := packet.fieldHead;
    p := HEADER_SIZE;
    ghost var k := 0;
    while field != null
      invariant 0 <= k <= |m| && p <= data.Length
      invariant field == if k < |m| then packet.fields[k] else null
      invariant p + |EncodeFields(m[k..])| == HEADER_SIZE + |EncodeFields(m)|
      invariant data[..p] + EncodeFields(m[k..]) == old(data[..HEADER_SIZE]) + EncodeFields(m)
      decreases |m| - k
    {
      assert field in packet.fields && field.Valid();
      ghost var before := data[..p];
      FieldsStep(m, k);
      p, fits := WriteField(field, data, p);
      if !fits { return; }
      Assoc(before, EncodeField(m[k]), EncodeFields(m[k + 1..]));
      field, k := field.next, k + 1;
    }
    assert m[k..] == [];
    NothingToWrite();
    fits := true;
  }

  lemma NothingToWrite()
    ensures EncodeFields([]) == [] && EncodeEntries([]) == []
  {
  }

  // ---------- decoding ----------

  /** `ntohs` of two buffer bytes. */
  function Load16(data: array<byte>, p: nat): (x: uint16)
    requires p + 2 <= data.Length
    reads data
    ensures x == Get16(data[..], p)
  {
    (data[p] as int) * 0x100 + data[p + 1]
  }

  /** What reading on from a parser state does to the field at position `i`. */
  function Onto(p: seq<Field>, i: nat, r: Parsed<seq<Data>>): Option<(seq<Field>, nat)>
    requires i < |p|
  {
    if r.Rejected? then None else Some((AppendAt(p, i, r.value), r.pos))
  }

  lemma OntoStep(p: seq<Field>, i: nat, b: seq<byte>, size: nat, pos: nat, n: nat)
    requires i < |p| && n > 0 && pos <= size && size + 3 <= |b|
    ensures var next := pos + ENTRY_HEADER_SIZE + Get16(b, pos);
            Onto(p, i, ParseEntries(b, size, pos, n)) ==
              if next > size || Get16(b, pos) == 0 then None
              else Onto(AppendAt(p, i, [b[pos + ENTRY_HEADER_SIZE..next]]), i, ParseEntries(b, size, next, n - 1))
  {
    var next := pos + ENTRY_HEADER_SIZE + Get16(b, pos);
    if next <= size && Get16(b, pos) != 0 {
      var d: Data := b[pos + ENTRY_HEADER_SIZE..next];
      var rest := ParseEntries(b, size, next, n - 1);
      if rest.Parsed? {
        Assoc(p[i].entries, [d], rest.value);
        var q := AppendAt(p, i, [d]);
        assert AppendAt(q, i, rest.value) == AppendAt(p, i, [d] + rest.value);
      }
    }
  }

  lemma AppendNothing(p: seq<Field>, i: nat)
    requires i < |p|
    ensures AppendAt(p, i, []) == p
  {
    assert p[i].entries + [] == p[i].entries;
  }

  lemma OntoDone(m: seq<Field>, now: seq<Field>, i: nat, r: Parsed<seq<Data>>, p: nat)
    requires i < |m| && i < |now| && Onto(now, i, Parsed([], p)) == Onto(m, i, r)
    ensures r.Parsed? && r.pos == p && now == AppendAt(m, i, r.value)
  {
    AppendNothing(now, i);
  }

  /** One entry of the field at position `i`. On failure the field is freed while still linked, so
      nothing is said about the packet then. */
  method ReadEntry(packet: Packet, ghost i: nat, field: FieldNode, body: array<byte>, ghost b: seq<byte>, size: nat,
                   start: nat, memory: bool)
    returns (ok: bool, p: nat)
    requires packet.Valid() && i < |packet.fields| && packet.fields[i] == field
    requires start <= size && size + 3 <= |b| && body[..] == b
    modifies packet`nodes, field, packet.nodes
    ensures p == start + ENTRY_HEADER_SIZE + Get16(b, start)
    ensures ok <==> p <= size && p != start + ENTRY_HEADER_SIZE && memory
    ensures ok ==> packet.Valid() && packet.fields == old(packet.fields) && fresh(packet.nodes - old(packet.nodes))
    ensures ok ==> packet.Model() == AppendAt(old(packet.Model()), i, [b[start + ENTRY_HEADER_SIZE..p]])
  {
    var len := Load16(body, start);
    p := start + ENTRY_HEADER_SIZE + len;
    if p > size {
      var _ := field.Finalize();
      return false, p;
    }
    var data := body[start + ENTRY_HEADER_SIZE..p];
    assert Copied(len, Some(data)) == data;
    ok := packet.EntryAdd(i, field, len, Some(data), memory);
    if !ok {
      var _ := field.Finalize();
    }
  }

  /** The inner loop of the decoder; `memory(k)` is the outcome of the k-th allocation. The ghost
      arguments are the buffer contents and the packet at entry; `es` are the entries read. */
  method ReadEntries(packet: Packet, ghost m: seq<Field>, ghost i: nat, field: FieldNode,
                     body: array<byte>, ghost b: seq<byte>, size: nat,
                     start: nat, count: uint16, memory: nat -> bool, tick: nat)
    returns (ok: bool, p: nat, next: nat, ghost es: seq<Data>)
    requires packet.Valid() && packet.Model() == m && i < |packet.fields| && packet.fields[i] == field
    requires start <= size && size + 3 <= |b| && body[..] == b
    modifies packet`nodes, field, packet.nodes
    ensures ok ==> packet.Valid() && packet.fields == old(packet.fields) && fresh(packet.nodes - old(packet.nodes))
    ensures ok <==> EntriesGo(b, size, start, count, memory, tick)
    ensures ok ==> p <= size && ParseEntries(b, size, start, count) == Parsed(es, p) && next == tick + count
    ensures ok ==> packet.Model() == AppendAt(m, i, es)
  {
    hide Packet.Valid, Packet.Model, EntriesGo, ParseEntries, Onto, AppendAt, Get16;
    p, next, es := start, tick, [];
    ghost var now, goal := m, Onto(m, i, ParseEntries(b, size, start, count));
    for entry := 0 to count
      invariant packet.Valid() && packet.fields == old(packet.fields) && fresh(packet.nodes - old(packet.nodes))
      invariant p <= size && body[..] == b
      invariant packet.Model() == now && |now| == |m|
      invariant Onto(now, i, ParseEntries(b, size, p, count - entry)) == goal
      invariant next == tick + entry
      invariant EntriesGo(b, size, p, count - entry, memory, next) <==> EntriesGo(b, size, start, count, memory, tick)
    {
      OntoStep(now, i, b, size, p, count - entry);
      GoStep(b, size, p, count - entry, memory, next);
      ok, p := ReadEntry(packet, i, field, body, b, size, p, memory(next));
      if !ok { return; }
      now := packet.Model();
      next := next + 1;
    }
    NothingToGo(b, size, p, memory, next);
    OntoDone(m, now, i, ParseEntries(b, size, start, count), p);
    es := ParseEntries(b, size, start, count).value;
    ok := true;
  }

  /** The fields and entries of the packet are those given or were allocated since. */
  twostate predicate Grown(new packet: Packet, fields: seq<FieldNode>, nodes: set<EntryNode>)
    reads packet
  {
    && (forall k :: 0 <= k < |packet.fields| ==> packet.fields[k] in fields || fresh(packet.fields[k]))
    && fresh(packet.nodes - nodes)
  }

  /** The checks on a field header, and the field that its entries go to: number `i`. */
  method OpenField(packet: Packet, ghost m: seq<Field>, body: array<byte>, ghost b: seq<byte>, size: nat,
          start: nat, memory: bool)
    returns (field: FieldNode?, ty: uint16, count: uint16, ghost i: nat)
    requires packet.Valid() && packet.Model() == m
    requires start <= size && size + 3 <= |b| && body[..] == b
    modifies packet, packet.fields
    ensures field == null <==> HeaderRefused(m, b, size, start, memory)
    ensures field == null ==>
              && packet.Valid() && packet.Model() == m
              && packet.fields == old(packet.fields) && packet.nodes == old(packet.nodes)
    ensures field != null ==>
              && packet.Valid() && packet.nodes == old(packet.nodes)
              && (packet.fields == old(packet.fields) ||
                  (packet.fields == old(packet.fields) + [field] && fresh(field)))
              && i < |packet.fields| && packet.fields[i] == field
              && start + FIELD_HEADER_SIZE <= size
              && ReadsAs(m, packet.Model(), b, size, start, ty, count, i)
  {
    field, ty, count, i := null, 0, 0, 0;
    if start >= size { return; }
    ty, count := Load16(body, start), Load16(body, start + 2);
    if start + FIELD_HEADER_SIZE + count * ENTRY_HEADER_SIZE > size { return; }
    i := IndexOf(m, ty);
    field := packet.GetOrAdd(ty, memory);
  }

  /** The field at `start` has `count` entries, and goes to number `i` of `q`, which is `p` with an
      empty field added if need be. */
  ghost predicate ReadsAs(p: seq<Field>, q: seq<Field>, b: seq<byte>, size: nat, start: nat, ty: uint16,
          count: uint16, i: nat)
    requires start + FIELD_HEADER_SIZE <= size && size + 3 <= |b|
  {
    && ty == Get16(b, start) && count == Get16(b, start + 2)
    && start + FIELD_HEADER_SIZE + count * ENTRY_HEADER_SIZE <= size
    && q == Merging.GetOrAdd(p, ty) && i == IndexOf(p, ty)
  }

  /** Reading its entries reads the field, and appending them to number `i` absorbs it. */
  lemma FieldRead(p: seq<Field>, q: seq<Field>, b: seq<byte>, size: nat, start: nat, ty: uint16, count: uint16, i: nat)
    requires start + FIELD_HEADER_SIZE <= size && size + 3 <= |b|
    requires ReadsAs(p, q, b, size, start, ty, count, i)
    ensures i < |q|
    ensures var es := ParseEntries(b, size, start + FIELD_HEADER_SIZE, count);
            if es.Rejected? then ParseField(b, size, start) == Rejected
            else && ParseField(b, size, start) == Parsed(Field(ty, es.value), es.pos)
                 && Absorb(p, Field(ty, es.value)) == AppendAt(q, i, es.value)
  {
  }

  /** Whether a packet has been read; if not, whether it is in order or must not be used any more. */
  datatype Status = Read | Clean | Broken

  /** The packet after reading. */
  ghost predicate Left(r: Reading, status: Status, packet: Packet)
    reads packet, packet.fields, packet.nodes
  {
    match r
    case Accepted(p) => status == Read && packet.Valid() && packet.Model() == p
    case Refused(p) => status == Clean && packet.Valid() && packet.Model() == p
    case Dangling => status == Broken
  }

  /** One turn of the outer decoder loop. */
  method ReadField(packet: Packet, ghost m: seq<Field>, body: array<byte>, ghost b: seq<byte>, size: nat,
                   start: nat, memory: nat -> bool, tick: nat)
    returns (status: Status, p: nat, next: nat, ghost f: Field)
    requires packet.Valid() && packet.Model() == m
    requires start <= size && size + 3 <= |b| && body[..] == b
    modifies packet, packet.fields, packet.nodes
    ensures !status.Broken? ==> packet.Valid() && Grown(packet, old(packet.fields), old(packet.nodes))
    ensures status.Clean? <==> HeaderRefused(m, b, size, start, memory(tick))
    ensures status.Clean? ==> packet.Model() == m
    ensures !status.Clean? ==>
              (status.Read? <==> EntriesGo(b, size, start + FIELD_HEADER_SIZE, Get16(b, start + 2), memory, tick + 1))
    ensures status.Read? ==> p <= size && ParseField(b, size, start) == Parsed(f, p) && packet.Model() == Absorb(m, f)
    ensures status.Read? ==> next == tick + 1 + Get16(b, start + 2)
  {
    hide Packet.Valid, Packet.Model, EntriesGo, HeaderRefused;
    ghost var q, i, es;
    var field, ty, count, ok;
    HeaderInside(m, b, size, start, memory(tick));
    field, ty, count, i := OpenField(packet, m, body, b, size, start, memory(tick));
    if field == null { return Clean, start, tick, Field(0, []); }
    q := packet.Model();
    FieldRead(m, q, b, size, start, ty, count, i);
    ok, p, next, es := ReadEntries(packet, q, i, field, body, b, size, start + FIELD_HEADER_SIZE, count,
                                   memory, tick + 1);
    status := if ok then Read else Broken;
    f := Field(ty, es);
  }

  /** The outer decoder loop. */
  method ReadFields(packet: Packet, ghost m: seq<Field>, body: array<byte>, ghost b: seq<byte>, size: nat,
                    count: uint16, memory: nat -> bool)
    returns (status: Status)
    requires packet.Valid() && packet.Model() == m
    requires size + 3 <= |b| && body[..] == b
    modifies packet, packet.fields, packet.nodes
    ensures Left(ReadFrom(m, b, size, 0, count, memory, 0), status, packet)
    ensures !status.Broken? ==> Grown(packet, old(packet.fields), old(packet.nodes))
  {
    hide Packet.Valid, Packet.Model, Absorb, ParseField, HeaderRefused, EntriesGo;
    var p: nat, next: nat := 0, 0;
    ghost var now, goal := m, ReadFrom(m, b, size, 0, count, memory, 0);
    for i := 0 to count
      invariant packet.Valid() && Grown(packet, old(packet.fields), old(packet.nodes))
      invariant p <= size && body[..] == b
      invariant packet.Model() == now
      invariant ReadFrom(now, b, size, p, count - i, memory, next) == goal
    {
      ghost var f;
      status, p, next, f := ReadField(packet, now, body, b, size, p, memory, next);
      if !status.Read? { return; }
      now := packet.Model();
    }
    status := Read;
  }

  /** How serializing ends; with a wrapped counter the program writes past its allocation. */
  datatype Written = Whole | NoMemory | PastEnd

  /** The serialized form: total size, body size, field count and the buffer. */
  class SerialPacket {
    var size: nat
    var bodySize: nat
    var fieldCount: uint16
    var data: array?<byte>

    constructor ()
      ensures size == 0 && bodySize == 0 && data == null
    {
      size, bodySize, fieldCount, data := 0, 0, 0, null;
    }

    /** Sizes the buffer from the counters and writes it by walking the links. It is filled exactly
        if no counter has wrapped; otherwise the program writes past its end. */
    method Serialize(packet: Packet, memory: bool) returns (end: Written)
      requires packet.Valid()
      modifies this
      ensures fieldCount as int == Low16(|packet.Model()|)
      ensures bodySize == CountedSize(packet.Model()) && size == HEADER_SIZE + bodySize
      ensures end == if !memory then NoMemory else if CountersFit(packet.Model()) then Whole else PastEnd
      ensures end.Whole? ==>
                fresh(data) && data[..] == Encode(packet.Model()) && bodySize == |EncodeFields(packet.Model())|
    {
      hide Packet.Valid, Packet.Model, EncodeFields, Encode, CountedSize, CountersFit;
      var body := MeasureBody(packet);
      ghost var m := packet.Model();
      AllocationExact(m);
      CountIsLow(packet);
      var buffer: array?<byte> := null;
      end := NoMemory;
      if memory {
        var fits;
        buffer, fits := WriteBuffer(packet, body + HEADER_SIZE, body);
        end := if fits then Whole else PastEnd;
      }
      fieldCount, bodySize, size, data := packet.fieldCount, body, body + HEADER_SIZE, buffer;
      assert packet.Model() == m;
    }

    /** Accepts a header of the right version and records what it announces. */
    method UnserializeHeader(header: seq<byte>) returns (ok: bool)
      requires |header| == HEADER_SIZE
      modifies this
      ensures ok <==> DecodeHeader(header).Some?
      ensures ok ==> var h := DecodeHeader(header).value;
                     fieldCount == h.count && bodySize == h.size && size == HEADER_SIZE + bodySize
      ensures data == old(data)
    {
      if Get16(header, 0) != VERSION { return false; }
      fieldCount := Get16(header, 2);
      bodySize := Get32(header, 4);
      size := HEADER_SIZE + bodySize;
      return true;
    }

    /** Decodes the body onto `packet`. The buffer holds `bodySize` bytes and three more, which are
        read and ignored. `memory(k)` is the outcome of the k-th allocation. */
    method UnserializeBody(packet: Packet, body: array<byte>, memory: nat -> bool) returns (status: Status)
      requires packet.Valid() && bodySize + 3 <= body.Length
      modifies packet, packet.fields, packet.nodes
      ensures Left(ReadBody(old(packet.Model()), body[..], bodySize, fieldCount, memory), status, packet)
      ensures !status.Broken? ==> Grown(packet, old(packet.fields), old(packet.nodes))
    {
      if bodySize < fieldCount as int * FIELD_HEADER_SIZE { return Clean; }
      status := ReadFields(packet, packet.Model(), body, body[..], bodySize, fieldCount, memory);
    }
  }
}
