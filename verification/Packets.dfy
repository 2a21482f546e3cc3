/**
  The packet in memory: doubly linked fields, each with doubly linked entries, and 16-bit
  counters beside the links. Nodes are heap objects; the ghost sequences `fields` and `entries`
  name them in chain order. `malloc` outcomes are parameters called `memory`.
 */
module Packets {
  import opened Bytes
  import opened Wrappers
  import opened Codec
  import opened Merging

  class EntryNode {
    const data: Data  // the copy made by memcpy; its length is the `size` field
    var next: EntryNode?
    var previous: EntryNode?
    ghost const owner: FieldNode

    constructor (data: Data, ghost owner: FieldNode)
      ensures this.data == data && this.owner == owner
      ensures next == null && previous == null
    {
      this.data, this.owner := data, owner;
      next, previous := null, null;
    }
  }

  ghost predicate EntryChain(s: seq<EntryNode>, head: EntryNode?, tail: EntryNode?)
    reads s`next, s`previous
  {
    && (if s == [] then head == null && tail == null else head == s[0] && tail == s[|s| - 1])
    && (forall i {:trigger s[i].next} :: 0 <= i < |s| ==> s[i].next == if i + 1 < |s| then s[i + 1] else null)
    && (forall i {:trigger s[i].previous} :: 0 <= i < |s| ==> s[i].previous == if 0 < i then s[i - 1] else null)
    && Distinct(s)
  }

  /** What `memcpy` makes of a pointer to at least `size` bytes, or of NULL. */
  function Copied(size: uint16, data: Option<seq<byte>>): Data
    requires data.Some? ==> size <= |data.value|
  {
    if data.Some? then data.value[..size] else []
  }

  /** It is the bytes pointed to, whatever lies behind them. */
  lemma CopiedIs(d: Data, behind: seq<byte>)
    ensures Copied(|d|, Some(d + behind)) == d && Copied(|d|, None) == []
  {
    assert (d + behind)[..|d|] == d;
  }

  ghost function DataOf(s: seq<EntryNode>): (r: seq<Data>)
    ensures |r| == |s|
  {
    seq(|s|, i requires 0 <= i < |s| => s[i].data)
  }

  class FieldNode {
    var entryCount: uint16
    var entryHead: EntryNode?
    var entryTail: EntryNode?
    var ty: uint16
    var next: FieldNode?
    var previous: FieldNode?
    ghost var entries: seq<EntryNode>

    /** The equivalence makes this one proof obligation wherever it is required. */
    ghost predicate Valid()
      reads `entryCount, `entryHead, `entryTail, `entries, entries
    {
      Linked() <==> true
    }

    ghost predicate Linked()
      reads `entryCount, `entryHead, `entryTail, `entries, entries
    {
      && entryCount == Low16(|entries|)
      && EntryChain(entries, entryHead, entryTail)
      && forall i :: 0 <= i < |entries| ==> entries[i].owner == this
    }

    ghost predicate Within(nodes: set<EntryNode>)
      reads `entries
    {
      forall k :: 0 <= k < |entries| ==> entries[k] in nodes
    }

    ghost function Model(): Field
      reads `ty, `entries
    {
      Field(ty, DataOf(entries))
    }

    constructor (ty: uint16)
      ensures Valid() && entries == [] && this.ty == ty
      ensures next == null && previous == null
    {
      entryCount, entryHead, entryTail := 0, null, null;
      this.ty := ty;
      next, previous := null, null;
      entries := [];
    }

    /** The stores of `_entry_add` under the entry lock. */
    method LinkTail(entry: EntryNode)
      requires Valid() && entry !in entries && entry.owner == this
      requires entry.next == null && entry.previous == null
      modifies `entryCount, `entryHead, `entryTail, `entries, entries`next, entry`previous
      ensures Valid() && entries == old(entries) + [entry]
    {
      hide Low16;
      if entryHead == null { entryHead := entry; }
      entry.previous := entryTail;
      if entry.previous != null { entry.previous.next := entry; }
      entryTail := entry;
      Low16Next(|entries|);
      entryCount := (entryCount + 1) % 0x1_0000;
      ghost var was := entries;
      entries := was + [entry];
      assert forall k :: 0 <= k < |was| ==> entries[k] == was[k];
      assert Distinct(entries);
      assert forall i {:trigger entries[i].next} :: 0 <= i < |entries| ==>
               entries[i].next == if i + 1 < |entries| then entries[i + 1] else null;
      assert forall i {:trigger entries[i].previous} :: 0 <= i < |entries| ==>
               entries[i].previous == if 0 < i then entries[i - 1] else null;
      assert EntryChain(entries, entryHead, entryTail);
      assert Linked();
    }

    /** The stores of `_entry_inject` under the entry lock. */
    method LinkHead(entry: EntryNode)
      requires Valid() && entry !in entries && entry.owner == this
      requires entry.next == null && entry.previous == null
      modifies `entryCount, `entryHead, `entryTail, `entries, entries`previous, entry`next
      ensures Valid() && entries == [entry] + old(entries)
    {
      hide Low16;
      if entryTail == null { entryTail := entry; }
      entry.next := entryHead;
      if entry.next != null { entry.next.previous := entry; }
      entryHead := entry;
      Low16Next(|entries|);
      entryCount := (entryCount + 1) % 0x1_0000;
      ghost var was := entries;
      entries := [entry] + was;
      assert forall k :: 1 <= k < |entries| ==> entries[k] == was[k - 1];
      assert Distinct(entries);
      assert forall i {:trigger entries[i].next} :: 0 <= i < |entries| ==>
               entries[i].next == if i + 1 < |entries| then entries[i + 1] else null;
      assert forall i {:trigger entries[i].previous} :: 0 <= i < |entries| ==>
               entries[i].previous == if 0 < i then entries[i - 1] else null;
      assert EntryChain(entries, entryHead, entryTail);
      assert Linked();
    }

    /** Appends a copy of `size` bytes; `data` is None for a NULL pointer. */
    method EntryAdd(size: uint16, data: Option<seq<byte>>, memory: bool) returns (ok: bool)
      requires Valid()
      requires data.Some? ==> size <= |data.value|
      modifies `entryCount, `entryHead, `entryTail, `entries, entries`next
      ensures Valid()
      ensures ok <==> memory && (size == 0 <==> data.None?)
      ensures !ok ==> entries == old(entries)
      ensures ok ==> |entries| == |old(entries)| + 1 && entries[..|old(entries)|] == old(entries)
                     && fresh(entries[|old(entries)|])
      ensures ok ==> Model() == Field(ty, old(Model()).entries + [Copied(size, data)])
    {
      if (size == 0 && data.Some?) || (size != 0 && data.None?) { return false; }
      if !memory { return false; }
      var entry := new EntryNode(Copied(size, data), this);
      LinkTail(entry);
      return true;
    }

    /** Prepends a copy of `size` bytes. */
    method EntryInject(size: uint16, data: Option<seq<byte>>, memory: bool) returns (ok: bool)
      requires Valid()
      requires data.Some? ==> size <= |data.value|
      modifies `entryCount, `entryHead, `entryTail, `entries, entries`previous
      ensures Valid()
      ensures ok <==> memory && (size == 0 <==> data.None?)
      ensures !ok ==> entries == old(entries)
      ensures ok ==> |entries| == |old(entries)| + 1 && entries[1..] == old(entries)
                     && fresh(entries[0])
      ensures ok ==> Model() == Field(ty, [Copied(size, data)] + old(Model()).entries)
    {
      if (size == 0 && data.Some?) || (size != 0 && data.None?) { return false; }
      if !memory { return false; }
      var entry := new EntryNode(Copied(size, data), this);
      LinkHead(entry);
      return true;
    }

    /** The entry at `offset`, or null. */
    method EntryGet(offset: uint16) returns (entry: EntryNode?)
      requires Valid()
      ensures entry == if offset < entryCount then entries[offset] else null
    {
      if offset >= entryCount { return null; }
      var i, c := entryHead, 0;
      while i != null
        invariant 0 <= c <= offset < |entries|
        invariant i == entries[c]
        decreases |entries| - c
      {
        if c == offset { return i; }
        i, c := i.next, c + 1;
      }
      assert false;
    }

    /** Frees every entry, in chain order, and resets the field. */
    method Finalize() returns (freed: seq<EntryNode>)
      requires Valid()
      modifies this
      ensures freed == old(entries)
      ensures Valid() && entries == [] && ty == 0 && next == null && previous == null
    {
      freed := [];
      var i := entryHead;
      var ni := if i != null then i.next else null;
      while i != null
        invariant |freed| <= |entries| && freed == entries[..|freed|]
        invariant i == if |freed| < |entries| then entries[|freed|] else null
        invariant ni == if i != null then i.next else null
        decreases |entries| - |freed|
      {
        assert i !in freed;
        freed := freed + [i];
        i := ni;
        ni := if i != null then i.next else null;
      }
      entryCount, ty := 0, 0;
      entryHead, entryTail := null, null;
      next, previous := null, null;
      entries := [];
    }
  }

  ghost predicate FieldChain(s: seq<FieldNode>, head: FieldNode?, tail: FieldNode?)
    reads s`next, s`previous
  {
    && (if s == [] then head == null && tail == null else head == s[0] && tail == s[|s| - 1])
    && (forall i {:trigger s[i].next} :: 0 <= i < |s| ==> s[i].next == if i + 1 < |s| then s[i + 1] else null)
    && (forall i {:trigger s[i].previous} :: 0 <= i < |s| ==> s[i].previous == if 0 < i then s[i - 1] else null)
    && Distinct(s)
  }

  /** Valid fields whose entries are among `nodes`. */
  ghost predicate AllValid(s: seq<FieldNode>, nodes: set<EntryNode>)
    reads s, nodes
  {
    forall f :: f in s ==> f.Within(nodes) && f.Valid()
  }

  /** All entries, field by field. */
  ghost function Flatten(s: seq<FieldNode>): seq<EntryNode>
    reads s
  {
    if s == [] then [] else s[0].entries + Flatten(s[1..])
  }

  /** The entries of the last fields, for every number of them. */
  lemma {:induction false} FlattenTails(s: seq<FieldNode>) returns (rest: seq<seq<EntryNode>>)
    ensures |rest| == |s| + 1 && rest[0] == Flatten(s) && rest[|s|] == []
    ensures forall k :: 0 <= k < |s| ==> rest[k] == s[k].entries + rest[k + 1]
  {
    if s == [] {
      rest := [[]];
    } else {
      var tails := FlattenTails(s[1..]);
      rest := [Flatten(s)] + tails;
    }
  }

  ghost function ModelOf(s: seq<FieldNode>): (p: seq<Field>)
    reads s
    ensures |p| == |s|
    ensures forall i :: 0 <= i < |p| ==> p[i] == s[i].Model()
  {
    seq(|s|, i requires 0 <= i < |s| reads s => s[i].Model())
  }

  /** The part that append and insert share: a field not yet linked, holding one entry. */
  method NewField(ty: uint16, size: uint16, data: Option<seq<byte>>, fieldMemory: bool, entryMemory: bool)
    returns (field: FieldNode?)
    requires data.Some? ==> size <= |data.value|
    ensures field != null <==> fieldMemory && entryMemory && (size == 0 <==> data.None?)
    ensures field != null ==>
              && fresh(field) && field.Valid() && field.next == null && field.previous == null
              && (forall e :: e in field.entries ==> fresh(e))
              && field.Model() == Field(ty, [Copied(size, data)])
  {
    if !fieldMemory { return null; }
    field := new FieldNode(ty);
    var ok := field.EntryAdd(size, data, entryMemory);
    if !ok {
      var _ := field.Finalize();
      return null;
    }
  }

  class Packet {
    var fieldCount: uint16
    var fieldHead: FieldNode?
    var fieldTail: FieldNode?
    ghost var fields: seq<FieldNode>
    ghost var nodes: set<EntryNode>  // holds every entry of every field

    /** The equivalence makes this one proof obligation wherever it is required. */
    ghost predicate Valid()
      reads this, fields, nodes
    {
      Linked() <==> true
    }

    ghost predicate Linked()
      reads this, fields, nodes
    {
      && fieldCount == Low16(|fields|)
      && FieldChain(fields, fieldHead, fieldTail)
      && AllValid(fields, nodes)
    }

    ghost function Model(): (p: seq<Field>)
      reads this, fields
      ensures |p| == |fields|
    {
      ModelOf(fields)
    }

    constructor ()
      ensures Valid() && fields == [] && nodes == {} && Model() == []
    {
      fieldCount, fieldHead, fieldTail, fields := 0, null, null, [];
      nodes := {};
    }

    /** The stores of `_field_add_locked`. */
    method LinkTail(field: FieldNode)
      requires fieldCount == Low16(|fields|) && FieldChain(fields, fieldHead, fieldTail)
      requires field !in fields && field.next == null && field.previous == null
      modifies `fieldCount, `fieldHead, `fieldTail, `fields, fields`next, field`previous
      ensures fields == old(fields) + [field]
      ensures fieldCount == Low16(|fields|) && FieldChain(fields, fieldHead, fieldTail)
    {
      hide Low16;
      if fieldHead == null { fieldHead := field; }
      field.previous := fieldTail;
      if field.previous != null { field.previous.next := field; }
      fieldTail := field;
      Low16Next(|fields|);
      fieldCount := (fieldCount + 1) % 0x1_0000;
      ghost var was := fields;
      fields := was + [field];
      assert forall k :: 0 <= k < |was| ==> fields[k] == was[k];
      assert Distinct(fields);
      assert forall i {:trigger fields[i].next} :: 0 <= i < |fields| ==>
               fields[i].next == if i + 1 < |fields| then fields[i + 1] else null;
      assert forall i {:trigger fields[i].previous} :: 0 <= i < |fields| ==>
               fields[i].previous == if 0 < i then fields[i - 1] else null;
    }

    /** The stores of `_field_inject_locked`. */
    method LinkHead(field: FieldNode)
      requires fieldCount == Low16(|fields|) && FieldChain(fields, fieldHead, fieldTail)
      requires field !in fields && field.next == null && field.previous == null
      modifies `fieldCount, `fieldHead, `fieldTail, `fields, fields`previous, field`next
      ensures fields == [field] + old(fields)
      ensures fieldCount == Low16(|fields|) && FieldChain(fields, fieldHead, fieldTail)
    {
      hide Low16;
      if fieldTail == null { fieldTail := field; }
      field.next := fieldHead;
      if field.next != null { field.next.previous := field; }
      fieldHead := field;
      Low16Next(|fields|);
      fieldCount := (fieldCount + 1) % 0x1_0000;
      ghost var was := fields;
      fields := [field] + was;
      assert forall k :: 1 <= k < |fields| ==> fields[k] == was[k - 1];
      assert Distinct(fields);
      assert forall i {:trigger fields[i].next} :: 0 <= i < |fields| ==>
               fields[i].next == if i + 1 < |fields| then fields[i + 1] else null;
      assert forall i {:trigger fields[i].previous} :: 0 <= i < |fields| ==>
               fields[i].previous == if 0 < i then fields[i - 1] else null;
    }

    /** Linking a valid field keeps the packet valid. */
    method KeepValidTail(field: FieldNode)
      requires Valid() && field !in fields && field.Valid()
      requires field.next == null && field.previous == null
      modifies this, fields`next, field`previous
      ensures Valid() && fields == old(fields) + [field]
      ensures nodes == old(nodes) + set e | e in field.entries
    {
      LinkTail(field);
      nodes := nodes + set e | e in field.entries;
      forall f | f in fields
        ensures f.Within(nodes) && f.Valid()
      {
        assert old(f.Valid()) && (f != field ==> old(f.Within(nodes)));
      }
    }

    method FieldAdd(field: FieldNode)
      requires Valid() && field !in fields && field.Valid()
      requires field.next == null && field.previous == null
      modifies this, fields`next, field`previous
      ensures Valid() && fields == old(fields) + [field]
      ensures nodes == old(nodes) + set e | e in field.entries
      ensures Model() == old(Model()) + [old(field.Model())]
    {
      KeepValidTail(field);
      ghost var m := old(Model()) + [old(field.Model())];
      assert forall i :: 0 <= i < |fields| ==> fields[i].Model() == m[i];
    }

    /** Linking a valid field keeps the packet valid. */
    method KeepValidHead(field: FieldNode)
      requires Valid() && field !in fields && field.Valid()
      requires field.next == null && field.previous == null
      modifies this, fields`previous, field`next
      ensures Valid() && fields == [field] + old(fields)
      ensures nodes == old(nodes) + set e | e in field.entries
    {
      LinkHead(field);
      nodes := nodes + set e | e in field.entries;
      forall f | f in fields
        ensures f.Within(nodes) && f.Valid()
      {
        assert old(f.Valid()) && (f != field ==> old(f.Within(nodes)));
      }
    }

    method FieldInject(field: FieldNode)
      requires Valid() && field !in fields && field.Valid()
      requires field.next == null && field.previous == null
      modifies this, fields`previous, field`next
      ensures Valid() && fields == [field] + old(fields)
      ensures nodes == old(nodes) + set e | e in field.entries
      ensures Model() == [old(field.Model())] + old(Model())
    {
      KeepValidHead(field);
      ghost var m := [old(field.Model())] + old(Model());
      assert forall i :: 0 <= i < |fields| ==> fields[i].Model() == m[i];
    }

    method GetByOffset(offset: uint16) returns (field: FieldNode?)
      requires Valid()
      ensures field == if offset < fieldCount then fields[offset] else null
    {
      if offset >= fieldCount { return null; }
      var i, c := fieldHead, 0;
      while i != null
        invariant 0 <= c <= offset < |fields|
        invariant i == fields[c]
        decreases |fields| - c
      {
        if c == offset { return i; }
        i, c := i.next, c + 1;
      }
      assert false;
    }

    method GetByType(ty: uint16) returns (field: FieldNode?)
      requires Valid()
      ensures var i := IndexOf(Model(), ty); field == if i < |fields| then fields[i] else null
    {
      field := fieldHead;
      ghost var c := 0;
      while field != null
        invariant 0 <= c <= |fields|
        invariant field == if c < |fields| then fields[c] else null
        invariant forall k :: 0 <= k < c ==> Model()[k].ty != ty
        decreases |fields| - c
      {
        if field.ty == ty { return; }
        field, c := field.next, c + 1;
      }
    }

    /** The first field, or null. */
    function GetFirst(): (field: FieldNode?)
      requires Valid()
      reads this, fields, nodes
      ensures field == if fields == [] then null else fields[0]
    {
      fieldHead
    }

    /** `srvd_protocol_packet_field_entry_add` on a field of this packet keeps the packet valid. */
    method AddKeepingValid(field: FieldNode, size: uint16, data: Option<seq<byte>>, memory: bool) returns (ok: bool)
      requires Valid() && field in fields
      requires data.Some? ==> size <= |data.value|
      modifies `nodes, field`entryCount, field`entryHead, field`entryTail, field`entries, field.entries`next
      ensures Valid() && fresh(nodes - old(nodes))
      ensures ok <==> memory && (size == 0 <==> data.None?)
      ensures field.Model() ==
                if ok then Field(field.ty, old(field.Model()).entries + [Copied(size, data)]) else old(field.Model())
    {
      hide Low16;
      ok := field.EntryAdd(size, data, memory);
      if ok { nodes := nodes + {field.entries[|field.entries| - 1]}; }
      assert field.Within(nodes);
      forall f | f in fields && f != field
        ensures f.Within(nodes) && f.Valid()
      {
        assert old(f.Within(nodes) && f.Valid());
      }
      assert AllValid(fields, nodes);
      assert FieldChain(fields, fieldHead, fieldTail);
      assert Linked();
    }

    lemma EntriesWithin(field: FieldNode)
      requires Valid() && field in fields
      ensures forall e :: e in field.entries ==> e in nodes
    {
      assert field.Within(nodes);
    }

    /** What it does to the packet, when `field` is at position `i`. */
    method EntryAdd(ghost i: nat, field: FieldNode, size: uint16, data: Option<seq<byte>>, memory: bool)
      returns (ok: bool)
      requires Valid() && i < |fields| && fields[i] == field
      requires data.Some? ==> size <= |data.value|
      modifies `nodes, field`entryCount, field`entryHead, field`entryTail, field`entries, nodes`next
      ensures Valid() && fields == old(fields) && fresh(nodes - old(nodes))
      ensures ok <==> memory && (size == 0 <==> data.None?)
      ensures Model() == if ok then AppendAt(old(Model()), i, [Copied(size, data)]) else old(Model())
    {
      hide FieldNode.Valid, FieldNode.Within, AllValid, Copied, Low16, DataOf;
      EntriesWithin(field);
      ghost var others := set k | 0 <= k < |fields| && k != i :: fields[k];
      assert field !in others;
      ok := AddKeepingValid(field, size, data, memory);
      assert forall f | f in others :: f.Model() == old(f.Model());
      ghost var m := if ok then AppendAt(old(Model()), i, [Copied(size, data)]) else old(Model());
      assert forall k :: 0 <= k < |fields| ==> fields[k].Model() == m[k];
    }

    /** The first field of type `ty`, added at the tail if there is none; null if out of memory. */
    method GetOrAdd(ty: uint16, memory: bool) returns (field: FieldNode?)
      requires Valid()
      modifies this, fields`next
      ensures Valid() && nodes == old(nodes)
      ensures field == null <==> !memory && IndexOf(old(Model()), ty) == |old(fields)|
      ensures field == null ==> fields == old(fields) && Model() == old(Model())
      ensures field != null ==>
                && Model() == Merging.GetOrAdd(old(Model()), ty)
                && (fields == old(fields) || (fields == old(fields) + [field] && fresh(field)))
                && fields[IndexOf(old(Model()), ty)] == field
    {
      hide Packet.Valid, Packet.Model;
      field := GetByType(ty);
      if field == null {
        if !memory { return null; }
        field := new FieldNode(ty);
        FieldAdd(field);
      }
    }

    /** The first field of type `ty`, put at the head if there is none; null if out of memory. */
    method GetOrInject(ty: uint16, memory: bool) returns (field: FieldNode?)
      requires Valid()
      modifies this, fields`previous
      ensures Valid() && fresh(nodes - old(nodes))
      ensures var i := IndexOf(old(Model()), ty);
              if i < |old(fields)| then
                field == old(fields)[i] && fields == old(fields) && Model() == old(Model())
              else if memory then
                && field != null && fresh(field) && fields == [field] + old(fields)
                && Model() == [Field(ty, [])] + old(Model())
              else
                field == null && fields == old(fields) && Model() == old(Model())
    {
      hide Packet.Valid, Packet.Model;
      field := GetByType(ty);
      if field == null {
        if !memory { return null; }
        field := new FieldNode(ty);
        FieldInject(field);
      }
    }

    /** Adds a field with one entry at the tail unless the type is already there. */
    method Append(ty: uint16, size: uint16, data: Option<seq<byte>>, fieldMemory: bool, entryMemory: bool)
      returns (ok: bool)
      requires Valid()
      requires data.Some? ==> size <= |data.value|
      modifies this, fields`next
      ensures Valid() && fresh(nodes - old(nodes))
      ensures ok <==> !HasType(old(Model()), ty) && fieldMemory && entryMemory && (size == 0 <==> data.None?)
      ensures Model() == old(Model()) + if ok then [Field(ty, [Copied(size, data)])] else []
      ensures if ok then fields[..|fields| - 1] == old(fields) && fresh(fields[|fields| - 1]) else fields == old(fields)
    {
      hide Packet.Valid, Packet.Model;
      var field := GetByType(ty);
      if field != null { return false; }
      field := NewField(ty, size, data, fieldMemory, entryMemory);
      if field == null { return false; }
      assert Valid() && Model() == old(Model());
      FieldAdd(field);
      return true;
    }

    /** Adds a field with one entry at the head unless the type is already there. */
    method Insert(ty: uint16, size: uint16, data: Option<seq<byte>>, fieldMemory: bool, entryMemory: bool)
      returns (ok: bool)
      requires Valid()
      requires data.Some? ==> size <= |data.value|
      modifies this, fields`previous
      ensures Valid() && fresh(nodes - old(nodes))
      ensures ok <==> !HasType(old(Model()), ty) && fieldMemory && entryMemory && (size == 0 <==> data.None?)
      ensures Model() == (if ok then [Field(ty, [Copied(size, data)])] else []) + old(Model())
      ensures if ok then fields[1..] == old(fields) && fresh(fields[0]) else fields == old(fields)
    {
      hide Packet.Valid, Packet.Model;
      var field := GetByType(ty);
      if field != null { return false; }
      field := NewField(ty, size, data, fieldMemory, entryMemory);
      if field == null { return false; }
      assert Valid() && Model() == old(Model());
      FieldInject(field);
      return true;
    }

    /** Frees every entry and every field, in chain order; finalizing a field clears its `next`,
        so the loop has to fetch the successor first. */
    method Finalize() returns (freedFields: seq<FieldNode>, freedEntries: seq<EntryNode>)
      requires Valid()
      modifies this, fields
      ensures Valid() && fields == []
      ensures freedFields == old(fields)
      ensures freedEntries == old(Flatten(fields))
    {
      hide FieldNode.Valid, FieldNode.Within, Flatten;
      freedFields, freedEntries := [], [];
      ghost var rest := FlattenTails(fields);
      var i := fieldHead;
      var ni := if i != null then i.next else null;
      while i != null
        invariant fields == old(fields)
        invariant |freedFields| <= |fields| && freedFields == fields[..|freedFields|]
        invariant i == if |freedFields| < |fields| then fields[|freedFields|] else null
        invariant ni == if i != null then i.next else null
        invariant forall k :: |freedFields| <= k < |fields| ==> unchanged(fields[k])
        invariant freedEntries + rest[|freedFields|] == rest[0]
        decreases |fields| - |freedFields|
      {
        assert i in old(fields) && i !in freedFields;
        var entries := i.Finalize();
        Assoc(freedEntries, entries, rest[|freedFields| + 1]);
        freedEntries := freedEntries + entries;
        freedFields := freedFields + [i];
        i := ni;
        ni := if i != null then i.next else null;
      }
      fieldCount := 0;
      fieldHead, fieldTail := null, null;
      fields := [];
    }
  }

  /** What `Finalize` frees holds no node twice, and is every entry of every field. */
  lemma {:induction false} FlattenOnce(s: seq<FieldNode>)
    requires (forall f :: f in s ==> f.Valid()) && Distinct(s)
    ensures var r := Flatten(s);
            && Distinct(r)
            && (forall k :: 0 <= k < |r| ==> r[k].owner in s && r[k] in r[k].owner.entries)
            && (forall f, e :: f in s && e in f.entries ==> e in r)
  {
    if s != [] {
      assert s[0] in s;
      FlattenOnce(s[1..]);
      assert forall f :: f in s <==> f == s[0] || f in s[1..];
    }
  }

  // What a caller that iterates over a packet can rely on, without the links.

  lemma PacketHead(packet: Packet)
    requires packet.Valid()
    ensures packet.fieldHead == if packet.fields == [] then null else packet.fields[0]
    ensures packet.fields != [] ==>
              packet.fields[0].next == if 1 < |packet.fields| then packet.fields[1] else null
  {
  }

  lemma PacketField(packet: Packet, k: nat)
    requires packet.Valid() && k < |packet.fields|
    ensures var f := packet.fields[k];
            && f.Valid() && f.Model() == packet.Model()[k]
            && f.next == if k + 1 < |packet.fields| then packet.fields[k + 1] else null
  {
    assert packet.fields[k] in packet.fields;
  }
}
