/**
  What the decoder builds: wire fields of equal type are merged into one field.
 */
module Merging {
  import opened Bytes
  import opened Wrappers
  import opened Codec

  function Types(p: seq<Field>): (ts: seq<uint16>)
    ensures |ts| == |p|
    ensures forall i :: 0 <= i < |p| ==> ts[i] == p[i].ty
  {
    seq(|p|, i requires 0 <= i < |p| => p[i].ty)
  }

  ghost predicate Distinct<T>(s: seq<T>) {
    forall i, j :: 0 <= i < j < |s| ==> s[i] != s[j]
  }

  ghost predicate DistinctTypes(p: seq<Field>) {
    forall i, j :: 0 <= i < j < |p| ==> p[i].ty != p[j].ty
  }

  /** Position of the first field of type `t`, or the length when there is none. */
  function IndexOf(p: seq<Field>, t: uint16): (i: nat)
    ensures i <= |p|
    ensures i < |p| ==> p[i].ty == t
    ensures forall k :: 0 <= k < i ==> p[k].ty != t
  {
    if p == [] || p[0].ty == t then 0 else 1 + IndexOf(p[1..], t)
  }

  ghost predicate HasType(p: seq<Field>, t: uint16) {
    exists i :: 0 <= i < |p| && p[i].ty == t
  }

  /** Get the first field of type `t`, or add an empty one at the tail. */
  function GetOrAdd(p: seq<Field>, t: uint16): (r: seq<Field>)
    ensures IndexOf(p, t) < |r| && r[IndexOf(p, t)].ty == t
  {
    if IndexOf(p, t) < |p| then p else p + [Field(t, [])]
  }

  /** Append entries to the field at position `i`. */
  function AppendAt(p: seq<Field>, i: nat, es: seq<Data>): seq<Field>
    requires i < |p|
  {
    p[i := Field(p[i].ty, p[i].entries + es)]
  }

  /** Merge one wire field into the packet `p`. */
  function Absorb(p: seq<Field>, f: Field): seq<Field> {
    AppendAt(GetOrAdd(p, f.ty), IndexOf(p, f.ty), f.entries)
  }

  /** Merge the wire fields, in order, into the packet `p`. */
  function Merge(p: seq<Field>, wire: seq<Field>): seq<Field>
    decreases |wire|
  {
    if wire == [] then p else Merge(Absorb(p, wire[0]), wire[1..])
  }

  /** Reads `n` more fields from `pos` and merges them into `p`. */
  function DecodeFrom(p: seq<Field>, b: seq<byte>, size: nat, pos: nat, n: nat): Option<seq<Field>>
    requires pos <= size && size + 3 <= |b|
  {
    var r := ParseFields(b, size, pos, n);
    if r.Rejected? then None else Some(Merge(p, r.value))
  }

  /** The packet the decoder leaves behind when it starts from `p`, if it succeeds. */
  function Decode(p: seq<Field>, b: seq<byte>, size: nat, n: nat): Option<seq<Field>>
    requires size + 3 <= |b|
  {
    if size < n * FIELD_HEADER_SIZE then None else DecodeFrom(p, b, size, 0, n)
  }

  lemma DecodeStep(p: seq<Field>, b: seq<byte>, size: nat, pos: nat, n: nat, f: Field, next: nat)
    requires pos <= size && next <= size && size + 3 <= |b| && n > 0
    requires ParseField(b, size, pos) == Parsed(f, next)
    ensures DecodeFrom(p, b, size, pos, n) == DecodeFrom(Absorb(p, f), b, size, next, n - 1)
  {
    var rest := ParseFields(b, size, next, n - 1);
    if rest.Parsed? { assert ([f] + rest.value)[1..] == rest.value; }
  }

  lemma DecodeRejected(p: seq<Field>, b: seq<byte>, size: nat, pos: nat, n: nat)
    requires pos <= size && size + 3 <= |b| && n > 0 && ParseField(b, size, pos) == Rejected
    ensures DecodeFrom(p, b, size, pos, n) == None
  {
  }

  lemma DecodeDone(p: seq<Field>, b: seq<byte>, size: nat, pos: nat)
    requires pos <= size && size + 3 <= |b|
    ensures DecodeFrom(p, b, size, pos, 0) == Some(p)
  {
  }

  // ---------- an independent reading of the merge ----------

  /** All entries carried under type `t`, in order. */
  function EntriesOf(p: seq<Field>, t: uint16): seq<Data> {
    if p == [] then []
    else (if p[0].ty == t then p[0].entries else []) + EntriesOf(p[1..], t)
  }

  /** The types of `wire` that are not among `seen`, each once, in order of first occurrence. */
  function NewTypes(seen: set<uint16>, wire: seq<Field>): seq<uint16>
    decreases |wire|
  {
    if wire == [] then []
    else if wire[0].ty in seen then NewTypes(seen, wire[1..])
    else [wire[0].ty] + NewTypes(seen + {wire[0].ty}, wire[1..])
  }

  function TypeSet(p: seq<Field>): set<uint16> { set f | f in p :: f.ty }

  lemma {:induction false} EntriesOfConcat(p: seq<Field>, q: seq<Field>, t: uint16)
    ensures EntriesOf(p + q, t) == EntriesOf(p, t) + EntriesOf(q, t)
  {
    if p == [] {
      assert p + q == q;
    } else {
      assert (p + q)[1..] == p[1..] + q;
      EntriesOfConcat(p[1..], q, t);
    }
  }

  lemma {:induction false} EntriesOfNone(p: seq<Field>, t: uint16)
    requires forall f :: f in p ==> f.ty != t
    ensures EntriesOf(p, t) == []
  {
    if p != [] { EntriesOfNone(p[1..], t); }
  }

  /** With distinct types, the entries under a type are those of its one field. */
  lemma {:induction false} EntriesOfAt(p: seq<Field>, i: nat)
    requires DistinctTypes(p) && i < |p|
    ensures EntriesOf(p, p[i].ty) == p[i].entries
  {
    if i == 0 {
      EntriesOfNone(p[1..], p[0].ty);
    } else {
      EntriesOfAt(p[1..], i - 1);
    }
  }

  lemma AbsorbTypes(p: seq<Field>, f: Field)
    ensures DistinctTypes(p) ==> DistinctTypes(Absorb(p, f))
    ensures TypeSet(Absorb(p, f)) == TypeSet(p) + {f.ty}
    ensures Types(Absorb(p, f)) == if f.ty in TypeSet(p) then Types(p) else Types(p) + [f.ty]
  {
    var i := IndexOf(p, f.ty);
    var r := Absorb(p, f);
    assert f.ty in TypeSet(p) <==> i < |p| by {
      if i < |p| { assert p[i] in p; }
    }
    forall t
      ensures t in TypeSet(r) <==> t in TypeSet(p) || t == f.ty
    {
      assert r[i].ty == f.ty;
      if t in TypeSet(r) {
        var k :| 0 <= k < |r| && r[k].ty == t;
        if k < |p| { assert p[k] in p && p[k].ty == t; }
      }
      if t in TypeSet(p) {
        var k :| 0 <= k < |p| && p[k].ty == t;
        assert r[k] in r && r[k].ty == t;
      }
    }
  }

  lemma AbsorbIndex(p: seq<Field>, f: Field, t: uint16)
    ensures var (i, q) := (IndexOf(p, t), Absorb(p, f));
            IndexOf(q, t) == if i < |p| then i else if t == f.ty then |p| else |q|
  {
    var i, q := IndexOf(p, t), Absorb(p, f);
    assert forall k :: 0 <= k < |p| ==> q[k].ty == p[k].ty;
    assert |p| < |q| ==> q[|p|].ty == f.ty && |q| == |p| + 1 && IndexOf(p, f.ty) == |p|;
    assert i == |p| && t == f.ty ==> |p| < |q|;
  }

  lemma {:induction false} NewTypesFresh(seen: set<uint16>, wire: seq<Field>)
    ensures forall t :: t in NewTypes(seen, wire) ==> t !in seen
    ensures Distinct(NewTypes(seen, wire))
    decreases |wire|
  {
    if wire != [] {
      NewTypesFresh(if wire[0].ty in seen then seen else seen + {wire[0].ty}, wire[1..]);
    }
  }

  /** The types of a packet decoded onto `p`: those of `p` stay in place, and the types new to it
      follow in order of first occurrence on the wire. */
  lemma {:induction false} MergeTypes(p: seq<Field>, wire: seq<Field>)
    ensures Types(Merge(p, wire)) == Types(p) + NewTypes(TypeSet(p), wire)
    ensures DistinctTypes(p) ==> DistinctTypes(Merge(p, wire))
    decreases |wire|
  {
    if wire != [] {
      hide Absorb, TypeSet;
      AbsorbTypes(p, wire[0]);
      if wire[0].ty in TypeSet(p) { assert TypeSet(p) + {wire[0].ty} == TypeSet(p); }
      MergeTypes(Absorb(p, wire[0]), wire[1..]);
      Assoc(Types(p), [wire[0].ty], NewTypes(TypeSet(p) + {wire[0].ty}, wire[1..]));
    }
  }

  /** The fields of `p` keep their places. */
  lemma OldTypes(p: seq<Field>, wire: seq<Field>)
    ensures |p| <= |Merge(p, wire)| && forall j :: 0 <= j < |p| ==> Merge(p, wire)[j].ty == p[j].ty
  {
    hide Merge;
    MergeTypes(p, wire);
    var m := Merge(p, wire);
    assert forall j :: 0 <= j < |p| ==> m[j].ty == Types(m)[j] == Types(p)[j] == p[j].ty;
  }

  /** What a field of `p` has become: the first field of each type has taken the entries the wire
      carries under that type, in order, behind its own; all others are as they were. */
  function Taken(p: seq<Field>, wire: seq<Field>, k: nat): Field
    requires k < |p|
  {
    var t := p[k].ty;
    Field(t, p[k].entries + if IndexOf(p, t) == k then EntriesOf(wire, t) else [])
  }

  /** The entries of a packet decoded onto any `p`: the fields of `p` are `Taken`, and a new field
      holds all entries of its type, in order. With `MergeTypes` this is the whole packet. */
  lemma {:induction false} MergeEntries(p: seq<Field>, wire: seq<Field>, k: nat)
    requires k < |Merge(p, wire)|
    ensures |p| <= |Merge(p, wire)|
    ensures Merge(p, wire)[k] ==
              if k < |p| then Taken(p, wire, k)
              else Field(Merge(p, wire)[k].ty, EntriesOf(wire, Merge(p, wire)[k].ty))
    decreases |wire|
  {
    if wire != [] {
      var f, rest, q := wire[0], wire[1..], Absorb(p, wire[0]);
      var r := Merge(q, rest);
      MergeEntries(q, rest, k);
      if k < |q| {
        var t := q[k].ty;
        AbsorbIndex(p, f, t);
        TakenOnce(p, f, rest, k);
      } else {
        NewTypeNotWaiting(p, f, rest, k);
      }
    }
  }

  lemma TakenOnce(p: seq<Field>, f: Field, rest: seq<Field>, k: nat)
    requires k < |Absorb(p, f)|
    ensures var q := Absorb(p, f);
            Taken(q, rest, k) ==
              if k < |p| then Taken(p, [f] + rest, k) else Field(q[k].ty, EntriesOf([f] + rest, q[k].ty))
  {
    hide EntriesOf, IndexOf;
    var q := Absorb(p, f);
    var t := q[k].ty;
    AbsorbIndex(p, f, t);
    EntriesOfFirst(f, rest, t);
    if k < |p| && IndexOf(p, t) == k {
      Assoc(p[k].entries, if f.ty == t then f.entries else [], EntriesOf(rest, t));
    }
  }

  /** A field added later is not of the type of the first wire field. */
  lemma NewTypeNotWaiting(p: seq<Field>, f: Field, rest: seq<Field>, k: nat)
    requires |Absorb(p, f)| <= k < |Merge(Absorb(p, f), rest)|
    ensures var t := Merge(Absorb(p, f), rest)[k].ty; t != f.ty && EntriesOf([f] + rest, t) == EntriesOf(rest, t)
  {
    hide Merge, Absorb, NewTypes, TypeSet, EntriesOf;
    var q := Absorb(p, f);
    MergeTypes(q, rest);
    NewTypesFresh(TypeSet(q), rest);
    AbsorbTypes(p, f);
    var t := Merge(q, rest)[k].ty;
    assert t == Types(Merge(q, rest))[k] == NewTypes(TypeSet(q), rest)[k - |q|];
    EntriesOfFirst(f, rest, t);
  }

  lemma EntriesOfFirst(f: Field, rest: seq<Field>, t: uint16)
    ensures EntriesOf([f] + rest, t) == (if f.ty == t then f.entries else []) + EntriesOf(rest, t)
    ensures f.ty != t ==> EntriesOf([f] + rest, t) == EntriesOf(rest, t)
  {
    assert ([f] + rest)[1..] == rest;
  }

  /** For a packet with distinct types: under every type the wire entries, in order, come after
      those already there. */
  lemma MergeUnderType(p: seq<Field>, wire: seq<Field>, t: uint16)
    requires DistinctTypes(p)
    ensures EntriesOf(Merge(p, wire), t) == EntriesOf(p, t) + EntriesOf(wire, t)
  {
    hide Merge, NewTypes, Types, EntriesOf, DistinctTypes, IndexOf;
    OldTypes(p, wire);
    var k := IndexOf(Merge(p, wire), t);
    if k < |p| {
      UnderOldType(p, wire, k);
    } else if k < |Merge(p, wire)| {
      UnderNewType(p, wire, k);
    } else {
      UnderNoType(p, wire, t);
    }
  }

  lemma UnderOldType(p: seq<Field>, wire: seq<Field>, k: nat)
    requires DistinctTypes(p) && k < |p|
    ensures EntriesOf(Merge(p, wire), p[k].ty) == EntriesOf(p, p[k].ty) + EntriesOf(wire, p[k].ty)
  {
    hide Merge, NewTypes, Types, EntriesOf;
    MergeTypes(p, wire);
    OldTypes(p, wire);
    MergeEntries(p, wire, k);
    EntriesOfAt(Merge(p, wire), k);
    EntriesOfAt(p, k);
    assert IndexOf(p, p[k].ty) == k;
  }

  lemma UnderNewType(p: seq<Field>, wire: seq<Field>, k: nat)
    requires DistinctTypes(p) && |p| <= k < |Merge(p, wire)|
    ensures var t := Merge(p, wire)[k].ty; EntriesOf(Merge(p, wire), t) == EntriesOf(p, t) + EntriesOf(wire, t)
  {
    hide Merge, NewTypes, Types, EntriesOf, Taken;
    MergeTypes(p, wire);
    OldTypes(p, wire);
    MergeEntries(p, wire, k);
    EntriesOfAt(Merge(p, wire), k);
    NoneOf(p, Merge(p, wire)[k].ty);
  }

  lemma UnderNoType(p: seq<Field>, wire: seq<Field>, t: uint16)
    requires forall k :: 0 <= k < |Merge(p, wire)| ==> Merge(p, wire)[k].ty != t
    ensures EntriesOf(Merge(p, wire), t) == EntriesOf(p, t) == EntriesOf(wire, t) == []
  {
    hide Merge, EntriesOf, IndexOf;
    OldTypes(p, wire);
    NoneOf(Merge(p, wire), t);
    NoneOf(p, t);
    forall f | f in wire
      ensures f.ty != t
    {
      TypeThere(p, wire, f);
    }
    EntriesOfNone(wire, t);
  }

  lemma NoneOf(p: seq<Field>, t: uint16)
    requires forall j :: 0 <= j < |p| ==> p[j].ty != t
    ensures EntriesOf(p, t) == []
  {
    EntriesOfNone(p, t);
  }

  lemma {:induction false} NewTypesCover(seen: set<uint16>, wire: seq<Field>)
    ensures forall f :: f in wire ==> f.ty in seen || f.ty in NewTypes(seen, wire)
    decreases |wire|
  {
    if wire != [] {
      NewTypesCover(if wire[0].ty in seen then seen else seen + {wire[0].ty}, wire[1..]);
    }
  }

  /** Every type of the wire is a type of the merged packet. */
  lemma TypeThere(p: seq<Field>, wire: seq<Field>, f: Field)
    requires f in wire
    ensures IndexOf(Merge(p, wire), f.ty) < |Merge(p, wire)|
  {
    hide Merge, NewTypes;
    var m := Merge(p, wire);
    MergeTypes(p, wire);
    NewTypesCover(TypeSet(p), wire);
    if f.ty in TypeSet(p) {
      var g :| g in p && g.ty == f.ty;
      var j :| 0 <= j < |p| && p[j] == g;
      assert Types(m)[j] == Types(p)[j] == f.ty;
    } else {
      var j :| 0 <= j < |NewTypes(TypeSet(p), wire)| && NewTypes(TypeSet(p), wire)[j] == f.ty;
      assert Types(m)[|p| + j] == f.ty;
    }
  }

  lemma SamePacket(p: seq<Field>, q: seq<Field>)
    requires DistinctTypes(p) && Types(p) == Types(q)
    requires forall t :: EntriesOf(p, t) == EntriesOf(q, t)
    ensures p == q
  {
    forall i | 0 <= i < |p|
      ensures p[i] == q[i]
    {
      assert Types(p)[i] == Types(q)[i];
      assert forall k :: 0 <= k < |q| ==> Types(q)[k] == q[k].ty == p[k].ty;
      EntriesOfAt(p, i);
      EntriesOfAt(q, i);
    }
  }

  lemma {:induction false} NewTypesDistinct(p: seq<Field>, wire: seq<Field>)
    requires DistinctTypes(p + wire)
    ensures NewTypes(TypeSet(p), wire) == Types(wire)
    decreases |wire|
  {
    if wire != [] {
      var q := p + [wire[0]];
      assert q + wire[1..] == p + wire;
      NewTypesDistinct(q, wire[1..]);
      assert TypeSet(q) == TypeSet(p) + {wire[0].ty} by {
        assert forall f :: f in q <==> f in p || f == wire[0];
      }
      assert wire[0].ty !in TypeSet(p) by {
        forall f | f in p
          ensures f.ty != wire[0].ty
        {
          var i :| 0 <= i < |p| && p[i] == f;
          assert (p + wire)[i] == f && (p + wire)[|p|] == wire[0];
        }
      }
    }
  }

  lemma TypesConcat(p: seq<Field>, q: seq<Field>)
    ensures Types(p + q) == Types(p) + Types(q)
  {
  }

  /** When no type repeats, merging is appending. */
  lemma MergeDistinct(p: seq<Field>, wire: seq<Field>)
    requires DistinctTypes(p + wire)
    ensures Merge(p, wire) == p + wire
  {
    assert DistinctTypes(p) by {
      assert forall i :: 0 <= i < |p| ==> (p + wire)[i] == p[i];
    }
    MergeTypes(p, wire);
    NewTypesDistinct(p, wire);
    TypesConcat(p, wire);
    forall t
      ensures EntriesOf(p + wire, t) == EntriesOf(Merge(p, wire), t)
    {
      EntriesOfConcat(p, wire, t);
      MergeUnderType(p, wire, t);
    }
    SamePacket(p + wire, Merge(p, wire));
  }

  // ---------- conservation ----------

  function EntryCount(p: seq<Field>): nat {
    if p == [] then 0 else |p[0].entries| + EntryCount(p[1..])
  }

  function DataBytes(p: seq<Field>): nat {
    if p == [] then 0 else DataSize(p[0].entries) + DataBytes(p[1..])
  }

  lemma {:induction false} EncodedLength(p: seq<Field>)
    ensures |EncodeFields(p)| == 4 * |p| + 2 * EntryCount(p) + DataBytes(p)
  {
    if p != [] {
      EntriesSize(p[0].entries);
      EncodedLength(p[1..]);
    }
  }

  lemma {:induction false} DataSizeConcat(a: seq<Data>, b: seq<Data>)
    ensures DataSize(a + b) == DataSize(a) + DataSize(b)
  {
    if a == [] {
      assert a + b == b;
    } else {
      assert (a + b)[1..] == a[1..] + b;
      DataSizeConcat(a[1..], b);
    }
  }

  lemma {:induction false} TotalsConcat(p: seq<Field>, q: seq<Field>)
    ensures EntryCount(p + q) == EntryCount(p) + EntryCount(q)
    ensures DataBytes(p + q) == DataBytes(p) + DataBytes(q)
  {
    if p == [] {
      assert p + q == q;
    } else {
      assert (p + q)[1..] == p[1..] + q;
      TotalsConcat(p[1..], q);
    }
  }

  lemma {:induction false} TotalsUpdate(q: seq<Field>, i: nat, es: seq<Data>)
    requires i < |q|
    ensures EntryCount(AppendAt(q, i, es)) == EntryCount(q) + |es|
    ensures DataBytes(AppendAt(q, i, es)) == DataBytes(q) + DataSize(es)
  {
    var r := AppendAt(q, i, es);
    if i == 0 {
      assert r[1..] == q[1..];
      DataSizeConcat(q[0].entries, es);
    } else {
      assert r[1..] == AppendAt(q[1..], i - 1, es);
      TotalsUpdate(q[1..], i - 1, es);
    }
  }

  /** Merging loses and invents nothing: entry and data-byte totals add up. */
  lemma {:induction false} MergeConserves(p: seq<Field>, wire: seq<Field>)
    ensures EntryCount(Merge(p, wire)) == EntryCount(p) + EntryCount(wire)
    ensures DataBytes(Merge(p, wire)) == DataBytes(p) + DataBytes(wire)
    decreases |wire|
  {
    if wire != [] {
      var f := wire[0];
      var q := GetOrAdd(p, f.ty);
      TotalsConcat(p, [Field(f.ty, [])]);
      TotalsUpdate(q, IndexOf(p, f.ty), f.entries);
      MergeConserves(Absorb(p, f), wire[1..]);
    }
  }

  // ---------- theorems about decoding ----------

  /** Codec law, for every packet whose counters fit, onto any packet `q`: decoding the encoding
      merges `p` into `q`, unless `p` holds an empty entry; then it fails. */
  lemma DecodeEncode(q: seq<Field>, p: seq<Field>, slack: seq<byte>)
    requires CountersFit(p) && |slack| >= 3
    ensures Decode(q, EncodeFields(p) + slack, |EncodeFields(p)|, |p|) ==
              if NoEmptyEntry(p) then Some(Merge(q, p)) else None
  {
    ParseEncoded(p, slack);
  }

  /** Round trip into a fresh packet: exact exactly when types are distinct and no entry is empty. */
  lemma RoundTrip(p: seq<Field>, slack: seq<byte>)
    requires CountersFit(p) && |slack| >= 3
    ensures Decode([], EncodeFields(p) + slack, |EncodeFields(p)|, |p|) == Some(p) <==>
            DistinctTypes(p) && NoEmptyEntry(p)
  {
    DecodeEncode([], p, slack);
    MergeTypes([], p);
    if DistinctTypes(p) {
      assert [] + p == p;
      MergeDistinct([], p);
    }
  }

  /** Re-encoding an accepted body: entry count and data bytes are those on the wire, the new
      body is shorter by one field header per merged field, and it is the consumed part of the
      old body exactly when no wire type repeats. */
  lemma Reencode(b: seq<byte>, size: nat, n: nat)
    requires size + 3 <= |b| && ParseBody(b, size, n).Parsed?
    ensures var Parsed(wire, used) := ParseBody(b, size, n);
            var p := Merge([], wire);
            && Decode([], b, size, n) == Some(p)
            && |wire| == n && |p| <= n
            && EntryCount(p) == EntryCount(wire) && DataBytes(p) == DataBytes(wire)
            && |EncodeFields(p)| == used - FIELD_HEADER_SIZE * (n - |p|)
            && (EncodeFields(p) == b[..used] <==> DistinctTypes(wire))
            && NoEmptyEntry(p)
  {
    var Parsed(wire, used) := ParseBody(b, size, n);
    FieldsParsed(b, size, 0, n);
    assert b[0..used] == b[..used];
    FreshMerge(wire);
    EncodedLength(wire);
  }

  /** Merging wire fields into an empty packet. */
  lemma FreshMerge(wire: seq<Field>)
    ensures var p := Merge([], wire);
            && |p| <= |wire|
            && EntryCount(p) == EntryCount(wire) && DataBytes(p) == DataBytes(wire)
            && |EncodeFields(p)| == |EncodeFields(wire)| - FIELD_HEADER_SIZE * (|wire| - |p|)
            && (EncodeFields(p) == EncodeFields(wire) <==> DistinctTypes(wire))
            && (NoEmptyEntry(wire) ==> NoEmptyEntry(p))
  {
    MergeConserves([], wire);
    EncodedLength(Merge([], wire));
    EncodedLength(wire);
    FreshTypes(wire);
    if NoEmptyEntry(wire) { MergeNoEmpty([], wire); }
  }

  lemma FreshTypes(wire: seq<Field>)
    ensures var p := Merge([], wire);
            && |p| <= |wire|
            && (|p| == |wire| <==> DistinctTypes(wire))
            && (DistinctTypes(wire) ==> p == wire)
  {
    hide Merge, NewTypes;
    var p := Merge([], wire);
    MergeTypes([], wire);
    assert TypeSet([]) == {} && Types([]) == [];
    assert Types(p) == NewTypes({}, wire);
    NewTypesLength({}, wire);
    if DistinctTypes(wire) {
      assert [] + wire == wire;
      MergeDistinct([], wire);
    } else if |p| == |wire| {
      NewTypesAll({}, wire);
      SameTypes(p, wire);
    }
  }

  lemma SameTypes(p: seq<Field>, q: seq<Field>)
    requires Types(p) == Types(q)
    ensures DistinctTypes(p) <==> DistinctTypes(q)
  {
    assert forall i :: 0 <= i < |p| ==> p[i].ty == Types(p)[i] == Types(q)[i] == q[i].ty;
  }

  lemma {:induction false} NewTypesLength(seen: set<uint16>, wire: seq<Field>)
    ensures |NewTypes(seen, wire)| <= |wire|
    decreases |wire|
  {
    if wire != [] {
      NewTypesLength(if wire[0].ty in seen then seen else seen + {wire[0].ty}, wire[1..]);
    }
  }

  lemma {:induction false} NewTypesAll(seen: set<uint16>, wire: seq<Field>)
    requires |NewTypes(seen, wire)| == |wire|
    ensures NewTypes(seen, wire) == Types(wire)
    decreases |wire|
  {
    if wire != [] {
      NewTypesLength(seen, wire[1..]);
      NewTypesAll(seen + {wire[0].ty}, wire[1..]);
    }
  }

  lemma {:induction false} MergeNoEmpty(p: seq<Field>, wire: seq<Field>)
    requires NoEmptyEntry(p) && NoEmptyEntry(wire)
    ensures NoEmptyEntry(Merge(p, wire))
    decreases |wire|
  {
    if wire != [] {
      MergeNoEmpty(Absorb(p, wire[0]), wire[1..]);
    }
  }
}
