/**
  How reading a body can end, refused allocations included, and what it leaves of the packet.
 */
module Readings {
  import opened Bytes
  import opened Wrappers
  import opened Codec
  import opened Merging

  /** Accepted, or refused with the packet in order, each with the packet left; or broken off at an
      entry, after which a freed field is still linked and the packet must not be used any more,
      not even to finalize it. */
  datatype Reading = Accepted(p: seq<Field>) | Refused(p: seq<Field>) | Dangling

  /** The field header at `pos` is refused, or its field cannot be had. */
  predicate HeaderRefused(p: seq<Field>, b: seq<byte>, size: nat, pos: nat, memory: bool)
    requires pos <= size && size + 3 <= |b|
  {
    || pos >= size
    || pos + FIELD_HEADER_SIZE + Get16(b, pos + 2) * ENTRY_HEADER_SIZE > size
    || (IndexOf(p, Get16(b, pos)) == |p| && !memory)
  }

  /** All `n` entries from `pos` on are acceptable, and the allocations for them, from number `tick`
      on, are granted. */
  ghost predicate EntriesGo(b: seq<byte>, size: nat, pos: nat, n: nat, memory: nat -> bool, tick: nat)
    requires pos <= size && size + 3 <= |b|
  {
    ParseEntries(b, size, pos, n).Parsed? && forall i :: tick <= i < tick + n ==> memory(i)
  }

  /** Reading `n` more fields from `pos` on onto `p`. */
  ghost function ReadFrom(p: seq<Field>, b: seq<byte>, size: nat, pos: nat, n: nat, memory: nat -> bool, tick: nat)
    : Reading
    requires pos <= size && size + 3 <= |b|
    decreases n
  {
    if n == 0 then Accepted(p)
    else if HeaderRefused(p, b, size, pos, memory(tick)) then Refused(p)
    else
      var count := Get16(b, pos + 2);
      if !EntriesGo(b, size, pos + FIELD_HEADER_SIZE, count, memory, tick + 1) then Dangling
      else
        var f := ParseField(b, size, pos);
        ReadFrom(Absorb(p, f.value), b, size, f.pos, n - 1, memory, tick + 1 + count)
  }

  ghost function ReadBody(p: seq<Field>, b: seq<byte>, size: nat, n: nat, memory: nat -> bool): Reading
    requires size + 3 <= |b|
  {
    if size < n * FIELD_HEADER_SIZE then Refused(p) else ReadFrom(p, b, size, 0, n, memory, 0)
  }

  /** No allocation is refused. */
  ghost predicate Plenty(memory: nat -> bool) {
    forall i :: memory(i)
  }

  // ---------- what the outcomes mean ----------

  lemma FieldGoes(p: seq<Field>, b: seq<byte>, size: nat, pos: nat, memory: nat -> bool, tick: nat)
    requires pos <= size && size + 3 <= |b| && !HeaderRefused(p, b, size, pos, memory(tick))
    ensures EntriesGo(b, size, pos + FIELD_HEADER_SIZE, Get16(b, pos + 2), memory, tick + 1) ==>
              ParseField(b, size, pos).Parsed?
    ensures Plenty(memory) ==>
              (EntriesGo(b, size, pos + FIELD_HEADER_SIZE, Get16(b, pos + 2), memory, tick + 1)
               <==> ParseField(b, size, pos).Parsed?)
  {
  }

  /** A body is accepted only if it is decoded, and then the packet is the decoded one; with memory
      for everything it is accepted exactly if it is decoded. */
  lemma {:induction false} AcceptedIsDecoded(p: seq<Field>, b: seq<byte>, size: nat, pos: nat, n: nat,
                                             memory: nat -> bool, tick: nat)
    requires pos <= size && size + 3 <= |b|
    ensures var r, d := ReadFrom(p, b, size, pos, n, memory, tick), DecodeFrom(p, b, size, pos, n);
            && (r.Accepted? ==> d == Some(r.p))
            && (Plenty(memory) && d.Some? ==> r.Accepted?)
    decreases n
  {
    hide ParseField, EntriesGo, Absorb, DecodeFrom;
    if n == 0 {
      DecodeDone(p, b, size, pos);
    } else {
      var f := ParseField(b, size, pos);
      if f.Rejected? { DecodeRejected(p, b, size, pos, n); }
      if f.Parsed? && HeaderRefused(p, b, size, pos, true) { RefusedIsRejected(p, b, size, pos); }
      if !HeaderRefused(p, b, size, pos, memory(tick)) {
        FieldGoes(p, b, size, pos, memory, tick);
        if f.Parsed? {
          DecodeStep(p, b, size, pos, n, f.value, f.pos);
          AcceptedIsDecoded(Absorb(p, f.value), b, size, f.pos, n - 1, memory, tick + 1 + Get16(b, pos + 2));
        }
      }
    }
  }

  lemma RefusedIsRejected(p: seq<Field>, b: seq<byte>, size: nat, pos: nat)
    requires pos <= size && size + 3 <= |b| && HeaderRefused(p, b, size, pos, true)
    ensures ParseField(b, size, pos) == Rejected
  {
  }

  // ---------- the outcomes, by the bytes and the allocations ----------

  /** The bytes at `pos` spell `s`. */
  predicate Spelled(b: seq<byte>, size: nat, pos: nat, s: seq<byte>)
    requires size <= |b|
  {
    pos + |s| <= size && b[pos..pos + |s|] == s
  }

  predicate AllGranted(memory: nat -> bool, tick: nat, n: nat) {
    forall i :: tick <= i < tick + n ==> memory(i)
  }

  /** Every allocation for reading `p` onto `q` is granted: one for each field whose type is new, and
      one for each entry. */
  predicate Granted(q: seq<Field>, p: seq<Field>, memory: nat -> bool, tick: nat)
    decreases |p|
  {
    p == []
    || (&& (IndexOf(q, p[0].ty) < |q| || memory(tick))
        && AllGranted(memory, tick + 1, |p[0].entries|)
        && Granted(Absorb(q, p[0]), p[1..], memory, tick + 1 + |p[0].entries|))
  }

  /** The bytes at `pos` spell the fields `p`, all acceptable, and they are granted. */
  ghost predicate Reads(q: seq<Field>, b: seq<byte>, size: nat, pos: nat, memory: nat -> bool, tick: nat, p: seq<Field>)
    requires size <= |b|
  {
    Spelled(b, size, pos, EncodeFields(p)) && EntryCountersFit(p) && NoEmptyEntry(p) && Granted(q, p, memory, tick)
  }

  /** The bytes at `at` spell the entries `es`, all acceptable and granted, and then comes an entry
      that is empty, or overruns the body, or is refused. */
  predicate BreaksAfter(b: seq<byte>, size: nat, at: nat, memory: nat -> bool, tick: nat, es: seq<Data>)
    requires size + 3 <= |b|
  {
    && [] !in es && Spelled(b, size, at, EncodeEntries(es)) && AllGranted(memory, tick, |es|)
    && var e := at + |EncodeEntries(es)|;
       Get16(b, e) == 0 || e + ENTRY_HEADER_SIZE + Get16(b, e) > size || !memory(tick + |es|)
  }

  /** Where reading has come to behind the fields `p`. */
  function Place(pos: nat, p: seq<Field>): nat { pos + |EncodeFields(p)| }

  function Ticks(tick: nat, p: seq<Field>): nat { tick + |p| + EntryCount(p) }

  lemma GoStep(b: seq<byte>, size: nat, pos: nat, n: nat, memory: nat -> bool, tick: nat)
    requires n > 0 && pos <= size && size + 3 <= |b|
    ensures var next := pos + ENTRY_HEADER_SIZE + Get16(b, pos);
            EntriesGo(b, size, pos, n, memory, tick) <==>
              next <= size && Get16(b, pos) != 0 && memory(tick) && EntriesGo(b, size, next, n - 1, memory, tick + 1)
  {
  }

  lemma NothingToGo(b: seq<byte>, size: nat, pos: nat, memory: nat -> bool, tick: nat)
    requires pos <= size && size + 3 <= |b|
    ensures EntriesGo(b, size, pos, 0, memory, tick) && ParseEntries(b, size, pos, 0) == Parsed([], pos)
  {
  }

  /** If reading entries does not go, one of them breaks it. */
  lemma {:induction false} BreakFound(b: seq<byte>, size: nat, at: nat, n: nat, memory: nat -> bool, tick: nat)
    returns (es: seq<Data>)
    requires at <= size && size + 3 <= |b| && !EntriesGo(b, size, at, n, memory, tick)
    ensures |es| < n && BreaksAfter(b, size, at, memory, tick, es)
    decreases n
  {
    hide EntriesGo;
    es := [];
    if n == 0 { NothingToGo(b, size, at, memory, tick); }
    GoStep(b, size, at, n, memory, tick);
    var next := at + ENTRY_HEADER_SIZE + Get16(b, at);
    if next <= size && Get16(b, at) != 0 && memory(tick) {
      var rest := BreakFound(b, size, next, n - 1, memory, tick + 1);
      es := [b[at + ENTRY_HEADER_SIZE..next]] + rest;
      OneMoreBreaks(b, size, at, memory, tick, es[0], rest);
    }
  }

  lemma OneMoreBreaks(b: seq<byte>, size: nat, at: nat, memory: nat -> bool, tick: nat, d: Data, es: seq<Data>)
    requires size + 3 <= |b| && at + ENTRY_HEADER_SIZE + |d| <= size
    requires d != [] && Get16(b, at) == |d| && b[at + ENTRY_HEADER_SIZE..at + ENTRY_HEADER_SIZE + |d|] == d
    requires memory(tick) && BreaksAfter(b, size, at + ENTRY_HEADER_SIZE + |d|, memory, tick + 1, es)
    ensures BreaksAfter(b, size, at, memory, tick, [d] + es)
  {
    hide Get16, Put16;
    var next, tail := at + ENTRY_HEADER_SIZE + |d|, EncodeEntries(es);
    assert ([d] + es)[1..] == es;
    Put16Get16(b, at);
    Cut(b, at, at + ENTRY_HEADER_SIZE, next);
    Cut(b, at, next, next + |tail|);
  }

  /** Where an entry breaks it, reading does not go. */
  lemma {:induction false} BreakStops(b: seq<byte>, size: nat, at: nat, n: nat, memory: nat -> bool, tick: nat,
                                      es: seq<Data>)
    requires at <= size && size + 3 <= |b| && |es| < n && BreaksAfter(b, size, at, memory, tick, es)
    ensures !EntriesGo(b, size, at, n, memory, tick)
    decreases n
  {
    hide EntriesGo, Get16, Put16;
    GoStep(b, size, at, n, memory, tick);
    if es != [] {
      var d, tail := es[0], EncodeEntries(es[1..]);
      Spells(b, at, EncodeEntry(d), tail);
      Spells(b, at, Put16(|d|), d);
      Get16At(b, at, |d|);
      BreakStops(b, size, at + ENTRY_HEADER_SIZE + |d|, n - 1, memory, tick + 1, es[1..]);
    }
  }

  lemma HeaderAccepted(q: seq<Field>, b: seq<byte>, size: nat, pos: nat, f: Field, memory: bool)
    requires size + 3 <= |b| && Spelled(b, size, pos, EncodeField(f)) && |f.entries| < 0x1_0000
    ensures pos + FIELD_HEADER_SIZE <= size && Get16(b, pos) == f.ty && Get16(b, pos + 2) == |f.entries|
    ensures HeaderRefused(q, b, size, pos, memory) <==> IndexOf(q, f.ty) == |q| && !memory
  {
    hide Get16, Put16, EncodeEntries, EncodeField, IndexOf;
    var es := EncodeEntries(f.entries);
    FieldText(f);
    Spells(b, pos, Put16(f.ty) + Put16(|f.entries|), es);
    Spells(b, pos, Put16(f.ty), Put16(|f.entries|));
    Get16At(b, pos, f.ty);
    Get16At(b, pos + 2, |f.entries|);
    EntriesSize(f.entries);
  }

  /** Fields that read are read, whatever comes behind them. */
  lemma {:induction false} ReadsAhead(q: seq<Field>, b: seq<byte>, size: nat, pos: nat, n: nat, memory: nat -> bool,
                                      tick: nat, p: seq<Field>)
    requires pos <= size && size + 3 <= |b| && |p| <= n && Reads(q, b, size, pos, memory, tick, p)
    ensures ReadFrom(q, b, size, pos, n, memory, tick)
         == ReadFrom(Merge(q, p), b, size, Place(pos, p), n - |p|, memory, Ticks(tick, p))
    decreases n
  {
    hide ReadFrom, NoEmptyEntry, EntryCountersFit, EncodeField, Absorb, HeaderRefused, EntriesGo, ParseField;
    if p != [] {
      var f, rest := p[0], p[1..];
      Spells(b, pos, EncodeField(f), EncodeFields(rest));
      CountersSplit(p);
      EmptyEntrySplit(p);
      OneReads(q, b, size, pos, n, memory, tick, f);
      ReadsAhead(Absorb(q, f), b, size, pos + |EncodeField(f)|, n - 1, memory, tick + 1 + |f.entries|, rest);
    }
  }

  lemma OneReads(q: seq<Field>, b: seq<byte>, size: nat, pos: nat, n: nat, memory: nat -> bool, tick: nat, f: Field)
    requires pos <= size && size + 3 <= |b| && n > 0
    requires Spelled(b, size, pos, EncodeField(f)) && |f.entries| < 0x1_0000 && [] !in f.entries
    requires (IndexOf(q, f.ty) < |q| || memory(tick)) && AllGranted(memory, tick + 1, |f.entries|)
    ensures ReadFrom(q, b, size, pos, n, memory, tick)
         == ReadFrom(Absorb(q, f), b, size, pos + |EncodeField(f)|, n - 1, memory, tick + 1 + |f.entries|)
  {
    hide Absorb, EncodeField, ParseField, HeaderRefused;
    FieldAccepted(b, size, pos, f);
    HeaderAccepted(q, b, size, pos, f, memory(tick));
    EntriesGoOn(b, size, pos, f, memory, tick);
  }

  lemma EntriesGoOn(b: seq<byte>, size: nat, pos: nat, f: Field, memory: nat -> bool, tick: nat)
    requires pos + FIELD_HEADER_SIZE <= size && size + 3 <= |b|
    requires ParseField(b, size, pos).Parsed? && Get16(b, pos + 2) == |f.entries|
    requires AllGranted(memory, tick + 1, |f.entries|)
    ensures EntriesGo(b, size, pos + FIELD_HEADER_SIZE, Get16(b, pos + 2), memory, tick + 1)
  {
  }

  lemma NothingReads(q: seq<Field>, b: seq<byte>, size: nat, pos: nat, memory: nat -> bool, tick: nat)
    requires pos <= size <= |b|
    ensures Reads(q, b, size, pos, memory, tick, []) && Place(pos, []) == pos && Ticks(tick, []) == tick
    ensures Merge(q, []) == q
  {
    NoEmptyNil();
  }

  lemma HeaderInside(p: seq<Field>, b: seq<byte>, size: nat, pos: nat, memory: bool)
    requires pos <= size && size + 3 <= |b|
    ensures !HeaderRefused(p, b, size, pos, memory) ==> pos + FIELD_HEADER_SIZE <= size
  {
  }

  /** One field that is read. */
  lemma OneRead(q: seq<Field>, b: seq<byte>, size: nat, pos: nat, memory: nat -> bool, tick: nat)
    requires pos <= size && size + 3 <= |b| && !HeaderRefused(q, b, size, pos, memory(tick))
    requires pos + FIELD_HEADER_SIZE <= size
    requires EntriesGo(b, size, pos + FIELD_HEADER_SIZE, Get16(b, pos + 2), memory, tick + 1)
    requires ParseField(b, size, pos).Parsed?
    ensures var f := ParseField(b, size, pos);
            && f.pos == pos + |EncodeField(f.value)| && Spelled(b, size, pos, EncodeField(f.value))
            && |f.value.entries| == Get16(b, pos + 2) && [] !in f.value.entries
            && (IndexOf(q, f.value.ty) < |q| || memory(tick)) && AllGranted(memory, tick + 1, |f.value.entries|)
  {
    hide EncodeField, Get16, HeaderRefused, EntriesGo, ParseField, AllGranted;
    FieldParsed(b, size, pos);
    FieldNumbers(b, size, pos);
    HeaderMeans(q, b, size, pos, memory(tick));
    GoMeans(b, size, pos + FIELD_HEADER_SIZE, Get16(b, pos + 2), memory, tick + 1);
    SameLength(b, pos, ParseField(b, size, pos).pos, EncodeField(ParseField(b, size, pos).value));
  }

  lemma HeaderMeans(q: seq<Field>, b: seq<byte>, size: nat, pos: nat, memory: bool)
    requires pos <= size && size + 3 <= |b| && !HeaderRefused(q, b, size, pos, memory)
    ensures IndexOf(q, Get16(b, pos)) < |q| || memory
  {
    hide Get16;
  }

  lemma GoMeans(b: seq<byte>, size: nat, pos: nat, n: nat, memory: nat -> bool, tick: nat)
    requires pos <= size && size + 3 <= |b| && EntriesGo(b, size, pos, n, memory, tick)
    ensures AllGranted(memory, tick, n)
  {
  }

  lemma SameLength<T>(b: seq<T>, i: nat, j: nat, s: seq<T>)
    requires i <= j <= |b| && b[i..j] == s
    ensures j == i + |s|
  {
  }

  lemma FieldNumbers(b: seq<byte>, size: nat, pos: nat)
    requires pos <= size && size + 3 <= |b| && ParseField(b, size, pos).Parsed?
    ensures pos < size && ParseField(b, size, pos).value.ty == Get16(b, pos)
    ensures |ParseField(b, size, pos).value.entries| == Get16(b, pos + 2)
  {
    hide Get16;
    EntriesParsed(b, size, pos + FIELD_HEADER_SIZE, Get16(b, pos + 2));
  }

  lemma FieldFirst(q: seq<Field>, p: seq<Field>, memory: nat -> bool, tick: nat)
    requires p != []
    ensures EncodeFields(p) == EncodeField(p[0]) + EncodeFields(p[1..])
    ensures EntryCount(p) == |p[0].entries| + EntryCount(p[1..])
    ensures Granted(q, p, memory, tick) <==>
              && (IndexOf(q, p[0].ty) < |q| || memory(tick))
              && AllGranted(memory, tick + 1, |p[0].entries|)
              && Granted(Absorb(q, p[0]), p[1..], memory, tick + 1 + |p[0].entries|)
  {
    hide Absorb, EncodeField, AllGranted, IndexOf;
  }

  lemma SpelledTogether(b: seq<byte>, size: nat, pos: nat, x: seq<byte>, y: seq<byte>)
    requires size <= |b| && Spelled(b, size, pos, x) && Spelled(b, size, pos + |x|, y)
    ensures Spelled(b, size, pos, x + y)
  {
    Cut(b, pos, pos + |x|, pos + |x| + |y|);
  }

  lemma OneMoreReads(q: seq<Field>, b: seq<byte>, size: nat, pos: nat, memory: nat -> bool, tick: nat, p: seq<Field>)
    requires size + 3 <= |b| && p != [] && Spelled(b, size, pos, EncodeField(p[0]))
    requires |p[0].entries| < 0x1_0000 && [] !in p[0].entries
    requires (IndexOf(q, p[0].ty) < |q| || memory(tick)) && AllGranted(memory, tick + 1, |p[0].entries|)
    requires Reads(Absorb(q, p[0]), b, size, pos + |EncodeField(p[0])|, memory, tick + 1 + |p[0].entries|, p[1..])
    ensures Reads(q, b, size, pos, memory, tick, p)
    ensures Place(pos, p) == Place(pos + |EncodeField(p[0])|, p[1..])
    ensures Ticks(tick, p) == Ticks(tick + 1 + |p[0].entries|, p[1..])
  {
    hide NoEmptyEntry, EntryCountersFit, EncodeField, EncodeFields, Absorb, AllGranted, Spelled, Granted, EntryCount;
    FieldFirst(q, p, memory, tick);
    SpelledTogether(b, size, pos, EncodeField(p[0]), EncodeFields(p[1..]));
    CountersSplit(p);
    EmptyEntrySplit(p);
  }

  /** Reading comes to the end of its fields, or to a header or an entry that stops it. */
  lemma {:induction false} ReadsUpTo(q: seq<Field>, b: seq<byte>, size: nat, pos: nat, n: nat, memory: nat -> bool,
                                     tick: nat)
    returns (p: seq<Field>)
    requires pos <= size && size + 3 <= |b|
    ensures |p| <= n && Reads(q, b, size, pos, memory, tick, p)
    ensures var at, k := Place(pos, p), Ticks(tick, p);
            || |p| == n
            || HeaderRefused(Merge(q, p), b, size, at, memory(k))
            || !EntriesGo(b, size, at + FIELD_HEADER_SIZE, Get16(b, at + 2), memory, k + 1)
    decreases n
  {
    hide NoEmptyEntry, EntryCountersFit, EncodeField, Absorb, HeaderRefused, EntriesGo, ParseField;
    p := [];
    NothingReads(q, b, size, pos, memory, tick);
    if n != 0 && !HeaderRefused(q, b, size, pos, memory(tick)) {
      HeaderInside(q, b, size, pos, memory(tick));
      if EntriesGo(b, size, pos + FIELD_HEADER_SIZE, Get16(b, pos + 2), memory, tick + 1) {
        FieldGoes(q, b, size, pos, memory, tick);
        var f := ParseField(b, size, pos);
        OneRead(q, b, size, pos, memory, tick);
        var rest := ReadsUpTo(Absorb(q, f.value), b, size, f.pos, n - 1, memory, tick + 1 + |f.value.entries|);
        p := [f.value] + rest;
        assert p[1..] == rest;
        OneMoreReads(q, b, size, pos, memory, tick, p);
      }
    }
  }

  /** How reading ends behind fields that read. */
  lemma EndsAfter(q: seq<Field>, b: seq<byte>, size: nat, pos: nat, n: nat, memory: nat -> bool, tick: nat,
                  p: seq<Field>)
    requires pos <= size && size + 3 <= |b| && |p| <= n && Reads(q, b, size, pos, memory, tick, p)
    ensures Place(pos, p) <= size
    ensures var r, at, k := ReadFrom(q, b, size, pos, n, memory, tick), Place(pos, p), Ticks(tick, p);
            if |p| == n then r == Accepted(Merge(q, p))
            else if HeaderRefused(Merge(q, p), b, size, at, memory(k)) then r == Refused(Merge(q, p))
            else EntriesGo(b, size, at + FIELD_HEADER_SIZE, Get16(b, at + 2), memory, k + 1) || r == Dangling
  {
    hide EncodeFields, HeaderRefused, EntriesGo, EntryCountersFit, NoEmptyEntry, Absorb, Merge;
    ReadsAhead(q, b, size, pos, n, memory, tick, p);
  }

  /** Reading is stopped by the header behind the fields `p`. */
  ghost predicate StopsAfter(q: seq<Field>, b: seq<byte>, size: nat, pos: nat, n: nat, memory: nat -> bool, tick: nat,
                             p: seq<Field>)
    requires size + 3 <= |b|
  {
    && |p| < n && Reads(q, b, size, pos, memory, tick, p)
    && HeaderRefused(Merge(q, p), b, size, Place(pos, p), memory(Ticks(tick, p)))
  }

  /** Reading is broken off, behind the fields `p`, at an entry of a field with an acceptable header. */
  ghost predicate DanglesAfter(q: seq<Field>, b: seq<byte>, size: nat, pos: nat, n: nat, memory: nat -> bool, tick: nat,
                               p: seq<Field>)
    requires size + 3 <= |b|
  {
    && |p| < n && Reads(q, b, size, pos, memory, tick, p)
    && var at, k := Place(pos, p), Ticks(tick, p);
       && !HeaderRefused(Merge(q, p), b, size, at, memory(k))
       && exists es :: |es| < Get16(b, at + 2) && BreaksAfter(b, size, at + FIELD_HEADER_SIZE, memory, k + 1, es)
  }

  ghost predicate Dangles(q: seq<Field>, b: seq<byte>, size: nat, pos: nat, n: nat, memory: nat -> bool, tick: nat)
    requires size + 3 <= |b|
  {
    exists p :: DanglesAfter(q, b, size, pos, n, memory, tick, p)
  }

  /** For every body, every packet it is read onto and every pattern of refused allocations: it is
      accepted exactly if it spells that many acceptable fields and all is granted. */
  lemma AcceptedExactly(q: seq<Field>, b: seq<byte>, size: nat, pos: nat, n: nat, memory: nat -> bool, tick: nat,
                        r: seq<Field>)
    requires pos <= size && size + 3 <= |b|
    ensures ReadFrom(q, b, size, pos, n, memory, tick) == Accepted(r) <==>
              exists p :: |p| == n && Reads(q, b, size, pos, memory, tick, p) && r == Merge(q, p)
  {
    hide ReadFrom, HeaderRefused, EntriesGo, Reads, Merge;
    forall p | |p| == n && Reads(q, b, size, pos, memory, tick, p)
      ensures ReadFrom(q, b, size, pos, n, memory, tick) == Accepted(Merge(q, p))
    {
      EndsAfter(q, b, size, pos, n, memory, tick, p);
    }
    var p := ReadsUpTo(q, b, size, pos, n, memory, tick);
    EndsAfter(q, b, size, pos, n, memory, tick, p);
  }

  /** It is refused, with the fields before in the packet, exactly if a header stops it. */
  lemma RefusedExactly(q: seq<Field>, b: seq<byte>, size: nat, pos: nat, n: nat, memory: nat -> bool, tick: nat,
                       r: seq<Field>)
    requires pos <= size && size + 3 <= |b|
    ensures ReadFrom(q, b, size, pos, n, memory, tick) == Refused(r) <==>
              exists p :: StopsAfter(q, b, size, pos, n, memory, tick, p) && r == Merge(q, p)
  {
    hide ReadFrom, HeaderRefused, EntriesGo, Reads, Merge;
    forall p | StopsAfter(q, b, size, pos, n, memory, tick, p)
      ensures ReadFrom(q, b, size, pos, n, memory, tick) == Refused(Merge(q, p))
    {
      EndsAfter(q, b, size, pos, n, memory, tick, p);
    }
    var p := ReadsUpTo(q, b, size, pos, n, memory, tick);
    EndsAfter(q, b, size, pos, n, memory, tick, p);
  }

  /** It leaves a freed field linked exactly if an entry breaks it: an empty one, one that overruns
      the body, or one for which memory is refused. */
  lemma DanglesExactly(q: seq<Field>, b: seq<byte>, size: nat, pos: nat, n: nat, memory: nat -> bool, tick: nat)
    requires pos <= size && size + 3 <= |b|
    ensures ReadFrom(q, b, size, pos, n, memory, tick).Dangling? <==> Dangles(q, b, size, pos, n, memory, tick)
  {
    hide ReadFrom, HeaderRefused, EntriesGo, Reads, Merge, BreaksAfter, EncodeFields, EntryCount, Get16;
    forall p | DanglesAfter(q, b, size, pos, n, memory, tick, p)
      ensures ReadFrom(q, b, size, pos, n, memory, tick).Dangling?
    {
      var at, k := Place(pos, p), Ticks(tick, p);
      EndsAfter(q, b, size, pos, n, memory, tick, p);
      HeaderInside(Merge(q, p), b, size, at, memory(k));
      var es :| |es| < Get16(b, at + 2) && BreaksAfter(b, size, at + FIELD_HEADER_SIZE, memory, k + 1, es);
      BreakStops(b, size, at + FIELD_HEADER_SIZE, Get16(b, at + 2), memory, k + 1, es);
    }
    var p := ReadsUpTo(q, b, size, pos, n, memory, tick);
    EndsAfter(q, b, size, pos, n, memory, tick, p);
    var at, k := Place(pos, p), Ticks(tick, p);
    if |p| < n && !HeaderRefused(Merge(q, p), b, size, at, memory(k)) {
      HeaderInside(Merge(q, p), b, size, at, memory(k));
      var es := BreakFound(b, size, at + FIELD_HEADER_SIZE, Get16(b, at + 2), memory, k + 1);
      assert DanglesAfter(q, b, size, pos, n, memory, tick, p);
    }
  }

  // ---------- encodings, and the bytes behind a body ----------

  /** Reading an encoding never stops at a header: it is accepted, or an empty entry leaves the
      packet dangling. */
  lemma {:induction false} EncodingRead(q: seq<Field>, b: seq<byte>, size: nat, pos: nat, p: seq<Field>,
                                        memory: nat -> bool, tick: nat)
    requires Plenty(memory) && EntryCountersFit(p)
    requires size + 3 <= |b| && pos + |EncodeFields(p)| <= size && b[pos..pos + |EncodeFields(p)|] == EncodeFields(p)
    ensures ReadFrom(q, b, size, pos, |p|, memory, tick) == if NoEmptyEntry(p) then Accepted(Merge(q, p)) else Dangling
    decreases |p|
  {
    hide EncodeField, ParseField, NoEmptyEntry, EntryCountersFit, Absorb, EntriesGo, HeaderRefused, Plenty;
    if p == [] {
      NoEmptyNil();
    } else {
      var f, rest := p[0], p[1..];
      Spells(b, pos, EncodeField(f), EncodeFields(rest));
      CountersSplit(p);
      EmptyEntrySplit(p);
      FieldAccepted(b, size, pos, f);
      HeaderAccepted(q, b, size, pos, f, true);
      assert memory(tick) by { PlentyAt(memory, tick); }
      FieldGoes(q, b, size, pos, memory, tick);
      if [] !in f.entries {
        EncodingRead(Absorb(q, f), b, size, pos + |EncodeField(f)|, rest, memory, tick + 1 + Get16(b, pos + 2));
      }
    }
  }

  lemma PlentyAt(memory: nat -> bool, tick: nat)
    requires Plenty(memory)
    ensures memory(tick)
  {
  }

  lemma EncodedBody(q: seq<Field>, p: seq<Field>, slack: seq<byte>, memory: nat -> bool)
    requires Plenty(memory) && CountersFit(p) && |slack| >= 3
    ensures ReadBody(q, EncodeFields(p) + slack, |EncodeFields(p)|, |p|, memory)
         == if NoEmptyEntry(p) then Accepted(Merge(q, p)) else Dangling
  {
    var enc := EncodeFields(p);
    assert (enc + slack)[..|enc|] == enc;
    EncodingRead(q, enc + slack, |enc|, 0, p, memory, 0);
    FieldsSize(p);
  }

  lemma HeaderAgrees(p: seq<Field>, b: seq<byte>, c: seq<byte>, size: nat, pos: nat, memory: bool)
    requires pos <= size && size + 3 <= |b| && size + 3 <= |c| && b[..size] == c[..size]
    ensures HeaderRefused(p, b, size, pos, memory) <==> HeaderRefused(p, c, size, pos, memory)
    ensures !HeaderRefused(p, b, size, pos, memory) ==> pos + 4 <= size
  {
    hide Get16;
    if pos + 4 <= size {
      Get16Agree(b, c, size, pos);
      Get16Agree(b, c, size, pos + 2);
    }
  }

  lemma GoAgrees(b: seq<byte>, c: seq<byte>, size: nat, pos: nat, n: nat, memory: nat -> bool, tick: nat)
    requires pos <= size && size + 3 <= |b| && size + 3 <= |c| && b[..size] == c[..size]
    ensures EntriesGo(b, size, pos, n, memory, tick) <==> EntriesGo(c, size, pos, n, memory, tick)
  {
    hide ParseEntries;
    EntriesIgnoreSlack(b, c, size, pos, n);
  }

  lemma {:induction false} ReadIgnoresSlack(p: seq<Field>, b: seq<byte>, c: seq<byte>, size: nat, pos: nat, n: nat,
                                            memory: nat -> bool, tick: nat)
    requires pos <= size && size + 3 <= |b| && size + 3 <= |c| && b[..size] == c[..size]
    ensures ReadFrom(p, b, size, pos, n, memory, tick) == ReadFrom(p, c, size, pos, n, memory, tick)
    decreases n
  {
    hide ParseField, EntriesGo, HeaderRefused, Absorb, Get16;
    if n != 0 { HeaderAgrees(p, b, c, size, pos, memory(tick)); }
    if n != 0 && pos + 4 <= size {
      Get16Agree(b, c, size, pos + 2);
      FieldIgnoresSlack(b, c, size, pos);
      GoAgrees(b, c, size, pos + 4, Get16(b, pos + 2), memory, tick + 1);
      if !HeaderRefused(p, b, size, pos, memory(tick))
         && EntriesGo(b, size, pos + 4, Get16(b, pos + 2), memory, tick + 1) {
        FieldGoes(p, b, size, pos, memory, tick);
        var f := ParseField(b, size, pos);
        ReadIgnoresSlack(Absorb(p, f.value), b, c, size, f.pos, n - 1, memory, tick + 1 + Get16(b, pos + 2));
      }
    }
  }

  /** What is accepted into an empty packet has distinct types and no empty entry. */
  lemma AcceptedIsPlain(b: seq<byte>, size: nat, n: nat, memory: nat -> bool)
    requires size + 3 <= |b| && ReadBody([], b, size, n, memory).Accepted?
    ensures DistinctTypes(ReadBody([], b, size, n, memory).p) && NoEmptyEntry(ReadBody([], b, size, n, memory).p)
  {
    hide ReadFrom, ParseFields, Merge, NewTypes;
    AcceptedIsDecoded([], b, size, 0, n, memory, 0);
    Reencode(b, size, n);
    MergeTypes([], ParseBody(b, size, n).value);
  }
}
