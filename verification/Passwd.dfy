/**
  Filling a `struct passwd` from a response: the strings of the recognised fields are packed one
  after another into the caller's buffer. Pointers into the buffer are offsets.
 */
module Passwd {
  import opened Bytes
  import opened Wrappers
  import opened Codec
  import opened Packets
  import opened Service
  import opened Buffers

  const NAME: uint16 := 751
  const UID: uint16 := 752
  const GID: uint16 := 753
  const DIR: uint16 := 754
  const SHELL: uint16 := 755
  const GECOS: uint16 := 756

  /** No pointer is None: what the caller left there. */
  datatype Record = Record(name: Option<nat>, uid: uint32, gid: uint32,
                           dir: Option<nat>, shell: Option<nat>, gecos: Option<nat>)

  datatype Errno = EINVAL | ERANGE

  /** NSS_STATUS_SUCCESS with the record and the bytes packed, or NSS_STATUS_TRYAGAIN. */
  datatype Outcome = Filled(record: Record, bytes: seq<byte>) | TryAgain(errno: Errno)

  /** `gecos` tells whether the platform's records have that field. */
  predicate IsString(ty: uint16, gecos: bool) {
    ty == NAME || ty == DIR || ty == SHELL || (gecos && ty == GECOS)
  }

  predicate IsNumber(ty: uint16) { ty == UID || ty == GID }

  function Pointing(r: Record, ty: uint16, at: nat): Record {
    if ty == NAME then r.(name := Some(at))
    else if ty == DIR then r.(dir := Some(at))
    else if ty == SHELL then r.(shell := Some(at))
    else r.(gecos := Some(at))
  }

  /** Only four bytes are a number; otherwise the record keeps what it had. */
  function Numbered(r: Record, ty: uint16, d: Data): Record {
    if |d| != 4 then r
    else if ty == UID then r.(uid := Get32(d, 0))
    else r.(gid := Get32(d, 0))
  }

  /** One field packed behind the bytes already there. */
  function PackOne(f: Field, size: nat, gecos: bool, r: Record, bytes: seq<byte>): Outcome {
    if !IsString(f.ty, gecos) && !IsNumber(f.ty) then Filled(r, bytes)
    else if f.entries == [] then TryAgain(EINVAL)
    else if IsNumber(f.ty) then Filled(Numbered(r, f.ty, f.entries[0]), bytes)
    else if |bytes| + |f.entries[0]| > size then TryAgain(ERANGE)
    else Filled(Pointing(r, f.ty, |bytes|), bytes + Stored(f.entries[0]))
  }

  function Pack(fields: seq<Field>, size: nat, gecos: bool, r: Record, bytes: seq<byte>): Outcome
    decreases |fields|
  {
    if fields == [] then Filled(r, bytes)
    else
      match PackOne(fields[0], size, gecos, r, bytes)
      case TryAgain(e) => TryAgain(e)
      case Filled(r', b') => Pack(fields[1..], size, gecos, r', b')
  }

  // ---------- what packing means ----------

  /** The bytes one field takes in the buffer. */
  function SizeOf(f: Field, gecos: bool): nat {
    if IsString(f.ty, gecos) && f.entries != [] then |f.entries[0]| else 0
  }

  function Needed(fields: seq<Field>, gecos: bool): nat {
    if fields == [] then 0 else SizeOf(fields[0], gecos) + Needed(fields[1..], gecos)
  }

  predicate Complete(fields: seq<Field>, gecos: bool) {
    forall i :: 0 <= i < |fields| && (IsString(fields[i].ty, gecos) || IsNumber(fields[i].ty)) ==>
      fields[i].entries != []
  }

  /** Packing succeeds exactly when every recognised field has an entry and the first entries of
      the string fields fit together; if only the room is missing the error is ERANGE. */
  lemma {:induction false} PackingExact(fields: seq<Field>, size: nat, gecos: bool, r: Record, bytes: seq<byte>)
    requires |bytes| <= size
    ensures Pack(fields, size, gecos, r, bytes).Filled?
       <==> Complete(fields, gecos) && |bytes| + Needed(fields, gecos) <= size
    ensures Complete(fields, gecos) && |bytes| + Needed(fields, gecos) > size
       ==> Pack(fields, size, gecos, r, bytes) == TryAgain(ERANGE)
    decreases |fields|
  {
    if fields != [] {
      var f, rest := fields[0], fields[1..];
      assert Complete(fields, gecos) <==>
        (((IsString(f.ty, gecos) || IsNumber(f.ty)) ==> f.entries != []) && Complete(rest, gecos));
      var o := PackOne(f, size, gecos, r, bytes);
      if o.Filled? { PackingExact(rest, size, gecos, o.record, o.bytes); }
    }
  }

  /** What fits in a buffer is packed alike in any larger one: same pointers, same bytes. */
  lemma {:induction false} PackingMonotone(fields: seq<Field>, size: nat, larger: nat, gecos: bool,
          r: Record, bytes: seq<byte>)
    requires size <= larger && Pack(fields, size, gecos, r, bytes).Filled?
    ensures Pack(fields, larger, gecos, r, bytes) == Pack(fields, size, gecos, r, bytes)
    decreases |fields|
  {
    if fields != [] {
      var f, rest := fields[0], fields[1..];
      var o := PackOne(f, size, gecos, r, bytes);
      PackingMonotone(rest, size, larger, gecos, o.record, o.bytes);
    }
  }

  /** Where the string of field `k` is put: behind those of the fields before it, so the places of
      different fields do not overlap. */
  function PlaceOf(fields: seq<Field>, k: nat, gecos: bool): nat
    requires k <= |fields|
  {
    Needed(fields[..k], gecos)
  }

  lemma {:induction false} NeededGrows(fields: seq<Field>, j: nat, k: nat, gecos: bool)
    requires j < k <= |fields|
    ensures PlaceOf(fields, j, gecos) + SizeOf(fields[j], gecos) <= PlaceOf(fields, k, gecos)
    decreases j
  {
    var rest := fields[1..];
    assert fields[..k][1..] == rest[..k - 1];
    if j > 0 {
      assert fields[..j][1..] == rest[..j - 1];
      NeededGrows(rest, j - 1, k - 1, gecos);
    }
  }

  /** The pointer of the record that belongs to a string type. */
  function PointerOf(r: Record, ty: uint16): Option<nat> {
    if ty == NAME then r.name else if ty == DIR then r.dir else if ty == SHELL then r.shell else r.gecos
  }

  function NumberOf(r: Record, ty: uint16): uint32 {
    if ty == UID then r.uid else r.gid
  }

  /** Packing only ever adds behind the bytes there, and leaves alone the pointers of types that do
      not occur. */
  lemma {:induction false} PackingAdds(fields: seq<Field>, size: nat, gecos: bool, r: Record,
          bytes: seq<byte>, ty: uint16)
    requires Pack(fields, size, gecos, r, bytes).Filled?
    ensures var o := Pack(fields, size, gecos, r, bytes);
            && |bytes| <= |o.bytes| && o.bytes[..|bytes|] == bytes
            && ((forall i :: 0 <= i < |fields| ==> fields[i].ty != ty) ==>
                  && (IsString(ty, gecos) ==> PointerOf(o.record, ty) == PointerOf(r, ty))
                  && (IsNumber(ty) ==> NumberOf(o.record, ty) == NumberOf(r, ty)))
    decreases |fields|
  {
    if fields != [] {
      var f, rest := fields[0], fields[1..];
      var o := PackOne(f, size, gecos, r, bytes);
      PackingAdds(rest, size, gecos, o.record, o.bytes, ty);
    }
  }

  predicate LastOfItsType(fields: seq<Field>, k: nat)
    requires k < |fields|
  {
    forall i :: k < i < |fields| ==> fields[i].ty != fields[k].ty
  }

  lemma LastInTail(fields: seq<Field>, k: nat)
    requires 0 < k < |fields|
    ensures LastOfItsType(fields, k) <==> LastOfItsType(fields[1..], k - 1)
  {
    var rest := fields[1..];
    assert forall i :: 1 <= i < |fields| ==> fields[i] == rest[i - 1];
    assert forall i :: 0 <= i < |rest| ==> rest[i] == fields[i + 1];
  }

  /** After success the string of each field stands at its place, terminated within its size, and
      if no later field has its type the record points to it. */
  lemma {:induction false} StringsPlaced(fields: seq<Field>, size: nat, gecos: bool, r: Record,
          bytes: seq<byte>, k: nat)
    requires Pack(fields, size, gecos, r, bytes).Filled?
    requires k < |fields| && IsString(fields[k].ty, gecos)
    ensures fields[k].entries != []
    ensures var o := Pack(fields, size, gecos, r, bytes);
            var (d, at) := (fields[k].entries[0], |bytes| + PlaceOf(fields, k, gecos));
            && at + |d| <= |o.bytes| && o.bytes[at..at + |d|] == Stored(d)
            && (LastOfItsType(fields, k) ==> PointerOf(o.record, fields[k].ty) == Some(at))
    decreases |fields|
  {
    hide Stored, PackOne;
    var rest := fields[1..];
    var o := PackOne(fields[0], size, gecos, r, bytes);
    OneAdds(fields[0], size, gecos, r, bytes);
    if k == 0 {
      PackingAdds(rest, size, gecos, o.record, o.bytes, fields[0].ty);
      var n := |bytes| + |Stored(fields[0].entries[0])|;
      var end := Pack(fields, size, gecos, r, bytes);
      assert end.bytes[|bytes|..n] == end.bytes[..n][|bytes|..];
    } else {
      assert fields[..k][1..] == rest[..k - 1];
      LastInTail(fields, k);
      StringsPlaced(rest, size, gecos, o.record, o.bytes, k - 1);
    }
  }

  lemma OneAdds(f: Field, size: nat, gecos: bool, r: Record, bytes: seq<byte>)
    requires PackOne(f, size, gecos, r, bytes).Filled?
    ensures var o := PackOne(f, size, gecos, r, bytes);
            && |o.bytes| == |bytes| + SizeOf(f, gecos)
            && (IsString(f.ty, gecos) ==>
                  f.entries != [] && o.bytes == bytes + Stored(f.entries[0])
                  && PointerOf(o.record, f.ty) == Some(|bytes|))
  {
  }

  /** After success a number field of four bytes, if no later field has its type, is the number in
      network order; one of another size counts for nothing. */
  lemma {:induction false} NumbersTaken(fields: seq<Field>, size: nat, gecos: bool, r: Record, bytes: seq<byte>, k: nat)
    requires Pack(fields, size, gecos, r, bytes).Filled?
    requires k < |fields| && IsNumber(fields[k].ty) && LastOfItsType(fields, k)
    ensures fields[k].entries != []
    ensures |fields[k].entries[0]| == 4 ==>
              NumberOf(Pack(fields, size, gecos, r, bytes).record, fields[k].ty) == Get32(fields[k].entries[0], 0)
    decreases |fields|
  {
    var rest := fields[1..];
    var o := PackOne(fields[0], size, gecos, r, bytes);
    if k == 0 {
      PackingAdds(rest, size, gecos, o.record, o.bytes, fields[0].ty);
    } else {
      LastInTail(fields, k);
      NumbersTaken(rest, size, gecos, o.record, o.bytes, k - 1);
    }
  }

  /** For any received response, whatever message it comes from: if packing into `size` bytes
      succeeds, each string field behind the first field stands at its own place within the buffer,
      terminated, and the record points to it. */
  lemma ResponsePacked(message: seq<byte>, size: nat, gecos: bool, r: Record, k: nat)
    requires Received([], message).Some?
    requires var fields := Payload(Received([], message).value);
             Pack(fields, size, gecos, r, []).Filled? && k < |fields| && IsString(fields[k].ty, gecos)
    ensures var fields := Payload(Received([], message).value);
            var o := Pack(fields, size, gecos, r, []);
            var at := PlaceOf(fields, k, gecos);
            && fields[k].entries != [] && fields[k].entries[0] != []
            && PointerOf(o.record, fields[k].ty) == Some(at)
            && at + |fields[k].entries[0]| <= |o.bytes| <= size
            && CString(o.bytes[at..]) == CString(fields[k].entries[0][..|fields[k].entries[0]| - 1])
  {
    hide Received, Pack;
    var p := Received([], message).value;
    var fields := Payload(p);
    ReceivedIsPlain(message);
    StringsPlaced(fields, size, gecos, r, [], k);
    NoEmptyAt(p, k + 1);
    PackingWithin(fields, size, gecos, r, []);
    var o := Pack(fields, size, gecos, r, []);
    var at, d := PlaceOf(fields, k, gecos), fields[k].entries[0];
    assert o.bytes[at..] == o.bytes[at..at + |d|] + o.bytes[at + |d|..];
    StoredIsTerminated(d, o.bytes[at + |d|..]);
  }

  lemma {:induction false} PackingWithin(fields: seq<Field>, size: nat, gecos: bool, r: Record, bytes: seq<byte>)
    requires |bytes| <= size && Pack(fields, size, gecos, r, bytes).Filled?
    ensures |Pack(fields, size, gecos, r, bytes).bytes| == |bytes| + Needed(fields, gecos) <= size
    decreases |fields|
  {
    if fields != [] {
      var o := PackOne(fields[0], size, gecos, r, bytes);
      PackingWithin(fields[1..], size, gecos, o.record, o.bytes);
    }
  }

  // ---------- the numbers of the types and the members they fill ----------

  /** After success the last field of each type fills its own member of the record: types 751, 754
      and 755, and 756 where the records have it, are strings that stand where the members point. */
  lemma MembersPointed(fields: seq<Field>, size: nat, gecos: bool, r: Record, k: nat)
    requires Pack(fields, size, gecos, r, []).Filled?
    requires k < |fields| && forall i :: k < i < |fields| ==> fields[i].ty != fields[k].ty
    requires fields[k].ty in {751, 754, 755} || (gecos && fields[k].ty == 756)
    ensures var o := Pack(fields, size, gecos, r, []);
            var (f, at) := (fields[k], PlaceOf(fields, k, gecos));
            && (f.ty == 751 ==> o.record.name == Some(at))
            && (f.ty == 754 ==> o.record.dir == Some(at))
            && (f.ty == 755 ==> o.record.shell == Some(at))
            && (f.ty == 756 ==> o.record.gecos == Some(at))
            && f.entries != [] && at + |f.entries[0]| <= |o.bytes| <= size
            && o.bytes[at..at + |f.entries[0]|] == Stored(f.entries[0])
  {
    hide Pack, PlaceOf, Stored;
    StringsPlaced(fields, size, gecos, r, [], k);
    PackingWithin(fields, size, gecos, r, []);
  }

  /** A field that holds a number of type `ty`: its first entry has four bytes. */
  predicate HoldsNumber(f: Field, ty: uint16) { f.ty == ty && f.entries != [] && |f.entries[0]| == 4 }

  /** Types 752 and 753 are the numbers of user and group, the highest byte first: the last field
      whose first entry has four bytes counts. */
  lemma {:induction false} NumbersRead(fields: seq<Field>, size: nat, gecos: bool, r: Record, bytes: seq<byte>, k: nat)
    requires Pack(fields, size, gecos, r, bytes).Filled?
    requires k < |fields| && (HoldsNumber(fields[k], 752) || HoldsNumber(fields[k], 753))
    requires forall i :: k < i < |fields| ==> !HoldsNumber(fields[i], fields[k].ty)
    ensures var o := Pack(fields, size, gecos, r, bytes);
            var (f, d) := (fields[k], fields[k].entries[0]);
            var n := 16777216 * d[0] as int + 65536 * d[1] as int + 256 * d[2] as int + d[3];
            && (f.ty == 752 ==> o.record.uid == n)
            && (f.ty == 753 ==> o.record.gid == n)
    decreases |fields|
  {
    var rest := fields[1..];
    var o := PackOne(fields[0], size, gecos, r, bytes);
    if k == 0 {
      NumbersLeft(rest, size, gecos, o.record, o.bytes);
    } else {
      assert forall i :: 0 <= i < |rest| ==> rest[i] == fields[i + 1];
      NumbersRead(rest, size, gecos, o.record, o.bytes, k - 1);
    }
  }

  /** Without such a field a number is left as it was. */
  lemma {:induction false} NumbersLeft(fields: seq<Field>, size: nat, gecos: bool, r: Record, bytes: seq<byte>)
    requires Pack(fields, size, gecos, r, bytes).Filled?
    ensures var o := Pack(fields, size, gecos, r, bytes);
            && ((forall i :: 0 <= i < |fields| ==> !HoldsNumber(fields[i], 752)) ==> o.record.uid == r.uid)
            && ((forall i :: 0 <= i < |fields| ==> !HoldsNumber(fields[i], 753)) ==> o.record.gid == r.gid)
    decreases |fields|
  {
    if fields != [] {
      var rest := fields[1..];
      var o := PackOne(fields[0], size, gecos, r, bytes);
      assert forall i :: 0 <= i < |rest| ==> rest[i] == fields[i + 1];
      NumbersLeft(rest, size, gecos, o.record, o.bytes);
    }
  }

  /** A string member is left as it was if no field has its type; without the platform's support
      so is the last one, whatever the fields. */
  lemma PointersLeft(fields: seq<Field>, size: nat, gecos: bool, r: Record)
    requires Pack(fields, size, gecos, r, []).Filled?
    ensures var o := Pack(fields, size, gecos, r, []);
            && ((forall i :: 0 <= i < |fields| ==> fields[i].ty != 751) ==> o.record.name == r.name)
            && ((forall i :: 0 <= i < |fields| ==> fields[i].ty != 754) ==> o.record.dir == r.dir)
            && ((forall i :: 0 <= i < |fields| ==> fields[i].ty != 755) ==> o.record.shell == r.shell)
            && ((forall i :: 0 <= i < |fields| ==> fields[i].ty != 756) ==> o.record.gecos == r.gecos)
            && (!gecos ==> o.record.gecos == r.gecos)
  {
    hide Pack;
    PackingAdds(fields, size, gecos, r, [], 751);
    PackingAdds(fields, size, gecos, r, [], 754);
    PackingAdds(fields, size, gecos, r, [], 755);
    if gecos { PackingAdds(fields, size, gecos, r, [], 756); } else { NoGecos(fields, size, r, []); }
  }

  lemma {:induction false} NoGecos(fields: seq<Field>, size: nat, r: Record, bytes: seq<byte>)
    requires Pack(fields, size, false, r, bytes).Filled?
    ensures Pack(fields, size, false, r, bytes).record.gecos == r.gecos
    decreases |fields|
  {
    if fields != [] {
      var o := PackOne(fields[0], size, false, r, bytes);
      NoGecos(fields[1..], size, o.record, o.bytes);
    }
  }

  /** A field of any other type makes no difference anywhere among the fields. */
  lemma {:induction false} OthersSkipped(fields: seq<Field>, f: Field, after: seq<Field>, size: nat,
          gecos: bool, r: Record, bytes: seq<byte>)
    requires f.ty !in {751, 752, 753, 754, 755, 756} || (!gecos && f.ty == 756)
    ensures Pack(fields + [f] + after, size, gecos, r, bytes) == Pack(fields + after, size, gecos, r, bytes)
    decreases |fields|
  {
    if fields == [] {
      assert fields + [f] + after == [f] + after && ([f] + after)[1..] == after && fields + after == after;
    } else {
      var rest := fields[1..];
      assert (fields + [f] + after)[1..] == rest + [f] + after && (fields + after)[1..] == rest + after;
      var o := PackOne(fields[0], size, gecos, r, bytes);
      if o.Filled? { OthersSkipped(rest, f, after, size, gecos, o.record, o.bytes); }
    }
  }

  /** The first field that lacks its entry stops packing with EINVAL, unless the strings before it
      already lack room. */
  lemma {:induction false} WithoutEntry(fields: seq<Field>, k: nat, size: nat, gecos: bool, r: Record, bytes: seq<byte>)
    requires |bytes| <= size && k < |fields| && fields[k].entries == []
    requires fields[k].ty in {751, 752, 753, 754, 755} || (gecos && fields[k].ty == 756)
    requires Complete(fields[..k], gecos)
    ensures Pack(fields, size, gecos, r, bytes)
         == TryAgain(if |bytes| + PlaceOf(fields, k, gecos) <= size then EINVAL else ERANGE)
    decreases k
  {
    if k > 0 {
      var f, rest := fields[0], fields[1..];
      var p := fields[..k];
      assert p[0] == f && p[1..] == rest[..k - 1];
      assert forall i :: 0 <= i < |p[1..]| ==> p[1..][i] == p[i + 1];
      var o := PackOne(f, size, gecos, r, bytes);
      if o.Filled? { WithoutEntry(rest, k - 1, size, gecos, o.record, o.bytes); }
    }
  }

  // ---------- the program ----------

  class PasswdEntry {
    var name: Option<nat>
    var uid: uint32
    var gid: uint32
    var dir: Option<nat>
    var shell: Option<nat>
    var gecos: Option<nat>

    function Value(): Record
      reads this
    {
      Record(name, uid, gid, dir, shell, gecos)
    }

    method Point(ty: uint16, at: nat)
      modifies this
      ensures Value() == Pointing(old(Value()), ty, at)
    {
      if ty == NAME { name := Some(at); }
      else if ty == DIR { dir := Some(at); }
      else if ty == SHELL { shell := Some(at); }
      else { gecos := Some(at); }
    }

    method SetNumber(ty: uint16, d: Data)
      modifies this
      ensures Value() == Numbered(old(Value()), ty, d)
    {
      if |d| == 4 {
        if ty == UID { uid := Get32(d, 0); } else { gid := Get32(d, 0); }
      }
    }
  }

  /** One field: the new cursor, or an error. */
  method PopulateField(field: FieldNode, pwd: PasswdEntry, buffer: array<byte>, at: nat, gecos: bool)
    returns (bi: nat, errno: Option<Errno>)
    requires field.Valid() && [] !in field.Model().entries && at <= buffer.Length
    modifies pwd, buffer
    ensures at <= bi <= buffer.Length && buffer[bi..] == old(buffer[bi..])
    ensures PackOne(field.Model(), buffer.Length, gecos, old(pwd.Value()), old(buffer[..at]))
         == match errno case None => Filled(pwd.Value(), buffer[..bi]) case Some(e) => TryAgain(e)
  {
    ghost var f := field.Model();
    bi, errno := at, None;
    if IsString(field.ty, gecos) || IsNumber(field.ty) {
      var entry := field.entryHead;
      if entry == null { return bi, Some(EINVAL); }
      assert entry.data == f.entries[0];
      if IsNumber(field.ty) {
        pwd.SetNumber(field.ty, entry.data);
      } else {
        if at + |entry.data| > buffer.Length { return bi, Some(ERANGE); }
        Store(buffer, at, entry.data);
        pwd.Point(field.ty, at);
        bi := at + |entry.data|;
      }
    }
  }

  /** Fills `pwd` and the buffer from the fields of a response behind its first one. The entries
      of a received response are never empty. */
  method Populate(response: Packet, pwd: PasswdEntry, buffer: array<byte>, gecos: bool) returns (errno: Option<Errno>)
    requires response.Valid() && NoEmptyEntry(response.Model())
    modifies pwd, buffer
    ensures match Pack(Payload(response.Model()), buffer.Length, gecos, old(pwd.Value()), [])
            case Filled(record, bytes) =>
              errno == None && pwd.Value() == record && |bytes| <= buffer.Length
              && buffer[..|bytes|] == bytes && buffer[|bytes|..] == old(buffer[|bytes|..])
            case TryAgain(e) => errno == Some(e)
  {
    hide PackOne, NoEmptyEntry, Packet.Valid, FieldNode.Valid, FieldNode.Model, Packet.Model, PasswdEntry.Value;
    ghost var m, was := response.Model(), buffer[..];
    PacketHead(response);
    errno := None;
    ghost var goal := Pack(Payload(m), buffer.Length, gecos, pwd.Value(), []);
    var field := if response.fieldHead != null then response.fieldHead.next else null;
    ghost var k := 1;
    var bi: nat := 0;
    while field != null
      invariant 1 <= k && field == if k < |m| then response.fields[k] else null
      invariant errno == None && bi <= buffer.Length && buffer[bi..] == was[bi..]
      invariant Pack(if k < |m| then m[k..] else [], buffer.Length, gecos, pwd.Value(), buffer[..bi]) == goal
      decreases |m| - k
    {
      PacketField(response, k);
      NoEmptyAt(m, k);
      assert m[k..][1..] == m[k + 1..];
      ghost var before := buffer[..];
      bi, errno := PopulateField(field, pwd, buffer, bi, gecos);
      if errno.Some? { return; }
      assert buffer[bi..] == before[bi..] == was[bi..];
      field, k := field.next, k + 1;
    }
  }
}
