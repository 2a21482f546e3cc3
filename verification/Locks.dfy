/**
  Threads on one packet: `append`, `insert`, `get_or_add` and `get_or_inject` check and act under
  the field lock, `get_by_type` and `get_by_offset` read without it. A transition system under
  sequential consistency; every schedule of any number of threads is a run. A step is one store of
  a writer, with the loads it needs, which nobody can change under the lock, or one load of a search.
 */
module Locks {
  import opened Bytes
  import opened Wrappers

  type Ref = nat
  type Tid = nat

  /** A field in memory. `whole` is false only while its first entry is still to be added. */
  datatype Node = Node(ty: uint16, next: Option<Ref>, previous: Option<Ref>, whole: bool)

  /** Shared memory. `chain` is the abstract value: what following `next` from `head` visits. */
  datatype Memory = Memory(nodes: map<Ref, Node>, head: Option<Ref>, tail: Option<Ref>, count: uint16, chain: seq<Ref>)

  /** A writer's call: `append` and `insert` bring an entry and fail if the type is there;
      `insert` and `get_or_inject` put the field in front. */
  datatype Call = Call(ty: uint16, front: bool, entry: bool)

  /** What a call reports: `append` and `insert` fail if the type exists, every writer if memory is
      refused; a writer makes a field or finds it; a search by type finds a field or does not; a
      search by offset yields a field, or is refused by the counter, or falls off the end of the
      chain. `first` is the head it started from, `count` the counter that refused it, and `length`
      how long the chain was when the counter was loaded. */
  datatype Result =
    | NoMemory
    | Exists(ty: uint16)
    | Made(ty: uint16, node: Ref)
    | Found(ty: uint16, node: Ref)
    | Missing(present: bool)
    | AtOffset(offset: uint16, first: Ref, node: Ref)
    | NoOffset(offset: uint16, count: uint16, length: nat)
    | FellOff

  /** Where a thread is. `passed` counts the fields a scan has passed; `base` is the chain when
      linking began; `present` tells whether the type looked for was in the chain when `head` was
      loaded, and `moves` counts the `next` links loaded since. */
  datatype Pc =
    | Idle
    | Waiting(call: Call)
    | Scanning(call: Call, cur: Option<Ref>, passed: nat)
    | Allocating(call: Call)
    | Filling(call: Call, node: Ref)
    | Linking(call: Call, node: Ref, step: nat, base: seq<Ref>)
    | Unlocking(result: Result)
    | Looking(ty: uint16, cur: Option<Ref>, present: bool, moves: nat)
    | Advancing(ty: uint16, at: Ref, present: bool, moves: nat)
    | Counting(offset: uint16)
    | Heading(offset: uint16)
    | Walking(offset: uint16, first: Option<Ref>, cur: Option<Ref>, c: nat)
    | Finished(result: Result)

  /** `reports` holds every result that a call has ever ended with, in order. */
  datatype State = State(m: Memory, lock: Option<Tid>, threads: map<Tid, Pc>, reports: seq<(Tid, Result)>)

  /** What the environment decides at a step: the next call of a thread, and whether memory for a
      field or an entry can be had (`Alloc` gives an unused node; any other choice is a NULL). */
  datatype Choice = Begin(call: Call) | Look(ty: uint16) | Nth(offset: uint16) | Alloc(node: Ref) | EntryAdded
                  | OutOfMemory

  function First(s: seq<Ref>): Option<Ref> {
    if s == [] then None else Some(s[0])
  }

  function Last(s: seq<Ref>): Option<Ref> {
    if s == [] then None else Some(s[|s| - 1])
  }

  /** The chain has a field of type `ty` at position `j` or later. */
  ghost predicate HasTypeFrom(m: Memory, ty: uint16, j: nat) {
    exists p :: j <= p < |m.chain| && m.chain[p] in m.nodes && m.nodes[m.chain[p]].ty == ty
  }

  // ---------- steps ----------

  function SetNode(m: Memory, r: Ref, n: Node): Memory { m.(nodes := m.nodes[r := n]) }

  function SetNext(m: Memory, r: Ref, next: Option<Ref>): Memory {
    if r in m.nodes then SetNode(m, r, m.nodes[r].(next := next)) else m
  }

  function SetPrevious(m: Memory, r: Ref, previous: Option<Ref>): Memory {
    if r in m.nodes then SetNode(m, r, m.nodes[r].(previous := previous)) else m
  }

  /** One store of `_field_add_locked`; the chain grows with the store that makes `r` visible. */
  function AddStep(m: Memory, r: Ref, n: Node, step: nat): Memory {
    if step == 0 then if m.head == None then m.(head := Some(r), chain := [r]) else m
    else if step == 1 then SetPrevious(m, r, m.tail)
    else if step == 2 then
      match n.previous
      case None => m
      case Some(p) => SetNext(m, p, Some(r)).(chain := m.chain + [r])
    else if step == 3 then m.(tail := Some(r))
    else m.(count := (m.count + 1) % 0x1_0000)
  }

  /** One store of `_field_inject_locked`. */
  function InjectStep(m: Memory, r: Ref, n: Node, step: nat): Memory {
    if step == 0 then if m.tail == None then m.(tail := Some(r)) else m
    else if step == 1 then SetNext(m, r, m.head)
    else if step == 2 then
      match n.next
      case None => m
      case Some(q) => SetPrevious(m, q, Some(r))
    else if step == 3 then m.(head := Some(r), chain := [r] + m.chain)
    else m.(count := (m.count + 1) % 0x1_0000)
  }

  /** The next step of a thread that holds the lock: memory and place afterwards. Nobody else
      writes, so what it has loaded stays as it is. */
  function HolderStep(m: Memory, pc: Pc, c: Choice): (Memory, Pc) {
    match pc
    case Scanning(call, None, _) => (m, Allocating(call))
    case Scanning(call, Some(r), passed) =>
      if r !in m.nodes then (m, pc)
      else if m.nodes[r].ty == call.ty then (m, Unlocking(if call.entry then Exists(call.ty) else Found(call.ty, r)))
      else (m, Scanning(call, m.nodes[r].next, passed + 1))
    case Allocating(call) =>
      if c.Alloc? && c.node !in m.nodes then
        (SetNode(m, c.node, Node(call.ty, None, None, !call.entry)),
         if call.entry then Filling(call, c.node) else Linking(call, c.node, 0, m.chain))
      else (m, Unlocking(NoMemory))
    case Filling(call, r) =>
      if r !in m.nodes then (m, pc)
      else if c.EntryAdded? then (SetNode(m, r, m.nodes[r].(whole := true)), Linking(call, r, 0, m.chain))
      else (m.(nodes := m.nodes - {r}), Unlocking(NoMemory))
    case Linking(call, r, step, base) =>
      if r !in m.nodes then (m, pc)
      else (if call.front then InjectStep(m, r, m.nodes[r], step) else AddStep(m, r, m.nodes[r], step),
            if step < 4 then Linking(call, r, step + 1, base) else Unlocking(Made(call.ty, r)))
    case _ => (m, pc)
  }

  /** The next step of a thread outside the lock; it does not write. */
  ghost function ReaderStep(m: Memory, pc: Pc, c: Choice): Pc {
    match pc
    case Idle => NewCall(m, pc, c)
    case Finished(_) => NewCall(m, pc, c)
    case Looking(ty, None, present, _) => Finished(Missing(present))
    case Looking(ty, Some(r), present, moves) =>
      if r !in m.nodes then pc
      else if m.nodes[r].ty == ty then Finished(Found(ty, r))
      else Advancing(ty, r, present, moves)
    case Advancing(ty, r, present, moves) =>
      if r !in m.nodes then pc else Looking(ty, m.nodes[r].next, present, moves + 1)
    case Counting(offset) =>
      if offset < m.count then Heading(offset) else Finished(NoOffset(offset, m.count, |m.chain|))
    case Heading(offset) => Walking(offset, m.head, m.head, 0)
    case Walking(offset, first, cur, n) =>
      if first == None || cur == None then Finished(FellOff)
      else if cur.value !in m.nodes then pc
      else if n == offset then Finished(AtOffset(offset, first.value, cur.value))
      else Walking(offset, first, m.nodes[cur.value].next, n + 1)
    case _ => pc
  }

  ghost function NewCall(m: Memory, pc: Pc, c: Choice): Pc {
    match c
    case Begin(call) => Waiting(call)
    case Look(ty) => Looking(ty, m.head, HasTypeFrom(m, ty, 0), 0)
    case Nth(offset) => Counting(offset)
    case _ => pc
  }

  /** A thread goes on to `pc`; ending a call is reporting its result. */
  function Moved(s: State, t: Tid, pc: Pc): State
    requires t in s.threads
  {
    s.(threads := s.threads[t := pc],
       reports := if pc.Finished? && !s.threads[t].Finished? then s.reports + [(t, pc.result)] else s.reports)
  }

  ghost function Step(s: State, t: Tid, c: Choice): State {
    if t !in s.threads then s
    else if s.threads[t].Waiting? && s.lock == None then
      Moved(s, t, Scanning(s.threads[t].call, s.m.head, 0)).(lock := Some(t))
    else if s.lock == Some(t) then
      if s.threads[t].Unlocking? then Moved(s, t, Finished(s.threads[t].result)).(lock := None)
      else
        var (m, pc) := HolderStep(s.m, s.threads[t], c);
        Moved(s, t, pc).(m := m)
    else Moved(s, t, ReaderStep(s.m, s.threads[t], c))
  }

  /** A schedule says which thread moves next, and with which choice. */
  ghost function Run(s: State, schedule: seq<(Tid, Choice)>): State
    decreases |schedule|
  {
    if schedule == [] then s else Run(Step(s, schedule[0].0, schedule[0].1), schedule[1..])
  }

  /** An empty packet and any number of idle threads. */
  ghost predicate Initial(s: State) {
    && s.m == Memory(map[], None, None, 0, [])
    && s.lock == None && s.reports == []
    && forall t :: t in s.threads ==> s.threads[t] == Idle
  }

  // ---------- the invariant ----------

  /** The forward chain is what memory says, and its fields are whole and of distinct types. */
  ghost predicate Chained(m: Memory) {
    && (forall i :: 0 <= i < |m.chain| ==> m.chain[i] in m.nodes && m.nodes[m.chain[i]].whole)
    && m.head == First(m.chain)
    && (forall i, j :: 0 <= i < j == i + 1 < |m.chain| ==> m.nodes[m.chain[i]].next == Some(m.chain[j]))
    && (m.chain != [] ==> m.nodes[m.chain[|m.chain| - 1]].next == None)
    && (forall i, j :: 0 <= i < j < |m.chain| ==> m.nodes[m.chain[i]].ty != m.nodes[m.chain[j]].ty)
  }

  /** Following `previous` from the last of `c` visits `c` backwards up to its first field. */
  ghost predicate Backward(m: Memory, c: seq<Ref>) {
    && (forall i :: 0 <= i < |c| ==> c[i] in m.nodes)
    && (forall i, j :: 0 <= i < j == i + 1 < |c| ==> m.nodes[c[j]].previous == Some(c[i]))
  }

  /** What holds whenever nobody is changing the list. */
  ghost predicate Stable(m: Memory) {
    && Chained(m)
    && Backward(m, m.chain)
    && (m.chain != [] ==> m.nodes[m.chain[0]].previous == None)
    && m.tail == Last(m.chain)
    && m.count == Low16(|m.chain|)
  }

  ghost predicate Lacks(m: Memory, c: seq<Ref>, ty: uint16) {
    forall i :: 0 <= i < |c| ==> c[i] in m.nodes && m.nodes[c[i]].ty != ty
  }

  /** What holds before step `step` of linking `r` into the chain `base` at the tail. */
  ghost predicate Adding(m: Memory, call: Call, r: Ref, step: nat, base: seq<Ref>) {
    && r in m.nodes
    && m.nodes[r] == Node(call.ty, None, if step <= 1 then None else Last(base), true)
    && m.chain == (if step == 0 || (step <= 2 && base != []) then base else base + [r])
    && m.tail == (if step <= 3 then Last(base) else Some(r))
    && m.count == Low16(|base|)
    && Lacks(m, base, call.ty)
    && Backward(m, base)
    && (base != [] ==> m.nodes[base[0]].previous == None)
  }

  /** What holds before step `step` of linking `r` into the chain `base` at the head. */
  ghost predicate Injecting(m: Memory, call: Call, r: Ref, step: nat, base: seq<Ref>) {
    && r in m.nodes
    && m.nodes[r] == Node(call.ty, if step <= 1 then None else First(base), None, true)
    && m.chain == (if step <= 3 then base else [r] + base)
    && m.tail == (if base != [] then Last(base) else if step == 0 then None else Some(r))
    && m.count == Low16(|base|)
    && Lacks(m, base, call.ty)
    && Backward(m, base)
    && (base != [] ==> m.nodes[base[0]].previous == (if step <= 2 then None else Some(r)))
  }

  ghost predicate Visible(m: Memory, ty: uint16, r: Ref) {
    exists i :: 0 <= i < |m.chain| && m.chain[i] == r && r in m.nodes && m.nodes[r].ty == ty && m.nodes[r].whole
  }

  ghost predicate ResultOk(m: Memory, result: Result) {
    match result
    case NoMemory => true
    case Exists(ty) => HasTypeFrom(m, ty, 0)
    case Made(ty, r) => Visible(m, ty, r)
    case Found(ty, r) => Visible(m, ty, r)
    case Missing(present) => !present
    case AtOffset(offset, first, r) => Behind(m, first, offset, r) && r in m.nodes && m.nodes[r].whole
    case NoOffset(offset, count, length) => count <= offset && length <= |m.chain| && Counts(count, length)
    case FellOff => false
  }

  /** `r` stands in the chain, `n` places behind `first`. */
  ghost predicate Behind(m: Memory, first: Ref, n: nat, r: Ref) {
    exists j :: 0 <= j < |m.chain| && m.chain[j] == first && j + n < |m.chain| && m.chain[j + n] == r
  }

  /** The counter for a chain of that length, which may be one behind while a field is being linked. */
  predicate Counts(count: uint16, length: nat) {
    count == Low16(length) || (length > 0 && count == Low16(length - 1))
  }

  /** What the thread that holds the lock can rely on. */
  ghost predicate HolderOk(m: Memory, pc: Pc) {
    match pc
    case Scanning(call, cur, passed) => Stable(m) && ScanAt(m, call.ty, cur, passed)
    case Allocating(call) => Stable(m) && Lacks(m, m.chain, call.ty)
    case Filling(call, r) =>
      && Stable(m) && Lacks(m, m.chain, call.ty)
      && r in m.nodes && m.nodes[r] == Node(call.ty, None, None, false)
    case Linking(call, r, step, base) =>
      && step <= 4 && Chained(m)
      && if call.front then Injecting(m, call, r, step, base) else Adding(m, call, r, step, base)
    case Unlocking(result) => Stable(m) && ResultOk(m, result)
    case _ => false
  }

  /** A scan has passed `passed` fields without meeting the type and come to `cur`. */
  ghost predicate ScanAt(m: Memory, ty: uint16, cur: Option<Ref>, passed: nat) {
    passed <= |m.chain| && Lacks(m, m.chain[..passed], ty) && cur == First(m.chain[passed..])
  }

  /** What a thread outside the lock can rely on. */
  ghost predicate ReaderOk(m: Memory, pc: Pc) {
    match pc
    case Idle => true
    case Waiting(_) => true
    case Finished(result) => ResultOk(m, result)
    case Looking(ty, None, present, moves) => !present
    case Looking(ty, Some(r), present, moves) => LookAt(m, ty, r, present, moves)
    case Advancing(ty, r, present, moves) => LookAt(m, ty, r, present, moves) && r in m.nodes && m.nodes[r].ty != ty
    case Counting(_) => true
    case Heading(offset) => offset < |m.chain|
    case Walking(offset, first, cur, n) => first.Some? && cur.Some? && WalkAt(m, offset, first.value, cur.value, n)
    case _ => false
  }

  /** A search has come to `r`, and the type is not behind it if it was there at the start. */
  ghost predicate LookAt(m: Memory, ty: uint16, r: Ref, present: bool, moves: nat) {
    exists j :: moves <= j < |m.chain| && m.chain[j] == r && (present ==> HasTypeFrom(m, ty, j))
  }

  /** A scan by offset has come from `first` to `r` after `n` moves, and the chain is long enough. */
  ghost predicate WalkAt(m: Memory, offset: uint16, first: Ref, r: Ref, n: nat) {
    n <= offset && exists j :: WalkFits(m, offset, first, r, n, j)
  }

  predicate WalkFits(m: Memory, offset: uint16, first: Ref, r: Ref, n: nat, j: nat) {
    j + offset < |m.chain| && n <= offset && m.chain[j] == first && m.chain[j + n] == r
  }

  ghost predicate Inv(s: State) {
    && (s.lock == None ==> Stable(s.m))
    && (s.lock.Some? ==> s.lock.value in s.threads && HolderOk(s.m, s.threads[s.lock.value]))
    && forall t :: t in s.threads && s.lock != Some(t) ==> ReaderOk(s.m, s.threads[t])
  }

  /** How memory may change under a reader: the chain stays or grows by one field at an end, and
      its fields keep their types. */
  ghost predicate Evolves(m: Memory, m': Memory) {
    && (m'.chain == m.chain || (exists r :: m'.chain == m.chain + [r]) || (exists r :: m'.chain == [r] + m.chain))
    && forall i :: 0 <= i < |m.chain| ==> (
      && m.chain[i] in m.nodes && m.chain[i] in m'.nodes
      && m'.nodes[m.chain[i]].ty == m.nodes[m.chain[i]].ty
      && m'.nodes[m.chain[i]].whole == m.nodes[m.chain[i]].whole)
  }

  /** A thread is between taking the lock and giving it back. */
  predicate Holding(pc: Pc) {
    pc.Scanning? || pc.Allocating? || pc.Filling? || pc.Linking? || pc.Unlocking?
  }

  // ---------- what every step keeps ----------

  lemma AddingKept(m: Memory, call: Call, r: Ref, step: nat, base: seq<Ref>)
    requires step < 4 && Chained(m) && Adding(m, call, r, step, base)
    ensures var m' := AddStep(m, r, m.nodes[r], step);
            Chained(m') && Adding(m', call, r, step + 1, base)
  {
    AddingKeepsChain(m, call, r, step, base);
    hide Chained;
  }

  lemma AddingKeepsChain(m: Memory, call: Call, r: Ref, step: nat, base: seq<Ref>)
    requires step < 4 && Chained(m) && Adding(m, call, r, step, base)
    ensures Chained(AddStep(m, r, m.nodes[r], step))
  {
    hide Backward, Chained, SetPrevious, SetNext;
    if step == 1 {
      PreviousKeepsChain(m, r, m.tail);
    } else if step == 2 && base != [] {
      LinkedLast(m, r, Last(base).value);
    } else {
      HeadIsFirst(m);
      SameChain(m, AddStep(m, r, m.nodes[r], step), r);
    }
  }

  /** The backward links do not matter to the forward chain. */
  lemma PreviousKeepsChain(m: Memory, r: Ref, p: Option<Ref>)
    requires Chained(m) && r in m.nodes
    ensures Chained(SetPrevious(m, r, p))
  {
  }

  lemma LinkedLast(m: Memory, r: Ref, p: Ref)
    requires Chained(m) && m.chain != [] && p == m.chain[|m.chain| - 1]
    requires r in m.nodes && m.nodes[r].next == None && m.nodes[r].whole && Lacks(m, m.chain, m.nodes[r].ty)
    ensures Chained(SetNext(m, p, Some(r)).(chain := m.chain + [r]))
  {
    var m' := SetNext(m, p, Some(r)).(chain := m.chain + [r]);
    assert p in m.nodes && forall i :: 0 <= i < |m.chain| - 1 ==> m'.chain[i] == m.chain[i] != p;
  }

  lemma SameChain(m: Memory, m': Memory, r: Ref)
    requires Chained(m) && m'.nodes == m.nodes
    requires (m'.chain == m.chain && m'.head == m.head)
             || (m.chain == [] && m'.chain == [r] && m'.head == Some(r) && r in m.nodes && m.nodes[r].whole
                 && m.nodes[r].next == None)
    ensures Chained(m')
  {
  }

  lemma AddingDone(m: Memory, call: Call, r: Ref, base: seq<Ref>)
    requires Chained(m) && Adding(m, call, r, 4, base)
    ensures var m' := AddStep(m, r, m.nodes[r], 4);
            Stable(m') && ResultOk(m', Made(call.ty, r))
  {
    hide Chained, Lacks, Backward;
    var m' := AddStep(m, r, m.nodes[r], 4);
    SameChain(m, m', r);
    BackwardWith(m, r, base);
    SameNodes(m, m', m.chain);
    assert m'.chain[|base|] == r;
  }

  lemma AddingEvolves(m: Memory, call: Call, r: Ref, step: nat, base: seq<Ref>)
    requires step <= 4 && Chained(m) && Adding(m, call, r, step, base)
    ensures Evolves(m, AddStep(m, r, m.nodes[r], step))
  {
    hide Backward;
    if (step == 0 && base == []) || (step == 2 && base != []) {
      assert AddStep(m, r, m.nodes[r], step).chain == m.chain + [r];
    }
  }

  lemma InjectingKept(m: Memory, call: Call, r: Ref, step: nat, base: seq<Ref>)
    requires step < 4 && Chained(m) && Injecting(m, call, r, step, base)
    ensures var m' := InjectStep(m, r, m.nodes[r], step);
            Chained(m') && Injecting(m', call, r, step + 1, base)
  {
    InjectingKeepsChain(m, call, r, step, base);
    hide Chained;
  }

  lemma InjectingKeepsChain(m: Memory, call: Call, r: Ref, step: nat, base: seq<Ref>)
    requires step < 4 && Chained(m) && Injecting(m, call, r, step, base)
    ensures Chained(InjectStep(m, r, m.nodes[r], step))
  {
    hide Backward, Chained, SetPrevious, SetNext;
    if step == 1 {
      NextOutside(m, r, m.head);
    } else if step == 2 && base != [] {
      FirstThere(m);
      PreviousKeepsChain(m, base[0], Some(r));
    } else if step == 3 {
      LinkedFirst(m, r);
    } else {
      SameChain(m, InjectStep(m, r, m.nodes[r], step), r);
    }
  }

  lemma FirstThere(m: Memory)
    requires Chained(m) && m.chain != []
    ensures m.chain[0] in m.nodes
  {
  }

  /** The link of a field that is not in the chain does not matter to it. */
  lemma NextOutside(m: Memory, r: Ref, next: Option<Ref>)
    requires Chained(m) && r in m.nodes && Lacks(m, m.chain, m.nodes[r].ty)
    ensures Chained(SetNext(m, r, next))
  {
    assert forall i :: 0 <= i < |m.chain| ==> m.chain[i] != r;
  }

  lemma LinkedFirst(m: Memory, r: Ref)
    requires Chained(m) && r in m.nodes && m.nodes[r].whole && m.nodes[r].next == First(m.chain)
    requires Lacks(m, m.chain, m.nodes[r].ty)
    ensures Chained(m.(head := Some(r), chain := [r] + m.chain))
  {
    var m' := m.(head := Some(r), chain := [r] + m.chain);
    assert forall i :: 1 <= i < |m'.chain| ==> m'.chain[i] == m.chain[i - 1];
  }

  lemma InjectingDone(m: Memory, call: Call, r: Ref, base: seq<Ref>)
    requires Chained(m) && Injecting(m, call, r, 4, base)
    ensures var m' := InjectStep(m, r, m.nodes[r], 4);
            Stable(m') && ResultOk(m', Made(call.ty, r))
  {
    hide Chained, Lacks, Backward;
    var m' := InjectStep(m, r, m.nodes[r], 4);
    SameChain(m, m', r);
    BackwardWith(m, r, base);
    SameNodes(m, m', m.chain);
    assert m'.chain[0] == r;
  }

  lemma SameNodes(m: Memory, m': Memory, c: seq<Ref>)
    requires Backward(m, c) && m'.nodes == m.nodes
    ensures Backward(m', c)
  {
  }

  /** A field linked in front, or behind. */
  lemma BackwardWith(m: Memory, r: Ref, c: seq<Ref>)
    requires Backward(m, c) && r in m.nodes
    ensures (c != [] ==> m.nodes[c[0]].previous == Some(r)) ==> Backward(m, [r] + c)
    ensures m.nodes[r].previous == Last(c) ==> Backward(m, c + [r])
  {
  }

  lemma InjectingEvolves(m: Memory, call: Call, r: Ref, step: nat, base: seq<Ref>)
    requires step <= 4 && Chained(m) && Injecting(m, call, r, step, base)
    ensures Evolves(m, InjectStep(m, r, m.nodes[r], step))
  {
    hide Backward;
    if step == 3 {
      assert InjectStep(m, r, m.nodes[r], step).chain == [r] + m.chain;
    }
  }

  /** Memory outside the chain does not matter to it. */
  lemma OutsideChain(m: Memory, nodes: map<Ref, Node>, ty: uint16)
    requires Stable(m) && Lacks(m, m.chain, ty)
    requires forall i :: 0 <= i < |m.chain| ==> m.chain[i] in nodes && nodes[m.chain[i]] == m.nodes[m.chain[i]]
    ensures var m' := m.(nodes := nodes); Stable(m') && Lacks(m', m'.chain, ty) && Evolves(m, m')
  {
  }

  lemma ScanKept(m: Memory, pc: Pc, c: Choice)
    requires HolderOk(m, pc) && pc.Scanning?
    ensures var (m', pc') := HolderStep(m, pc, c); m' == m && Chained(m) && HolderOk(m, pc')
  {
    if pc.cur == None {
      assert m.chain[..pc.passed] == m.chain;
    } else {
      assert m.chain[pc.passed] == pc.cur.value;
    }
  }

  lemma AllocationKept(m: Memory, pc: Pc, c: Choice)
    requires HolderOk(m, pc) && pc.Allocating?
    ensures var (m', pc') := HolderStep(m, pc, c); HolderOk(m', pc') && Evolves(m, m')
  {
    if c.Alloc? && c.node !in m.nodes {
      OutsideChain(m, HolderStep(m, pc, c).0.nodes, pc.call.ty);
    }
  }

  lemma FillingKept(m: Memory, pc: Pc, c: Choice)
    requires HolderOk(m, pc) && pc.Filling?
    ensures var (m', pc') := HolderStep(m, pc, c); HolderOk(m', pc') && Evolves(m, m')
  {
    OutsideChain(m, HolderStep(m, pc, c).0.nodes, pc.call.ty);
  }

  lemma LinkingInMemory(m: Memory, pc: Pc)
    requires HolderOk(m, pc) && pc.Linking?
    ensures pc.node in m.nodes
  {
  }

  lemma LinkingKept(m: Memory, pc: Pc, c: Choice)
    requires HolderOk(m, pc) && pc.Linking?
    ensures var (m', pc') := HolderStep(m, pc, c); HolderOk(m', pc') && Evolves(m, m')
  {
    hide Chained, Stable, Adding, Injecting, Evolves, AddStep, InjectStep, ResultOk;
    LinkingInMemory(m, pc);
    if pc.call.front {
      InjectingEvolves(m, pc.call, pc.node, pc.step, pc.base);
      if pc.step < 4 {
        InjectingKept(m, pc.call, pc.node, pc.step, pc.base);
      } else {
        InjectingDone(m, pc.call, pc.node, pc.base);
      }
    } else {
      AddingEvolves(m, pc.call, pc.node, pc.step, pc.base);
      if pc.step < 4 {
        AddingKept(m, pc.call, pc.node, pc.step, pc.base);
      } else {
        AddingDone(m, pc.call, pc.node, pc.base);
      }
    }
  }

  lemma NothingEvolves(m: Memory)
    requires Chained(m)
    ensures Evolves(m, m)
  {
  }

  /** The lock holder keeps the list in order, and others see the chain grow by a whole field at most. */
  lemma HolderKept(m: Memory, pc: Pc, c: Choice)
    requires HolderOk(m, pc) && !pc.Unlocking?
    ensures var (m', pc') := HolderStep(m, pc, c); HolderOk(m', pc') && Evolves(m, m')
  {
    hide Chained, Stable, Adding, Injecting, AddStep, InjectStep, ResultOk, HolderStep;
    if pc.Scanning? {
      ScanKept(m, pc, c);
      NothingEvolves(m);
    } else if pc.Allocating? {
      AllocationKept(m, pc, c);
    } else if pc.Filling? {
      FillingKept(m, pc, c);
    } else {
      LinkingKept(m, pc, c);
    }
  }

  // ---------- readers ----------

  /** A position of the old chain in the new one. */
  ghost function Shift(m: Memory, m': Memory): nat
    requires Evolves(m, m')
  {
    if m'.chain == m.chain || exists r :: m'.chain == m.chain + [r] then 0 else 1
  }

  lemma ShiftIs(m: Memory, m': Memory, j: nat)
    requires Evolves(m, m') && j < |m.chain|
    ensures var k := j + Shift(m, m');
            k < |m'.chain| && m'.chain[k] == m.chain[j] && m'.chain[k] in m'.nodes && m.chain[j] in m.nodes
            && m'.nodes[m'.chain[k]].ty == m.nodes[m.chain[j]].ty
            && m'.nodes[m'.chain[k]].whole == m.nodes[m.chain[j]].whole
  {
  }

  lemma ReaderKept(m: Memory, m': Memory, pc: Pc)
    requires Evolves(m, m') && ReaderOk(m, pc)
    ensures ReaderOk(m', pc)
  {
    hide Evolves, Shift;
    match pc
    case Finished(Exists(ty)) =>
      var j :| 0 <= j < |m.chain| && m.chain[j] in m.nodes && m.nodes[m.chain[j]].ty == ty;
      ShiftIs(m, m', j);
    case Finished(Found(ty, r)) => VisibleKept(m, m', ty, r);
    case Finished(Made(ty, r)) => VisibleKept(m, m', ty, r);
    case Finished(AtOffset(offset, first, r)) => BehindKept(m, m', first, offset, r);
    case Finished(NoOffset(_, _, _)) => ShiftFits(m, m');
    case Heading(offset) => ShiftIs(m, m', offset);
    case Walking(offset, first, cur, n) => WalkKept(m, m', offset, first.value, cur.value, n);
    case Looking(ty, Some(r), present, moves) =>
      LookKept(m, m', ty, r, present, moves);
    case Advancing(ty, r, present, moves) =>
      LookKept(m, m', ty, r, present, moves);
    case _ =>
  }

  lemma BehindKept(m: Memory, m': Memory, first: Ref, n: nat, r: Ref)
    requires Evolves(m, m') && Behind(m, first, n, r) && r in m.nodes && m.nodes[r].whole
    ensures Behind(m', first, n, r) && r in m'.nodes && m'.nodes[r].whole
  {
    hide Evolves, Shift;
    var j :| 0 <= j < |m.chain| && m.chain[j] == first && j + n < |m.chain| && m.chain[j + n] == r;
    ShiftIs(m, m', j);
    ShiftIs(m, m', j + n);
    assert m'.chain[(j + Shift(m, m')) + n] == r;
  }

  lemma WalkKept(m: Memory, m': Memory, offset: uint16, first: Ref, r: Ref, n: nat)
    requires Evolves(m, m') && WalkAt(m, offset, first, r, n)
    ensures WalkAt(m', offset, first, r, n)
  {
    hide Evolves, Shift;
    var j: nat :| WalkFits(m, offset, first, r, n, j);
    ShiftIs(m, m', j);
    ShiftIs(m, m', j + n);
    ShiftFits(m, m');
    assert WalkFits(m', offset, first, r, n, j + Shift(m, m'));
  }

  lemma VisibleKept(m: Memory, m': Memory, ty: uint16, r: Ref)
    requires Evolves(m, m') && Visible(m, ty, r)
    ensures Visible(m', ty, r)
  {
    hide Evolves, Shift;
    var j :| 0 <= j < |m.chain| && m.chain[j] == r && r in m.nodes && m.nodes[r].ty == ty && m.nodes[r].whole;
    ShiftIs(m, m', j);
  }

  lemma LookKept(m: Memory, m': Memory, ty: uint16, r: Ref, present: bool, moves: nat)
    requires Evolves(m, m') && LookAt(m, ty, r, present, moves)
    ensures LookAt(m', ty, r, present, moves) && r in m.nodes && r in m'.nodes && m'.nodes[r].ty == m.nodes[r].ty
  {
    hide Evolves, Shift;
    var j :| moves <= j < |m.chain| && m.chain[j] == r && (present ==> HasTypeFrom(m, ty, j));
    ShiftIs(m, m', j);
    if present {
      var p :| j <= p < |m.chain| && m.chain[p] in m.nodes && m.nodes[m.chain[p]].ty == ty;
      ShiftIs(m, m', p);
      assert HasTypeFrom(m', ty, j + Shift(m, m'));
    }
  }

  lemma ReaderStepKept(m: Memory, pc: Pc, c: Choice)
    requires Chained(m) && Counts(m.count, |m.chain|) && ReaderOk(m, pc)
    ensures ReaderOk(m, ReaderStep(m, pc, c))
  {
    hide Chained;
    match pc
    case Looking(ty, Some(r), present, moves) => ComparedKept(m, ty, r, present, moves);
    case Advancing(ty, r, present, moves) => AdvancedKept(m, ty, r, present, moves);
    case Heading(offset) => HeadedKept(m, offset);
    case Walking(offset, first, cur, n) => WalkedKept(m, offset, first.value, cur.value, n);
    case Idle => BeginKept(m, pc, c);
    case Finished(_) => BeginKept(m, pc, c);
    case _ =>
  }

  lemma ComparedKept(m: Memory, ty: uint16, r: Ref, present: bool, moves: nat)
    requires Chained(m) && LookAt(m, ty, r, present, moves)
    ensures r in m.nodes && (m.nodes[r].ty == ty ==> ResultOk(m, Found(ty, r)))
  {
    var j :| moves <= j < |m.chain| && m.chain[j] == r && (present ==> HasTypeFrom(m, ty, j));
  }

  lemma AdvancedKept(m: Memory, ty: uint16, r: Ref, present: bool, moves: nat)
    requires Chained(m) && LookAt(m, ty, r, present, moves) && r in m.nodes && m.nodes[r].ty != ty
    ensures ReaderOk(m, Looking(ty, m.nodes[r].next, present, moves + 1))
  {
    var j :| moves <= j < |m.chain| && m.chain[j] == r && (present ==> HasTypeFrom(m, ty, j));
    if j + 1 < |m.chain| {
      assert m.nodes[m.chain[j]].next == Some(m.chain[j + 1]);
      if present { assert HasTypeFrom(m, ty, j + 1); }
    }
  }

  lemma HeadedKept(m: Memory, offset: uint16)
    requires Chained(m) && offset < |m.chain|
    ensures ReaderOk(m, Walking(offset, m.head, m.head, 0))
  {
    assert WalkFits(m, offset, m.head.value, m.chain[0], 0, 0);
  }

  lemma WalkedKept(m: Memory, offset: uint16, first: Ref, r: Ref, n: nat)
    requires Chained(m) && WalkAt(m, offset, first, r, n)
    ensures r in m.nodes
    ensures if n == offset then ResultOk(m, AtOffset(offset, first, r))
            else ReaderOk(m, Walking(offset, Some(first), m.nodes[r].next, n + 1))
  {
    var j: nat :| WalkFits(m, offset, first, r, n, j);
    if n < offset {
      NextIs(m, j + n);
      assert WalkFits(m, offset, first, m.chain[j + n + 1], n + 1, j);
    }
  }

  lemma NextIs(m: Memory, k: nat)
    requires Chained(m) && k < |m.chain|
    ensures m.chain[k] in m.nodes && m.nodes[m.chain[k]].next == First(m.chain[k + 1..])
  {
    if k + 1 < |m.chain| { assert m.nodes[m.chain[k]].next == Some(m.chain[k + 1]); }
  }

  lemma BeginKept(m: Memory, pc: Pc, c: Choice)
    requires Chained(m) && ReaderOk(m, pc)
    ensures ReaderOk(m, NewCall(m, pc, c))
  {
    if c.Look? && m.chain != [] {
      assert m.chain[0] == m.head.value;
    }
  }

  // ---------- every step, every run ----------

  lemma StableChained(m: Memory, pc: Pc)
    requires Stable(m) || HolderOk(m, pc)
    ensures Chained(m)
  {
  }

  /** The counter follows the chain: it is right, or one behind, so it never promises a field that is
      not there. */
  lemma CountBehind(m: Memory, pc: Pc)
    requires Stable(m) || HolderOk(m, pc)
    ensures Counts(m.count, |m.chain|) && m.count as int <= |m.chain|
  {
    hide Chained, Backward, Lacks;
  }

  lemma InvChained(s: State)
    requires Inv(s)
    ensures Chained(s.m) && Counts(s.m.count, |s.m.chain|)
  {
    hide Chained, Stable, HolderOk;
    StableChained(s.m, if s.lock == None then Idle else s.threads[s.lock.value]);
    CountBehind(s.m, if s.lock == None then Idle else s.threads[s.lock.value]);
  }

  lemma TakeLock(s: State, t: Tid, c: Choice)
    requires Inv(s) && t in s.threads && s.threads[t].Waiting? && s.lock == None
    ensures Inv(Step(s, t, c)) && Step(s, t, c).m == s.m
  {
    hide Chained, Backward;
    assert s.m.chain[0..] == s.m.chain && Lacks(s.m, s.m.chain[..0], s.threads[t].call.ty);
    assert s.m.head == First(s.m.chain) by { HeadIsFirst(s.m); }
  }

  lemma HeadIsFirst(m: Memory)
    requires Chained(m)
    ensures m.head == First(m.chain)
  {
  }

  lemma HolderMoves(s: State, t: Tid, c: Choice)
    requires Inv(s) && t in s.threads && s.lock == Some(t) && !s.threads[t].Unlocking?
    ensures Inv(Step(s, t, c)) && Evolves(s.m, Step(s, t, c).m)
  {
    hide Chained, Stable, Evolves, HolderOk, ReaderOk, HolderStep;
    HolderKept(s.m, s.threads[t], c);
    var m' := HolderStep(s.m, s.threads[t], c).0;
    forall u | u in s.threads && u != t ensures ReaderOk(m', s.threads[u]) {
      ReaderKept(s.m, m', s.threads[u]);
    }
    assert Holding(s.threads[t]) by { HolderHolds(s.m, s.threads[t]); }
  }

  /** Every step of every thread keeps the invariant; the chain stays as it was or grows by one
      field at one of its ends. */
  lemma StepKeepsInv(s: State, t: Tid, c: Choice)
    requires Inv(s)
    ensures var s' := Step(s, t, c); Inv(s') && Evolves(s.m, s'.m) && Chained(s'.m)
  {
    hide Chained, Stable, Evolves, HolderOk, ReaderOk, HolderStep, ReaderStep;
    InvChained(s);
    NothingEvolves(s.m);
    if t !in s.threads {
    } else if s.threads[t].Waiting? && s.lock == None {
      TakeLock(s, t, c);
    } else if s.lock == Some(t) {
      if s.threads[t].Unlocking? { Unlocked(s.m, s.threads[t]); } else { HolderMoves(s, t, c); }
    } else {
      ReaderStepKept(s.m, s.threads[t], c);
    }
    InvChained(Step(s, t, c));
  }

  lemma Unlocked(m: Memory, pc: Pc)
    requires HolderOk(m, pc) && pc.Unlocking?
    ensures Stable(m) && ReaderOk(m, Finished(pc.result))
  {
  }

  lemma HolderHolds(m: Memory, pc: Pc)
    ensures HolderOk(m, pc) ==> Holding(pc)
    ensures ReaderOk(m, pc) ==> !Holding(pc)
  {
  }

  /** Every run keeps the invariant, and no field ever leaves the chain or changes its type. */
  lemma {:induction false} RunKeepsInv(s: State, schedule: seq<(Tid, Choice)>)
    requires Inv(s)
    ensures var e := Run(s, schedule); Inv(e) && Chained(e.m) && Grows(s.m, e.m)
    decreases |schedule|
  {
    hide Inv, Chained, Evolves, Step;
    if schedule == [] {
      InvChained(s);
      GrowsBy(s.m, s.m, 0);
    } else {
      var s' := Step(s, schedule[0].0, schedule[0].1);
      StepKeepsInv(s, schedule[0].0, schedule[0].1);
      RunKeepsInv(s', schedule[1..]);
      var k :| GrownAt(s'.m, Run(s, schedule).m, k);
      GrowsOneStep(s.m, s'.m, Run(s, schedule).m, k);
    }
  }

  ghost predicate GrownAt(m: Memory, e: Memory, k: nat) {
    && k + |m.chain| <= |e.chain|
    && forall i :: 0 <= i < |m.chain| ==> (
      && m.chain[i] == e.chain[k + i]
      && m.chain[i] in m.nodes && m.chain[i] in e.nodes
      && m.nodes[m.chain[i]].ty == e.nodes[m.chain[i]].ty)
  }

  /** The old chain is a contiguous part of the new one. */
  ghost predicate Grows(m: Memory, e: Memory) {
    exists k :: GrownAt(m, e, k)
  }

  lemma GrowsBy(m: Memory, e: Memory, k: nat)
    requires Chained(m) && m == e && k == 0
    ensures Grows(m, e)
  {
    assert GrownAt(m, e, k);
  }

  lemma GrowsOneStep(m: Memory, m': Memory, e: Memory, k: nat)
    requires Evolves(m, m') && GrownAt(m', e, k)
    ensures Grows(m, e)
  {
    hide Evolves, Shift, Grows;
    var d := Shift(m, m');
    assert d + |m.chain| <= |m'.chain| by { ShiftFits(m, m'); }
    forall i | 0 <= i < |m.chain|
      ensures m.chain[i] == e.chain[k + d + i] && m.chain[i] in m.nodes && m.chain[i] in e.nodes
              && m.nodes[m.chain[i]].ty == e.nodes[m.chain[i]].ty
    {
      ShiftIs(m, m', i);
      assert m'.chain[i + d] == e.chain[k + (i + d)];
    }
    assert GrownAt(m, e, k + d);
    GrownGrows(m, e, k + d);
  }

  lemma ShiftFits(m: Memory, m': Memory)
    requires Evolves(m, m')
    ensures Shift(m, m') + |m.chain| <= |m'.chain|
  {
  }

  lemma GrownGrows(m: Memory, e: Memory, k: nat)
    requires GrownAt(m, e, k)
    ensures Grows(m, e)
  {
  }

  // ---------- the main results ----------

  lemma InitialInv(s: State)
    requires Initial(s)
    ensures Inv(s)
  {
  }

  /** Whatever the schedule: a thread is inside the lock exactly when it holds it, no two fields
      share a type, and with the lock free the counter and both directions of the list agree. */
  lemma Safety(s: State, schedule: seq<(Tid, Choice)>)
    requires Initial(s)
    ensures var e := Run(s, schedule);
            && Chained(e.m)
            && (forall t :: t in e.threads ==> (Holding(e.threads[t]) <==> e.lock == Some(t)))
            && (e.lock == None ==> Stable(e.m))
  {
    hide Chained, Stable, HolderOk, ReaderOk, Holding, Grows, Run;
    InitialInv(s);
    RunKeepsInv(s, schedule);
    var e := Run(s, schedule);
    forall t | t in e.threads ensures Holding(e.threads[t]) <==> e.lock == Some(t) {
      HolderHolds(e.m, e.threads[t]);
    }
  }

  // ---------- everything that is ever reported ----------

  /** The type of the field that a thread under the lock is going to make, or has just made. */
  function WillMake(pc: Pc): Option<uint16> {
    match pc
    case Allocating(call) => Some(call.ty)
    case Filling(call, _) => Some(call.ty)
    case Linking(call, _, _, _) => Some(call.ty)
    case Unlocking(Made(ty, _)) => Some(ty)
    case _ => None
  }

  /** All reports are right; no two report the making of a field of one type; and the field now
      being made has not been reported. */
  ghost predicate ReportsOk(s: State) {
    && (forall i :: 0 <= i < |s.reports| ==> ResultOk(s.m, s.reports[i].1))
    && (forall i, j :: 0 <= i < j < |s.reports| && s.reports[i].1.Made? && s.reports[j].1.Made? ==>
          s.reports[i].1.ty != s.reports[j].1.ty)
    && (s.lock.Some? && s.lock.value in s.threads && WillMake(s.threads[s.lock.value]).Some? ==>
          NotReported(s.reports, WillMake(s.threads[s.lock.value]).value))
  }

  predicate NotReported(reports: seq<(Tid, Result)>, ty: uint16) {
    forall i :: 0 <= i < |reports| && reports[i].1.Made? ==> reports[i].1.ty != ty
  }

  lemma ResultKept(m: Memory, m': Memory, result: Result)
    requires Evolves(m, m') && ResultOk(m, result)
    ensures ResultOk(m', result)
  {
    hide Evolves, ResultOk;
    ReaderKept(m, m', Finished(result));
  }

  /** A type found absent under the lock has not been reported as made. */
  lemma AbsentNotReported(s: State, ty: uint16)
    requires ReportsOk(s) && Lacks(s.m, s.m.chain, ty)
    ensures NotReported(s.reports, ty)
  {
    forall i | 0 <= i < |s.reports| && s.reports[i].1.Made?
      ensures s.reports[i].1.ty != ty
    {
      assert ResultOk(s.m, s.reports[i].1);
    }
  }

  /** What a thread under the lock is going to make it goes on making, unless it has just found the
      type absent. */
  lemma WillMakeNext(m: Memory, pc: Pc, c: Choice)
    requires HolderOk(m, pc)
    ensures var (m', pc') := HolderStep(m, pc, c);
            && !pc'.Finished?
            && (WillMake(pc').Some? ==> WillMake(pc') == WillMake(pc) || Lacks(m, m.chain, WillMake(pc').value))
  {
    hide HolderOk, Lacks, AddStep, InjectStep, SetNode;
    HolderHolds(m, pc);
    if pc.Scanning? && pc.cur == None { ScanEnds(m, pc); }
  }

  lemma ScanEnds(m: Memory, pc: Pc)
    requires HolderOk(m, pc) && pc.Scanning? && pc.cur == None
    ensures Lacks(m, m.chain, pc.call.ty)
  {
    hide Chained, Backward;
    assert m.chain[..pc.passed] == m.chain;
  }

  lemma ReportsKept(s: State, t: Tid, c: Choice)
    requires Inv(s) && ReportsOk(s)
    ensures ReportsOk(Step(s, t, c))
  {
    hide Inv, Chained, Stable, Evolves, HolderOk, ReaderOk, HolderStep, ReaderStep, ResultOk, Lacks;
    var s' := Step(s, t, c);
    StepKeepsInv(s, t, c);
    forall i | 0 <= i < |s.reports|
      ensures ResultOk(s'.m, s.reports[i].1)
    {
      ResultKept(s.m, s'.m, s.reports[i].1);
    }
    if t in s.threads && s.lock == Some(t) {
      HolderReports(s, t, c);
    } else if t in s.threads {
      ReaderReports(s, t, c);
    }
  }

  lemma HolderReports(s: State, t: Tid, c: Choice)
    requires Inv(s) && ReportsOk(s) && t in s.threads && s.lock == Some(t)
    ensures var s' := Step(s, t, c);
            if s.threads[t].Unlocking? then
              && s'.reports == s.reports + [(t, s.threads[t].result)] && s'.lock == None
              && s'.m == s.m && ResultOk(s.m, s.threads[t].result)
              && (s.threads[t].result.Made? ==> NotReported(s.reports, s.threads[t].result.ty))
            else
              && s'.reports == s.reports && s'.lock == Some(t) && t in s'.threads
              && (WillMake(s'.threads[t]).Some? ==> NotReported(s.reports, WillMake(s'.threads[t]).value))
  {
    hide Chained, Stable, HolderStep, ResultOk, Lacks;
    WillMakeNext(s.m, s.threads[t], c);
    var pc := HolderStep(s.m, s.threads[t], c).1;
    if WillMake(pc).Some? && WillMake(pc) != WillMake(s.threads[t]) { AbsentNotReported(s, WillMake(pc).value); }
  }

  lemma ReaderReports(s: State, t: Tid, c: Choice)
    requires Inv(s) && ReportsOk(s) && t in s.threads && s.lock != Some(t)
    ensures var s' := Step(s, t, c);
            && (s'.reports == s.reports
                || (|s'.reports| == |s.reports| + 1 && s'.reports[..|s.reports|] == s.reports
                    && !s'.reports[|s.reports|].1.Made? && ResultOk(s'.m, s'.reports[|s.reports|].1)))
            && s'.m == s.m
            && (if s'.lock == s.lock then
                  s'.lock.Some? && s'.lock.value in s.threads ==>
                    s'.threads[s'.lock.value] == s.threads[s'.lock.value]
                else s'.lock == Some(t) && t in s'.threads && s'.threads[t].Scanning?)
  {
    hide Chained, Stable, HolderOk, ResultOk, HolderStep;
    InvChained(s);
    ReaderStepKept(s.m, s.threads[t], c);
  }

  lemma {:induction false} RunKeepsReports(s: State, schedule: seq<(Tid, Choice)>)
    requires Inv(s) && ReportsOk(s)
    ensures ReportsOk(Run(s, schedule))
    decreases |schedule|
  {
    hide Inv, ReportsOk, Step, Evolves, Chained;
    if schedule != [] {
      StepKeepsInv(s, schedule[0].0, schedule[0].1);
      ReportsKept(s, schedule[0].0, schedule[0].1);
      RunKeepsReports(Step(s, schedule[0].0, schedule[0].1), schedule[1..]);
    }
  }

  /** Every result that any call has ever reported is right: a search that began when the type was
      in the chain does not report it missing; a field reported as made or found is in the chain,
      whole and of that type; a type reported as existing is there; a search by offset that the
      counter has let through never falls off the end, however the chain grows under it, and yields
      the field that many places behind the head it started from; and one that was refused was
      refused by a counter that fell short, and that was right for the chain, or one behind. */
  lemma ReportsAreRight(s: State, schedule: seq<(Tid, Choice)>, i: nat)
    requires Initial(s) && i < |Run(s, schedule).reports|
    ensures var e := Run(s, schedule);
            match e.reports[i].1
            case NoMemory => true
            case Exists(ty) => HasTypeFrom(e.m, ty, 0)
            case Made(ty, r) => r in e.m.chain && r in e.m.nodes && e.m.nodes[r].ty == ty && e.m.nodes[r].whole
            case Found(ty, r) => r in e.m.chain && r in e.m.nodes && e.m.nodes[r].ty == ty && e.m.nodes[r].whole
            case Missing(present) => !present
            case AtOffset(offset, first, r) => Behind(e.m, first, offset, r) && r in e.m.nodes && e.m.nodes[r].whole
            case NoOffset(offset, count, length) => count <= offset && Counts(count, length)
            case FellOff => false
  {
    hide Run, Inv;
    InitialInv(s);
    RunKeepsReports(s, schedule);
    assert ResultOk(Run(s, schedule).m, Run(s, schedule).reports[i].1);
  }

  /** Check and act are one: of all the calls that any threads ever make, whatever they race with,
      no two report to have made a field of the same type. */
  lemma OneMaker(s: State, schedule: seq<(Tid, Choice)>, i: nat, j: nat)
    requires Initial(s) && i < j < |Run(s, schedule).reports|
    requires Run(s, schedule).reports[i].1.Made? && Run(s, schedule).reports[j].1.Made?
    ensures Run(s, schedule).reports[i].1.ty != Run(s, schedule).reports[j].1.ty
  {
    hide Run, Inv;
    InitialInv(s);
    RunKeepsReports(s, schedule);
  }

  /** The fields met by following `next`, at most `limit` of them: what memory alone says. */
  function Walk(m: Memory, from: Option<Ref>, limit: nat): seq<Ref>
    decreases limit
  {
    match from
    case None => []
    case Some(r) => if limit == 0 || r !in m.nodes then [] else [r] + Walk(m, m.nodes[r].next, limit - 1)
  }

  function WalkBack(m: Memory, from: Option<Ref>, limit: nat): seq<Ref>
    decreases limit
  {
    match from
    case None => []
    case Some(r) => if limit == 0 || r !in m.nodes then [] else WalkBack(m, m.nodes[r].previous, limit - 1) + [r]
  }

  lemma {:induction false} WalkFrom(m: Memory, j: nat, limit: nat)
    requires Chained(m) && j <= |m.chain| && |m.chain| - j <= limit
    ensures Walk(m, First(m.chain[j..]), limit) == m.chain[j..]
    decreases limit
  {
    hide Chained;
    if j < |m.chain| {
      WalkFrom(m, j + 1, limit - 1);
      NextIs(m, j);
      assert m.chain[j..] == [m.chain[j]] + m.chain[j + 1..];
    }
  }

  lemma PreviousIs(m: Memory, k: nat)
    requires Stable(m) && k < |m.chain|
    ensures m.chain[k] in m.nodes && m.nodes[m.chain[k]].previous == Last(m.chain[..k])
  {
    hide Chained;
    if k > 0 { assert m.nodes[m.chain[k]].previous == Some(m.chain[k - 1]); }
  }

  lemma {:induction false} WalkBackFrom(m: Memory, j: nat, limit: nat)
    requires Stable(m) && j <= |m.chain| && j <= limit
    ensures WalkBack(m, Last(m.chain[..j]), limit) == m.chain[..j]
    decreases limit
  {
    hide Stable;
    if j > 0 {
      WalkBackFrom(m, j - 1, limit - 1);
      PreviousIs(m, j - 1);
      assert m.chain[..j] == m.chain[..j - 1] + [m.chain[j - 1]];
    }
  }

  lemma {:induction false} Pigeonhole(s: seq<int>, n: nat)
    requires forall i :: 0 <= i < |s| ==> 0 <= s[i] < n
    requires forall i, j :: 0 <= i < j < |s| ==> s[i] != s[j]
    ensures |s| <= n
    decreases n
  {
    if s != [] {
      assert 0 <= s[0] < n;
      if k :| 0 <= k < |s| && s[k] == n - 1 {
        Pigeonhole(s[..k] + s[k + 1..], n - 1);
      } else {
        Pigeonhole(s, n - 1);
      }
    }
  }

  /** With 16-bit types all different, a chain has at most 65536 fields. */
  lemma ChainIsShort(m: Memory)
    requires Chained(m)
    ensures |m.chain| <= 0x1_0000
  {
    var types: seq<int> := seq(|m.chain|, i requires 0 <= i < |m.chain| => m.nodes[m.chain[i]].ty as int);
    Pigeonhole(types, 0x1_0000);
  }

  /** Following the links of any reachable memory visits each field of the chain once and stops;
      with the lock free the backward links visit the same fields, as many as the counter says
      unless it has wrapped. */
  lemma WalksAgree(s: State, schedule: seq<(Tid, Choice)>)
    requires Initial(s)
    ensures var e := Run(s, schedule);
            && Walk(e.m, e.m.head, 0x1_0000) == e.m.chain
            && (e.lock == None ==>
                  && WalkBack(e.m, e.m.tail, 0x1_0000) == e.m.chain
                  && (|e.m.chain| <= 0xFFFF ==> e.m.count as int == |e.m.chain|))
  {
    hide Chained, Backward, Run, Walk, WalkBack, Holding;
    Safety(s, schedule);
    var m := Run(s, schedule).m;
    ChainIsShort(m);
    HeadIsFirst(m);
    WalkFrom(m, 0, 0x1_0000);
    assert m.chain[0..] == m.chain == m.chain[..|m.chain|];
    if Run(s, schedule).lock == None {
      WalkBackFrom(m, |m.chain|, 0x1_0000);
    }
  }

  // ---------- progress ----------

  /** How many more of its own steps a call or search can take, once it has what it waits for. */
  function Work(m: Memory, pc: Pc): nat {
    match pc
    case Idle => 0
    case Finished(_) => 0
    case Waiting(_) => 0
    case Scanning(_, cur, passed) =>
      11 + (if passed <= |m.chain| then |m.chain| - passed else 0) + (if cur == None then 0 else 1)
    case Allocating(_) => 10
    case Filling(_, _) => 9
    case Linking(_, _, step, _) => if step <= 6 then 8 - step else 2
    case Unlocking(_) => 1
    case Looking(_, None, _, _) => 1
    case Looking(_, Some(_), _, moves) => 3 + 2 * (if moves <= 0x1_0000 then 0x1_0000 - moves else 0)
    case Counting(offset) => offset as int + 3
    case Heading(offset) => offset as int + 2
    case Walking(offset, _, _, n) => if n <= offset then 1 + (offset - n) else 1
    case Advancing(_, _, _, moves) => 2 + 2 * (if moves <= 0x1_0000 then 0x1_0000 - moves else 0)
  }

  predicate Active(pc: Pc) { !pc.Idle? && !pc.Waiting? && !pc.Finished? }

  lemma HolderWorks(m: Memory, pc: Pc, c: Choice)
    requires HolderOk(m, pc) && !pc.Unlocking?
    ensures var (m', pc') := HolderStep(m, pc, c); Active(pc') && Work(m', pc') < Work(m, pc)
  {
    hide HolderOk, AddStep, InjectStep, SetNode;
    HolderHolds(m, pc);
    HolderInMemory(m, pc);
  }

  /** What a thread under the lock looks at is in memory, and a scan has not passed the chain. */
  lemma HolderInMemory(m: Memory, pc: Pc)
    requires HolderOk(m, pc)
    ensures pc.Filling? || pc.Linking? ==> pc.node in m.nodes
    ensures pc.Linking? ==> pc.step <= 4
    ensures pc.Scanning? && pc.cur != None ==> pc.passed < |m.chain| && pc.cur.value in m.nodes
  {
    hide Backward, Lacks, ResultOk;
  }

  lemma ReaderWorks(m: Memory, pc: Pc, c: Choice)
    requires Chained(m) && ReaderOk(m, pc) && Active(pc)
    ensures var pc' := ReaderStep(m, pc, c); (Active(pc') || pc'.Finished?) && Work(m, pc') < Work(m, pc)
  {
    ChainIsShort(m);
  }

  /** A call under way, inside the lock or a search outside it, gets nearer its end with every
      step of its own, whatever memory it is refused, and no step of another thread sets it back. */
  lemma StepsMakeProgress(s: State, t: Tid, u: Tid, c: Choice)
    requires Inv(s) && t in s.threads && Active(s.threads[t])
    ensures var s' := Step(s, u, c);
            && t in s'.threads
            && (Active(s'.threads[t]) || s'.threads[t].Finished?)
            && Work(s'.m, s'.threads[t]) <= Work(s.m, s.threads[t]) - (if u == t then 1 else 0)
  {
    hide Chained, Stable, HolderOk, ReaderOk, HolderStep, ReaderStep, Work;
    HolderHolds(s.m, s.threads[t]);
    InvChained(s);
    if u == t {
      if s.lock == Some(t) {
        if s.threads[t].Unlocking? { UnlockingWork(s.m, s.threads[t]); } else { HolderWorks(s.m, s.threads[t], c); }
      } else {
        ReaderWorks(s.m, s.threads[t], c);
      }
    } else if u in s.threads {
      OthersDoNotMatter(s, t, u, c);
    }
  }

  lemma UnlockingWork(m: Memory, pc: Pc)
    requires pc.Unlocking?
    ensures Work(m, pc) == 1 && Work(m, Finished(pc.result)) == 0
  {
  }

  lemma OthersDoNotMatter(s: State, t: Tid, u: Tid, c: Choice)
    requires Inv(s) && t in s.threads && u in s.threads && t != u
    ensures var s' := Step(s, u, c);
            t in s'.threads && s'.threads[t] == s.threads[t] && Work(s'.m, s.threads[t]) == Work(s.m, s.threads[t])
  {
    hide Chained, Stable, Inv, HolderOk, ReaderOk, HolderStep, ReaderStep;
    if s.threads[t].Scanning? {
      HolderAlone(s, t);
    }
  }

  lemma HolderAlone(s: State, t: Tid)
    requires Inv(s) && t in s.threads && Holding(s.threads[t])
    ensures s.lock == Some(t)
  {
    HolderHolds(s.m, s.threads[t]);
  }

  /** How often a schedule lets `t` move. */
  function Turns(schedule: seq<(Tid, Choice)>, t: Tid): nat {
    if schedule == [] then 0 else (if schedule[0].0 == t then 1 else 0) + Turns(schedule[1..], t)
  }

  /** Every call under way ends: after `Work` turns of its own at the latest, with anything done by
      others in between. For a thread inside the lock this is also when the lock is free again. */
  lemma {:induction false} CallsEnd(s: State, t: Tid, schedule: seq<(Tid, Choice)>) returns (n: nat)
    requires Inv(s) && t in s.threads && Active(s.threads[t])
    requires Work(s.m, s.threads[t]) <= Turns(schedule, t)
    ensures n <= |schedule|
    ensures var e := Run(s, schedule[..n]);
            t in e.threads && e.threads[t].Finished? && (s.lock == Some(t) ==> e.lock == None)
    decreases |schedule|
  {
    hide Inv, Chained, Work, Evolves, Step;
    ActiveWorks(s.m, s.threads[t]);
    var u, c := schedule[0].0, schedule[0].1;
    var s' := Step(s, u, c);
    StepKeepsInv(s, u, c);
    StepsMakeProgress(s, t, u, c);
    if s.lock == Some(t) {
      LockFollows(s, t, u, c);
    }
    if s'.threads[t].Finished? {
      n := 1;
      assert schedule[..1][1..] == [];
      assert Run(s, schedule[..1]) == s';
    } else {
      var k := CallsEnd(s', t, schedule[1..]);
      n := k + 1;
      assert schedule[..n][1..] == schedule[1..][..k];
    }
  }

  lemma ActiveWorks(m: Memory, pc: Pc)
    requires Active(pc)
    ensures Work(m, pc) > 0
  {
  }

  lemma LockFollows(s: State, t: Tid, u: Tid, c: Choice)
    requires Inv(s) && t in s.threads && s.lock == Some(t)
    ensures var s' := Step(s, u, c);
            t in s'.threads && s'.lock == if s'.threads[t].Finished? then None else Some(t)
  {
    hide Chained, Stable, Adding, Injecting, AddStep, InjectStep;
    HolderHolds(s.m, s.threads[t]);
  }

  /** So the lock is held for at most 65548 steps of its holder, allocation failures included. */
  lemma WorkIsBounded(s: State, t: Tid)
    requires Inv(s) && t in s.threads
    ensures Holding(s.threads[t]) ==> Work(s.m, s.threads[t]) <= 0x1_0000 + 12
    ensures Work(s.m, s.threads[t]) <= 0x2_0000 + 3
  {
    hide Chained, Inv;
    InvChained(s);
    ChainIsShort(s.m);
  }
}
