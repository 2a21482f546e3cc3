/**
  What each call on a shared packet answers, tied to the call itself: its kind, its type or offset,
  the packet when it began, the packet when it answered, and the memory it was refused in between.
 */
module Answers {
  import opened Bytes
  import opened Wrappers
  import opened Locks

  predicate IsCall(c: Choice) { c.Begin? || c.Look? || c.Nth? }

  predicate Ready(pc: Pc) { pc.Idle? || pc.Finished? }

  ghost predicate HasType(m: Memory, ty: uint16) {
    exists r :: r in m.chain && r in m.nodes && m.nodes[r].ty == ty
  }

  /** The field `r` stands in the chain, whole and of that type. */
  ghost predicate Stands(m: Memory, r: Ref, ty: uint16) {
    r in m.chain && r in m.nodes && m.nodes[r].ty == ty && m.nodes[r].whole
  }

  /** At this step thread `t` asks for memory and is refused. */
  predicate Refused(s: State, t: Tid, c: Choice) {
    && t in s.threads && s.lock == Some(t)
    && ((s.threads[t].Allocating? && !(c.Alloc? && c.node !in s.m.nodes))
        || (s.threads[t].Filling? && !c.EntryAdded?))
  }

  ghost predicate RefusedIn(s: State, t: Tid, schedule: seq<(Tid, Choice)>)
    decreases |schedule|
  {
    schedule != []
    && ((schedule[0].0 == t && Refused(s, t, schedule[0].1))
        || RefusedIn(Step(s, schedule[0].0, schedule[0].1), t, schedule[1..]))
  }

  /** What a writer that was not refused answers. If the type was not there, it has made the field,
      which is not one of before and stands before all others or behind all others; if it was, then
      `append` and `insert` fail and the others yield it. */
  ghost predicate WriterAnswers(before: Memory, after: Memory, call: Call, r: Result) {
    match r
    case Made(ty, node) =>
      && ty == call.ty && !HasType(before, ty) && node !in before.chain && Stands(after, node, ty)
      && node == after.chain[if call.front then 0 else |after.chain| - 1]
    case Exists(ty) => ty == call.ty && call.entry && HasType(after, ty)
    case Found(ty, node) => ty == call.ty && !call.entry && Stands(after, node, ty)
    case _ => false
  }

  /** What a call answers that began with memory `before` and has ended with memory `after`. A search
      by offset counts from the head, or from a field put before it since; it is refused only by a
      chain that is not longer, where the counter lags behind by one field at most or has wrapped. */
  ghost predicate Answers(before: Memory, after: Memory, c: Choice, refused: bool, r: Result) {
    match c
    case Begin(call) => if refused then r == NoMemory else WriterAnswers(before, after, call, r)
    case Look(ty) =>
      (match r
       case Found(ty', node) => ty' == ty && Stands(after, node, ty)
       case Missing(_) => !HasType(before, ty)
       case _ => false)
    case Nth(offset) =>
      (match r
       case AtOffset(o, _, node) => o == offset && exists d, j :: Reached(before, after, offset, node, d, j)
       case NoOffset(o, count, length) =>
         && o == offset && count <= offset && Counts(count, length)
         && |before.chain| <= length <= |after.chain|
       case _ => false)
    case _ => false
  }

  /** `d` fields have been put in front since, and `node` stands `offset` places behind one of these
      or behind the old head. */
  ghost predicate Reached(before: Memory, after: Memory, offset: uint16, node: Ref, d: nat, j: nat) {
    && GrownAt(before, after, d) && j <= d && j + offset < |after.chain|
    && after.chain[j + offset] == node && node in after.nodes && after.nodes[node].whole
  }

  // ---------- a call under way ----------

  ghost predicate Under(before: Memory, m: Memory, c: Choice, refused: bool, pc: Pc) {
    && Grows(before, m)
    && match c
       case Begin(call) => Writing(before, m, call, refused, pc)
       case Look(ty) =>
         && (pc.Looking? || pc.Advancing?) && pc.ty == ty && (HasType(before, ty) ==> pc.present)
       case Nth(offset) =>
         && (pc.Counting? || pc.Heading? || pc.Walking?) && pc.offset == offset
         && (pc.Walking? && pc.first.Some? && pc.cur.Some? ==>
               WalksFrom(before, m, offset, pc.first.value, pc.cur.value, pc.c))
       case _ => false
  }

  ghost predicate WalksFrom(before: Memory, m: Memory, offset: uint16, first: Ref, r: Ref, n: nat) {
    exists d, j :: WalkingFrom(before, m, offset, first, r, n, d, j)
  }

  ghost predicate WalkingFrom(before: Memory, m: Memory, offset: uint16, first: Ref, r: Ref, n: nat, d: nat, j: nat) {
    GrownAt(before, m, d) && j <= d && WalkFits(m, offset, first, r, n, j)
  }

  ghost predicate Writing(before: Memory, m: Memory, call: Call, refused: bool, pc: Pc) {
    match pc
    case Waiting(k) => k == call && !refused
    case Scanning(k, _, _) => k == call && !refused
    case Allocating(k) => k == call && !refused
    case Filling(k, r) => k == call && !refused && r !in before.chain && !HasType(before, k.ty)
    case Linking(k, r, _, _) => k == call && !refused && r !in before.chain && !HasType(before, k.ty)
    case Unlocking(r) => if refused then r == NoMemory else WriterAnswers(before, m, call, r)
    case _ => false
  }

  lemma GrowsOn(before: Memory, m: Memory, m': Memory)
    requires Grows(before, m) && Evolves(m, m')
    ensures Grows(before, m')
  {
    hide Evolves, GrownAt;
    var d: nat :| GrownAt(before, m, d);
    GrowsBoth(before, m, m', d);
  }

  /** What has been put in front since is what had been before, and what is put there now. */
  lemma GrowsBoth(before: Memory, m: Memory, m': Memory, d: nat)
    requires GrownAt(before, m, d) && Evolves(m, m')
    ensures GrownAt(before, m', d + Shift(m, m'))
  {
    hide Evolves, Shift;
    ShiftFits(m, m');
    forall i | 0 <= i < |before.chain|
      ensures before.chain[i] == m'.chain[d + Shift(m, m') + i] && before.chain[i] in before.nodes
              && before.chain[i] in m'.nodes && before.nodes[before.chain[i]].ty == m'.nodes[before.chain[i]].ty
    {
      ShiftIs(m, m', d + i);
    }
  }

  /** A type that has come into the chain stays there, and so do its fields. */
  lemma StillThere(before: Memory, m: Memory, ty: uint16)
    requires Grows(before, m)
    ensures HasType(before, ty) ==> HasType(m, ty)
    ensures forall r :: r in before.chain ==> r in m.chain
  {
    var d: nat :| GrownAt(before, m, d);
    forall i | 0 <= i < |before.chain|
      ensures before.chain[i] in m.chain
    {
      assert m.chain[d + i] == before.chain[i];
    }
    if HasType(before, ty) {
      var r :| r in before.chain && r in before.nodes && before.nodes[r].ty == ty;
      var i :| 0 <= i < |before.chain| && before.chain[i] == r;
      assert before.chain[i] == m.chain[d + i] && before.chain[i] in m.nodes;
    }
  }

  lemma LacksIt(m: Memory, ty: uint16)
    requires Lacks(m, m.chain, ty)
    ensures !HasType(m, ty) && forall r :: r in m.chain ==> r in m.nodes
  {
    forall r | r in m.chain
      ensures r in m.nodes && m.nodes[r].ty != ty
    {
      var i :| 0 <= i < |m.chain| && m.chain[i] == r;
      assert m.chain[i] in m.nodes;
    }
  }

  // ---------- the steps of a writer ----------

  lemma ScanAnswers(before: Memory, m: Memory, pc: Pc, c: Choice, call: Call)
    requires HolderOk(m, pc) && pc.Scanning? && Grows(before, m) && Writing(before, m, call, false, pc)
    ensures var (m', pc') := HolderStep(m, pc, c); m' == m && Writing(before, m, call, false, pc')
  {
    hide Backward, Grows;
    if pc.cur != None {
      assert m.chain[pc.passed] == pc.cur.value;
      if m.nodes[pc.cur.value].ty == call.ty { assert Stands(m, pc.cur.value, call.ty); }
    }
  }

  lemma AllocationAnswers(before: Memory, s: State, t: Tid, c: Choice, call: Call)
    requires t in s.threads && s.lock == Some(t) && HolderOk(s.m, s.threads[t]) && s.threads[t].Allocating?
    requires Grows(before, s.m) && Writing(before, s.m, call, false, s.threads[t])
    ensures var (m', pc') := HolderStep(s.m, s.threads[t], c); Writing(before, m', call, Refused(s, t, c), pc')
  {
    hide Grows, HasType, Stable;
    LacksIt(s.m, call.ty);
    StillThere(before, s.m, call.ty);
  }

  lemma FillingAnswers(before: Memory, s: State, t: Tid, c: Choice, call: Call)
    requires t in s.threads && s.lock == Some(t) && HolderOk(s.m, s.threads[t]) && s.threads[t].Filling?
    requires Writing(before, s.m, call, false, s.threads[t])
    ensures var (m', pc') := HolderStep(s.m, s.threads[t], c); Writing(before, m', call, Refused(s, t, c), pc')
  {
    hide HasType, Stable;
  }

  lemma LinkingAnswers(before: Memory, m: Memory, pc: Pc, c: Choice, call: Call)
    requires HolderOk(m, pc) && pc.Linking? && Writing(before, m, call, false, pc)
    ensures var (m', pc') := HolderStep(m, pc, c); Writing(before, m', call, false, pc')
  {
    hide HasType, Chained, Backward, Lacks;
    if pc.step == 4 {
      var m' := HolderStep(m, pc, c).0;
      assert m'.chain == if call.front then [pc.node] + pc.base else pc.base + [pc.node];
      assert pc.node == m'.chain[if call.front then 0 else |m'.chain| - 1];
    }
  }

  lemma HolderAnswers(before: Memory, s: State, t: Tid, c: Choice, call: Call, refused: bool)
    requires Inv(s) && t in s.threads && s.lock == Some(t) && !s.threads[t].Unlocking?
    requires Grows(before, s.m) && Writing(before, s.m, call, refused, s.threads[t])
    ensures var (m', pc') := HolderStep(s.m, s.threads[t], c);
            Writing(before, m', call, refused || Refused(s, t, c), pc')
  {
    hide Grows, HolderOk, HolderStep, WriterAnswers, ReaderOk;
    HolderHolds(s.m, s.threads[t]);
    var pc := s.threads[t];
    if pc.Scanning? {
      ScanAnswers(before, s.m, pc, c, call);
    } else if pc.Allocating? {
      AllocationAnswers(before, s, t, c, call);
    } else if pc.Filling? {
      FillingAnswers(before, s, t, c, call);
    } else {
      LinkingAnswers(before, s.m, pc, c, call);
    }
  }

  // ---------- the steps of a search ----------

  lemma LookAnswers(before: Memory, m: Memory, pc: Pc, ty: uint16, c: Choice)
    requires Chained(m) && ReaderOk(m, pc) && Under(before, m, Look(ty), false, pc)
    ensures var pc' := ReaderStep(m, pc, c);
            if pc'.Finished? then Answers(before, m, Look(ty), false, pc'.result)
            else Under(before, m, Look(ty), false, pc')
  {
    hide Chained, Grows, HasType;
    if pc.Looking? && pc.cur.Some? {
      ComparedKept(m, ty, pc.cur.value, pc.present, pc.moves);
      if m.nodes[pc.cur.value].ty == ty { VisibleStands(m, ty, pc.cur.value); }
    }
  }

  lemma VisibleStands(m: Memory, ty: uint16, r: Ref)
    requires Visible(m, ty, r)
    ensures Stands(m, r, ty)
  {
  }

  lemma NthAnswers(before: Memory, m: Memory, pc: Pc, offset: uint16, c: Choice)
    requires Chained(m) && Counts(m.count, |m.chain|) && ReaderOk(m, pc) && Under(before, m, Nth(offset), false, pc)
    ensures var pc' := ReaderStep(m, pc, c);
            if pc'.Finished? then Answers(before, m, Nth(offset), false, pc'.result)
            else Under(before, m, Nth(offset), false, pc')
  {
    hide Chained, GrownAt;
    if pc.Counting? {
      LongerNow(before, m);
    } else if pc.Heading? {
      HeadAnswers(before, m, offset);
    } else {
      WalkAnswers(before, m, offset, pc.first.value, pc.cur.value, pc.c);
    }
  }

  lemma LongerNow(before: Memory, m: Memory)
    requires Grows(before, m)
    ensures |before.chain| <= |m.chain|
  {
  }

  lemma HeadAnswers(before: Memory, m: Memory, offset: uint16)
    requires Chained(m) && Grows(before, m) && offset < |m.chain|
    ensures m.head.Some? && WalksFrom(before, m, offset, m.head.value, m.head.value, 0)
  {
    hide GrownAt;
    HeadIsFirst(m);
    var d: nat :| GrownAt(before, m, d);
    assert WalkingFrom(before, m, offset, m.head.value, m.head.value, 0, d, 0);
  }

  lemma WalkAnswers(before: Memory, m: Memory, offset: uint16, first: Ref, r: Ref, n: nat)
    requires Chained(m) && n <= offset && WalksFrom(before, m, offset, first, r, n)
    ensures r in m.nodes
    ensures if n == offset then exists d, j :: Reached(before, m, offset, r, d, j)
            else
              m.nodes[r].next.Some? && WalksFrom(before, m, offset, first, m.nodes[r].next.value, n + 1)
  {
    hide GrownAt;
    var d: nat, j: nat :| WalkingFrom(before, m, offset, first, r, n, d, j);
    if n < offset {
      NextIs(m, j + n);
      assert WalkingFrom(before, m, offset, first, m.nodes[r].next.value, n + 1, d, j);
    } else {
      assert m.chain[j + n] in m.nodes && m.nodes[m.chain[j + n]].whole;
      assert Reached(before, m, offset, r, d, j);
    }
  }

  // ---------- a call through a whole run ----------

  /** A step of the calling thread: it goes on, or it reports the answer. */
  lemma OwnStep(before: Memory, s: State, t: Tid, call: Choice, refused: bool, c: Choice)
    requires Inv(s) && t in s.threads && Under(before, s.m, call, refused, s.threads[t])
    ensures var s' := Step(s, t, c);
            && t in s'.threads
            && if s'.threads[t].Finished? then
                 && s'.reports == s.reports + [(t, s'.threads[t].result)]
                 && Answers(before, s'.m, call, refused, s'.threads[t].result)
               else
                 s'.reports == s.reports && Under(before, s'.m, call, refused || Refused(s, t, c), s'.threads[t])
  {
    hide Chained, Stable, Evolves, HolderOk, ReaderOk, HolderStep, ReaderStep, Grows, WriterAnswers, HasType;
    StepKeepsInv(s, t, c);
    GrowsOn(before, s.m, Step(s, t, c).m);
    InvChained(s);
    HolderHolds(s.m, s.threads[t]);
    var pc := s.threads[t];
    if pc.Waiting? && s.lock == None {
    } else if s.lock == Some(t) {
      if !pc.Unlocking? {
        HolderAnswers(before, s, t, c, call.call, refused);
        NotYet(s.m, pc, c);
      }
    } else if call.Begin? {
      WaitsOn(s, t, c, before, call.call, refused);
    } else if call.Look? {
      LookAnswers(before, s.m, pc, call.ty, c);
    } else {
      NthAnswers(before, s.m, pc, call.offset, c);
    }
  }

  lemma NotYet(m: Memory, pc: Pc, c: Choice)
    requires HolderOk(m, pc) && !pc.Unlocking?
    ensures !HolderStep(m, pc, c).1.Finished?
  {
    hide HolderOk, AddStep, InjectStep, SetNode;
    HolderHolds(m, pc);
  }

  /** Outside the lock a writer can only wait. */
  lemma WaitsOn(s: State, t: Tid, c: Choice, before: Memory, call: Call, refused: bool)
    requires Inv(s) && t in s.threads && s.lock != Some(t) && Writing(before, s.m, call, refused, s.threads[t])
    ensures s.threads[t].Waiting? && ReaderStep(s.m, s.threads[t], c) == s.threads[t]
  {
    hide Chained, Stable, HolderOk, WriterAnswers, HasType;
    HolderHolds(s.m, s.threads[t]);
  }

  /** A step of another thread. */
  lemma OtherStep(before: Memory, s: State, t: Tid, call: Choice, refused: bool, u: Tid, c: Choice)
    requires Inv(s) && t in s.threads && u != t && Under(before, s.m, call, refused, s.threads[t])
    ensures var s' := Step(s, u, c);
            && t in s'.threads && s'.threads[t] == s.threads[t]
            && Under(before, s'.m, call, refused, s'.threads[t])
  {
    hide Chained, Stable, Evolves, HolderOk, ReaderOk, HolderStep, ReaderStep, Grows, GrownAt, WriterAnswers, HasType;
    StepKeepsInv(s, u, c);
    var s' := Step(s, u, c);
    GrowsOn(before, s.m, s'.m);
    var pc := s.threads[t];
    if pc.Unlocking? {
      HolderAlone(s, t);
    } else if pc.Walking? && pc.first.Some? && pc.cur.Some? {
      var d: nat, j: nat :| WalkingFrom(before, s.m, pc.offset, pc.first.value, pc.cur.value, pc.c, d, j);
      WalksOn(before, s.m, s'.m, pc.offset, pc.first.value, pc.cur.value, pc.c, d, j);
    }
  }

  lemma WalksOn(before: Memory, m: Memory, m': Memory, offset: uint16, first: Ref, r: Ref, n: nat, d: nat, j: nat)
    requires Evolves(m, m') && WalkingFrom(before, m, offset, first, r, n, d, j)
    ensures WalksFrom(before, m', offset, first, r, n)
  {
    hide Evolves, Shift, GrownAt;
    var k := Shift(m, m');
    GrowsBoth(before, m, m', d);
    ShiftFits(m, m');
    ShiftIs(m, m', j);
    ShiftIs(m, m', j + n);
    assert WalkingFrom(before, m', offset, first, r, n, d + k, j + k);
  }

  /** The log only grows. */
  lemma {:induction false} LogGrows(s: State, schedule: seq<(Tid, Choice)>)
    ensures s.reports <= Run(s, schedule).reports
    decreases |schedule|
  {
    hide HolderStep, ReaderStep;
    if schedule != [] {
      LogGrows(Step(s, schedule[0].0, schedule[0].1), schedule[1..]);
    }
  }

  predicate Silent(from: seq<(Tid, Result)>, to: seq<(Tid, Result)>, t: Tid) {
    forall i :: |from| <= i < |to| ==> to[i].0 != t
  }

  /** While a thread has not reported, its call is under way. */
  lemma {:induction false} UnderWay(before: Memory, s: State, t: Tid, call: Choice, refused: bool,
                                    schedule: seq<(Tid, Choice)>)
    requires Inv(s) && t in s.threads && Under(before, s.m, call, refused, s.threads[t])
    requires Silent(s.reports, Run(s, schedule).reports, t)
    ensures var e := Run(s, schedule);
            && Inv(e) && t in e.threads
            && Under(before, e.m, call, refused || RefusedIn(s, t, schedule), e.threads[t])
    decreases |schedule|
  {
    hide Inv, Under, Step, Refused, Evolves, Chained, Answers;
    if schedule != [] {
      var u, c, rest := schedule[0].0, schedule[0].1, schedule[1..];
      var s' := Step(s, u, c);
      StepKeepsInv(s, u, c);
      LogGrows(s', rest);
      if u == t {
        OwnStep(before, s, t, call, refused, c);
        if s'.threads[t].Finished? { Spoken(s.reports, Run(s, schedule).reports, t, s'.threads[t].result); }
        UnderWay(before, s', t, call, refused || Refused(s, t, c), rest);
      } else {
        OtherStep(before, s, t, call, refused, u, c);
        StepLogs(s, u, c);
        UnderWay(before, s', t, call, refused, rest);
      }
    }
  }

  lemma Spoken(from: seq<(Tid, Result)>, to: seq<(Tid, Result)>, t: Tid, r: Result)
    requires from + [(t, r)] <= to
    ensures !Silent(from, to, t)
  {
    assert to[|from|] == (from + [(t, r)])[|from|];
  }

  lemma StepLogs(s: State, t: Tid, c: Choice)
    ensures s.reports <= Step(s, t, c).reports
  {
    hide HolderStep, ReaderStep;
  }

  lemma Begun(s: State, t: Tid, c: Choice)
    requires Inv(s) && t in s.threads && Ready(s.threads[t]) && IsCall(c)
    ensures var s' := Step(s, t, c);
            && Inv(s') && t in s'.threads && s'.reports == s.reports && s'.m == s.m
            && Under(s.m, s'.m, c, false, s'.threads[t])
  {
    hide Chained, Stable, HolderOk, ReaderOk, Evolves, HasType, HasTypeFrom, Grows;
    StepKeepsInv(s, t, c);
    HolderHolds(s.m, s.threads[t]);
    InvChained(s);
    GrowsBy(s.m, s.m, 0);
    if c.Look? { SameTypes(s.m, c.ty); }
  }

  lemma SameTypes(m: Memory, ty: uint16)
    ensures HasType(m, ty) <==> HasTypeFrom(m, ty, 0)
  {
    if HasType(m, ty) {
      var r :| r in m.chain && r in m.nodes && m.nodes[r].ty == ty;
      var i :| 0 <= i < |m.chain| && m.chain[i] == r;
      assert m.chain[i] in m.nodes && m.nodes[m.chain[i]].ty == ty;
    }
  }

  /** Every call that any thread ever makes, in every run, is answered as `Answers` says: after any
      schedule `run` a thread begins a call, after any schedule `mid` in which it has not answered yet
      it makes the step that reports, or that ends the call. Whatever the others have done in between,
      that step reports, and right for this call, for the packet it found and for the packet it
      leaves; and a writer answers that there is no memory exactly if it has been refused some. */
  lemma CallsAreAnswered(s: State, run: seq<(Tid, Choice)>, t: Tid, call: Choice, mid: seq<(Tid, Choice)>, last: Choice)
    requires Initial(s) && IsCall(call)
    requires var b := Run(s, run); t in b.threads && Ready(b.threads[t])
    requires var b := Run(s, run);
             var e := Run(Step(b, t, call), mid);
             var f := Step(e, t, last);
             && Silent(b.reports, e.reports, t)
             && (|f.reports| > |e.reports| || (t in f.threads && f.threads[t].Finished?))
    ensures var b := Run(s, run);
            var e := Run(Step(b, t, call), mid);
            var f := Step(e, t, last);
            exists r :: f.reports == e.reports + [(t, r)]
                        && Answers(b.m, f.m, call, RefusedIn(Step(b, t, call), t, mid), r)
  {
    hide Inv, Run, Step, Under, RefusedIn, Chained, Answers;
    InitialInv(s);
    RunKeepsInv(s, run);
    var b := Run(s, run);
    Begun(b, t, call);
    UnderWay(b.m, Step(b, t, call), t, call, false, mid);
    var e := Run(Step(b, t, call), mid);
    OwnStep(b.m, e, t, call, RefusedIn(Step(b, t, call), t, mid), last);
  }

  // ---------- every report ----------

  lemma {:induction false} RunOn(s: State, a: seq<(Tid, Choice)>, b: seq<(Tid, Choice)>)
    ensures Run(s, a + b) == Run(Run(s, a), b)
    decreases |a|
  {
    hide Step;
    if a == [] {
      assert a + b == b;
    } else {
      assert (a + b)[1..] == a[1..] + b;
      RunOn(Step(s, a[0].0, a[0].1), a[1..], b);
    }
  }

  lemma LastStep(s: State, schedule: seq<(Tid, Choice)>, n: nat)
    requires n < |schedule|
    ensures Run(s, schedule[..n + 1]) == Step(Run(s, schedule[..n]), schedule[n].0, schedule[n].1)
  {
    hide Step;
    var last := [schedule[n]];
    assert schedule[..n + 1] == schedule[..n] + last;
    RunOn(s, schedule[..n], last);
    assert last[1..] == [];
    assert Run(Run(s, schedule[..n]), last) == Run(Step(Run(s, schedule[..n]), schedule[n].0, schedule[n].1), []);
  }

  /** A thread leaves its rest only by a call, and a step reports only when the stepping thread has
      been at a call. */
  lemma StepTells(s: State, t: Tid, c: Choice)
    requires Inv(s)
    ensures var s' := Step(s, t, c);
            && (forall u :: u in s'.threads <==> u in s.threads)
            && (forall u :: u in s.threads && u != t ==> s'.threads[u] == s.threads[u])
            && (s'.reports == s.reports
                || (t in s.threads && !Ready(s.threads[t]) && s'.threads[t].Finished?
                    && s'.reports == s.reports + [(t, s'.threads[t].result)]))
            && (t in s.threads && !Ready(s'.threads[t]) ==>
                  s'.reports == s.reports && (Ready(s.threads[t]) ==> IsCall(c)))
  {
    hide Chained, Stable, ReaderOk, HolderOk;
    if t in s.threads && s.lock == Some(t) {
      HolderHolds(s.m, s.threads[t]);
      if !s.threads[t].Unlocking? { NotYet(s.m, s.threads[t], c); }
    }
  }

  /** Where the call under way in a thread began. */
  lemma {:induction false} CallOf(s: State, schedule: seq<(Tid, Choice)>, n: nat, t: Tid) returns (k: nat)
    requires Initial(s) && n <= |schedule|
    requires var e := Run(s, schedule[..n]); t in e.threads && !Ready(e.threads[t])
    ensures k < n && schedule[k].0 == t && IsCall(schedule[k].1)
    ensures var b := Run(s, schedule[..k]);
            && t in b.threads && Ready(b.threads[t])
            && Silent(b.reports, Run(s, schedule[..n]).reports, t)
            && b.reports <= Run(s, schedule[..n]).reports
    decreases n
  {
    hide Run, Step, Inv, Chained;
    if n == 0 {
      NothingRun(s, schedule);
    } else {
      var p := Run(s, schedule[..n - 1]);
      LastStep(s, schedule, n - 1);
      InitialInv(s);
      RunKeepsInv(s, schedule[..n - 1]);
      StepTells(p, schedule[n - 1].0, schedule[n - 1].1);
      if Ready(p.threads[t]) {
        k := n - 1;
      } else {
        k := CallOf(s, schedule, n - 1, t);
      }
    }
  }

  lemma NothingRun(s: State, schedule: seq<(Tid, Choice)>)
    ensures Run(s, schedule[..0]) == s
  {
  }

  /** Every report in the log of every run is the answer to a call: there is a step `k` at which its
      thread began a call, and a step `n` at which it reported, with no report of its own between. */
  lemma {:induction false} EveryReportAnswers(s: State, schedule: seq<(Tid, Choice)>, m: nat, i: nat)
    returns (k: nat, n: nat)
    requires Initial(s) && m <= |schedule| && i < |Run(s, schedule[..m]).reports|
    ensures k < n < m && IsCall(schedule[k].1)
    ensures var (t, r) := Run(s, schedule[..m]).reports[i];
            && schedule[k].0 == t == schedule[n].0
            && |Run(s, schedule[..n]).reports| == i
            && Answers(Run(s, schedule[..k]).m, Run(s, schedule[..n + 1]).m, schedule[k].1,
                       RefusedIn(Run(s, schedule[..k + 1]), t, schedule[k + 1..n]), r)
    decreases m
  {
    hide Run, Step, Inv, Chained, Answers, RefusedIn;
    if m == 0 {
      NothingRun(s, schedule);
    } else {
      var p := Run(s, schedule[..m - 1]);
      LastStep(s, schedule, m - 1);
      InitialInv(s);
      RunKeepsInv(s, schedule[..m - 1]);
      var t := schedule[m - 1].0;
      StepTells(p, t, schedule[m - 1].1);
      if i < |p.reports| {
        k, n := EveryReportAnswers(s, schedule, m - 1, i);
      } else {
        n := m - 1;
        k := CallOf(s, schedule, n, t);
        LastStep(s, schedule, k);
        assert schedule[..n] == schedule[..k + 1] + schedule[k + 1..n];
        RunOn(s, schedule[..k + 1], schedule[k + 1..n]);
        CallsAreAnswered(s, schedule[..k], t, schedule[k].1, schedule[k + 1..n], schedule[n].1);
      }
    }
  }

  /** A thread that waits takes the lock when it moves and the lock is free; so with `CallsEnd` every
      call ends that is given its turns. */
  lemma LockIsTaken(s: State, t: Tid, c: Choice)
    requires t in s.threads && s.threads[t].Waiting? && s.lock == None
    ensures var s' := Step(s, t, c); s'.lock == Some(t) && t in s'.threads && Active(s'.threads[t]) && s'.m == s.m
  {
  }

  // ---------- what is kept in memory ----------

  /** Every field in memory is in the chain, except the one that the holder of the lock is making. */
  ghost predicate Tidy(m: Memory, pc: Pc) {
    forall r :: r in m.nodes ==> r in m.chain || ((pc.Filling? || pc.Linking?) && r == pc.node)
  }

  ghost predicate AllTidy(s: State) {
    if s.lock.Some? then s.lock.value in s.threads && Tidy(s.m, s.threads[s.lock.value]) else Tidy(s.m, Idle)
  }

  lemma HolderTidy(m: Memory, pc: Pc, c: Choice)
    requires HolderOk(m, pc) && Tidy(m, pc)
    ensures var (m', pc') := HolderStep(m, pc, c); Tidy(m', pc')
  {
    hide Stable, Backward, Lacks;
    if pc.Linking? { LinkingTidy(m, pc, c); }
  }

  lemma LinkingTidy(m: Memory, pc: Pc, c: Choice)
    requires HolderOk(m, pc) && Tidy(m, pc) && pc.Linking?
    ensures var (m', pc') := HolderStep(m, pc, c); Tidy(m', pc')
  {
    hide Chained, Backward, Lacks;
    assert m.head == First(m.chain) by { HeadThere(m); }
    var m' := HolderStep(m, pc, c).0;
    assert forall r :: r in m'.nodes ==> r in m.nodes;
    assert m'.chain == m.chain || m'.chain == m.chain + [pc.node] || m'.chain == [pc.node] + m.chain;
  }

  lemma HeadThere(m: Memory)
    requires Chained(m)
    ensures m.head == First(m.chain)
  {
  }

  lemma StepTidy(s: State, t: Tid, c: Choice)
    requires Inv(s) && AllTidy(s)
    ensures AllTidy(Step(s, t, c))
  {
    hide Chained, Stable, HolderOk, ReaderOk, HolderStep, ReaderStep;
    if t in s.threads && s.lock == Some(t) && !s.threads[t].Unlocking? { HolderTidy(s.m, s.threads[t], c); }
    if t in s.threads { HolderHolds(s.m, s.threads[t]); }
  }

  lemma {:induction false} RunTidy(s: State, schedule: seq<(Tid, Choice)>)
    requires Inv(s) && AllTidy(s)
    ensures AllTidy(Run(s, schedule))
    decreases |schedule|
  {
    hide Inv, AllTidy, Step, Chained;
    if schedule != [] {
      StepKeepsInv(s, schedule[0].0, schedule[0].1);
      StepTidy(s, schedule[0].0, schedule[0].1);
      RunTidy(Step(s, schedule[0].0, schedule[0].1), schedule[1..]);
    }
  }

  /** Nothing leaks: after every run that leaves the lock free the fields in memory are exactly those
      of the chain, so every field made for a call that failed has been freed. */
  lemma NothingLeaks(s: State, schedule: seq<(Tid, Choice)>)
    requires Initial(s) && Run(s, schedule).lock == None
    ensures var m := Run(s, schedule).m; forall r :: r in m.nodes <==> r in m.chain
  {
    hide Run, Backward;
    InitialInv(s);
    RunKeepsInv(s, schedule);
    RunTidy(s, schedule);
    var m := Run(s, schedule).m;
    assert forall i :: 0 <= i < |m.chain| ==> m.chain[i] in m.nodes;
  }
}
