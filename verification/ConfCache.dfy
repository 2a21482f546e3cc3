/**
  The cached default configuration: the file is parsed again when its modification time is not
  the one remembered from the last parse that succeeded. The file system is an environment that
  writes and removes the file between the calls.
 */
module ConfCache {
  import opened Wrappers
  import opened ConfItems
  import opened ConfParser

  /** The file as `stat` and a read would find it. */
  datatype File = File(content: string, mtime: nat)

  datatype Cache = Cache(items: seq<Item>, updated: bool, time: nat)

  /** The return value of a call and the cache it leaves; undefined when the parser is. */
  datatype Outcome = Undefined | Returned(ok: bool, cache: Cache)

  predicate UpToDate(c: Cache, disk: Option<File>) {
    c.updated && disk.Some? && disk.value.mtime != 0 && disk.value.mtime == c.time
  }

  /** The file is there, is not empty and there is memory to read it. */
  predicate Readable(disk: Option<File>, memory: bool) {
    disk.Some? && disk.value.content != "" && memory
  }

  /** A parse that fails has cleared the items, but the time of the last success stays. */
  function Parsing(c: Cache, disk: Option<File>, memory: bool): Outcome {
    if !Readable(disk, memory) then Returned(false, c)
    else
      match Parse(disk.value.content)
      case Undefined => Outcome.Undefined
      case Done(ok, items) => Returned(ok, if ok then Cache(items, true, disk.value.mtime) else c.(items := items))
  }

  function Getting(c: Cache, disk: Option<File>, memory: bool): Outcome {
    if UpToDate(c, disk) then Returned(true, c) else Parsing(c, disk, memory)
  }

  // ---------- histories ----------

  datatype Event = Write(content: string, mtime: nat) | Remove | ParseFile(memory: bool) | Get(memory: bool)

  /** `used` holds the modification times that have occurred. */
  datatype World = World(disk: Option<File>, used: set<nat>, cache: Cache)

  function After(w: World, e: Event): Option<World> {
    match e
    case Write(content, mtime) => Some(w.(disk := Some(File(content, mtime)), used := w.used + {mtime}))
    case Remove => Some(w.(disk := None))
    case ParseFile(memory) =>
      var o := Parsing(w.cache, w.disk, memory);
      if o.Undefined? then None else Some(w.(cache := o.cache))
    case Get(memory) =>
      var o := Getting(w.cache, w.disk, memory);
      if o.Undefined? then None else Some(w.(cache := o.cache))
  }

  function Run(w: World, history: seq<Event>): Option<World>
    decreases |history|
  {
    if history == [] then Some(w)
    else
      match After(w, history[0])
      case None => None
      case Some(w') => Run(w', history[1..])
  }

  /** Every write carries a time that has not occurred before. */
  predicate NewTimes(used: set<nat>, history: seq<Event>)
    decreases |history|
  {
    history == [] ||
    if history[0].Write? then history[0].mtime !in used && NewTimes(used + {history[0].mtime}, history[1..])
    else NewTimes(used, history[1..])
  }

  const Empty := Cache([], false, 0)
  const Fresh := World(None, {}, Empty)

  /** If the cache looks up to date, it holds what parsing the file gives. */
  predicate Coherent(w: World) {
    && (w.cache.updated ==> w.cache.time in w.used)
    && (w.disk.Some? ==> w.disk.value.mtime in w.used)
    && (UpToDate(w.cache, w.disk) ==>
          w.disk.value.content != "" && Parse(w.disk.value.content) == Done(true, w.cache.items))
  }

  lemma StepCoherent(w: World, e: Event)
    requires Coherent(w) && (e.Write? ==> e.mtime !in w.used)
    ensures After(w, e).Some? ==> Coherent(After(w, e).value)
  {
    hide Parse;
  }

  lemma {:induction false} RunCoherent(w: World, history: seq<Event>)
    requires Coherent(w) && NewTimes(w.used, history)
    ensures Run(w, history).Some? ==> Coherent(Run(w, history).value)
    decreases |history|
  {
    hide Parse, Coherent;
    if history != [] {
      StepCoherent(w, history[0]);
      if After(w, history[0]).Some? { RunCoherent(After(w, history[0]).value, history[1..]); }
    }
  }

  /** After any history in which no two writes share a time, a call succeeds exactly when the file
      can be read and parsed now (or has been, unchanged since), and what it exposes is the parse
      of the current content; failed parses on the way do not matter. */
  lemma GetIsCurrent(history: seq<Event>, memory: bool)
    requires NewTimes({}, history) && Run(Fresh, history).Some?
    ensures var w := Run(Fresh, history).value;
            match Getting(w.cache, w.disk, memory)
            case Undefined => Readable(w.disk, memory) && Parse(w.disk.value.content).Undefined?
            case Returned(ok, cache) =>
              && (ok <==> Readable(w.disk, memory || UpToDate(w.cache, w.disk)) && Parse(w.disk.value.content).Done?
                          && Parse(w.disk.value.content).ok)
              && (ok ==> cache.items == Parse(w.disk.value.content).items)
  {
    hide Parse, Run;
    RunCoherent(Fresh, history);
  }

  // ---------- any times at all ----------

  /** A call as it finds the file; a forced one parses without looking at the time. What happens to
      the file between two calls matters only through what the second one finds. */
  datatype Call = Call(disk: Option<File>, memory: bool, forced: bool)

  function Made(c: Cache, call: Call): Outcome {
    if call.forced then Parsing(c, call.disk, call.memory) else Getting(c, call.disk, call.memory)
  }

  /** The cache after these calls, if no parse among them is undefined. */
  function CacheAfter(calls: seq<Call>): Option<Cache> {
    if calls == [] then Some(Empty)
    else
      var before := CacheAfter(calls[..|calls| - 1]);
      if before.None? then None
      else
        var o := Made(before.value, calls[|calls| - 1]);
        if o.Undefined? then None else Some(o.cache)
  }

  /** The calls of a history. */
  function Calls(disk: Option<File>, history: seq<Event>): seq<Call>
    decreases |history|
  {
    if history == [] then []
    else
      match history[0]
      case Write(content, mtime) => Calls(Some(File(content, mtime)), history[1..])
      case Remove => Calls(None, history[1..])
      case ParseFile(memory) => [Call(disk, memory, true)] + Calls(disk, history[1..])
      case Get(memory) => [Call(disk, memory, false)] + Calls(disk, history[1..])
  }

  /** A history leaves the cache that its calls leave. */
  lemma {:induction false} HistoryIsCalls(w: World, history: seq<Event>, done: seq<Call>)
    requires CacheAfter(done) == Some(w.cache)
    ensures var r, c := Run(w, history), CacheAfter(done + Calls(w.disk, history));
            if r.Some? then c == Some(r.value.cache) else c.None?
    decreases |history|
  {
    hide CacheAfter, Calls, After, Made;
    if history == [] {
      assert Calls(w.disk, history) == [] by { NoHistory(w.disk); }
      assert done + [] == done;
    } else {
      var e, rest := history[0], history[1..];
      CallsStep(w, history);
      if e.Write? || e.Remove? {
        HistoryIsCalls(After(w, e).value, rest, done);
      } else {
        var call := Call(w.disk, e.memory, e.ParseFile?);
        OneCall(w, e, done);
        assert done + ([call] + Calls(w.disk, rest)) == (done + [call]) + Calls(w.disk, rest);
        if After(w, e).Some? {
          HistoryIsCalls(After(w, e).value, rest, done + [call]);
        } else {
          NeverAgain(done + [call], Calls(w.disk, rest));
        }
      }
    }
  }

  lemma NoHistory(disk: Option<File>)
    ensures Calls(disk, []) == []
  {
  }

  /** A write or a removal is no call. */
  lemma CallsStep(w: World, history: seq<Event>)
    requires history != []
    ensures var e, rest := history[0], history[1..];
            if e.Write? || e.Remove? then
              && After(w, e).Some? && After(w, e).value.cache == w.cache
              && Calls(w.disk, history) == Calls(After(w, e).value.disk, rest)
            else
              && Calls(w.disk, history) == [Call(w.disk, e.memory, e.ParseFile?)] + Calls(w.disk, rest)
              && (After(w, e).Some? ==> After(w, e).value.disk == w.disk)
  {
    hide Parsing, Getting;
  }

  lemma OneCall(w: World, e: Event, done: seq<Call>)
    requires CacheAfter(done) == Some(w.cache) && (e.ParseFile? || e.Get?)
    ensures var c := CacheAfter(done + [Call(w.disk, e.memory, e.ParseFile?)]);
            if After(w, e).Some? then c == Some(After(w, e).value.cache) else c.None?
  {
    hide Parsing, Getting, CacheAfter;
    CacheStep(done, Call(w.disk, e.memory, e.ParseFile?));
  }

  lemma CacheStep(done: seq<Call>, call: Call)
    requires CacheAfter(done).Some?
    ensures var o := Made(CacheAfter(done).value, call);
            CacheAfter(done + [call]) == if o.Undefined? then None else Some(o.cache)
  {
    hide Made;
    assert (done + [call])[..|done|] == done;
  }

  /** Behind an undefined parse there is nothing to say. */
  lemma {:induction false} NeverAgain(done: seq<Call>, more: seq<Call>)
    requires CacheAfter(done).None?
    ensures CacheAfter(done + more).None?
    decreases |more|
  {
    if more == [] {
      assert done + more == done;
    } else {
      NeverAgain(done, more[..|more| - 1]);
      assert (done + more)[..|done + more| - 1] == done + more[..|more| - 1];
    }
  }

  /** The call succeeds only with the parse of what it finds. */
  predicate Current(c: Cache, call: Call) {
    var o := Made(c, call);
    o.Returned? && o.ok ==>
      call.disk.Some? && call.disk.value.content != "" && Parse(call.disk.value.content) == Done(true, o.cache.items)
  }

  predicate CurrentAt(calls: seq<Call>, j: nat)
    requires j < |calls|
  {
    CacheAfter(calls[..j]).Some? ==> Current(CacheAfter(calls[..j]).value, calls[j])
  }

  predicate Accepted(call: Call) {
    Readable(call.disk, call.memory) && Parse(call.disk.value.content).Done? && Parse(call.disk.value.content).ok
  }

  predicate Rejected(call: Call) {
    Readable(call.disk, call.memory) && Parse(call.disk.value.content).Done? && !Parse(call.disk.value.content).ok
  }

  /** A file with that time is taken for the one that call `i` has found acceptable: call `j` finds
      the same non-zero time, and no call between them has parsed another acceptable file. */
  predicate TakenFor(calls: seq<Call>, i: nat, j: nat)
    requires i < j <= |calls|
  {
    && Accepted(calls[i])
    && forall k :: i < k < j && Accepted(calls[k]) ==>
         !calls[k].forced && calls[k].disk.value.mtime == calls[i].disk.value.mtime
  }

  predicate LooksAlike(calls: seq<Call>, i: nat, j: nat)
    requires i < j < |calls|
  {
    && TakenFor(calls, i, j) && !calls[j].forced && calls[i].disk.value.mtime != 0
    && calls[j].disk.Some? && calls[j].disk.value.mtime == calls[i].disk.value.mtime
  }

  /** What the cache then holds: the items of call `i`, or nothing if a file has been rejected since. */
  function Kept(calls: seq<Call>, i: nat, j: nat): seq<Item>
    requires i < j <= |calls| && Accepted(calls[i])
  {
    if exists k :: i < k < j && Rejected(calls[k]) then [] else Parse(calls[i].disk.value.content).items
  }

  /** What call `j` finds is acceptable with just those items. */
  predicate IsAlike(calls: seq<Call>, i: nat, j: nat)
    requires i < j < |calls| && LooksAlike(calls, i, j)
  {
    calls[j].disk.value.content != "" && Parse(calls[j].disk.value.content) == Done(true, Kept(calls, i, j))
  }

  /** While calls are current, the cache holds what `Kept` says. */
  lemma {:induction false} KeptWhileCurrent(calls: seq<Call>, i: nat, j: nat)
    requires i < j <= |calls| && CacheAfter(calls).Some? && TakenFor(calls, i, j) && calls[i].disk.value.mtime != 0
    requires forall k :: 0 <= k < j ==> CurrentAt(calls, k)
    ensures CacheAfter(calls[..j]) == Some(Cache(Kept(calls, i, j), true, calls[i].disk.value.mtime))
    decreases j
  {
    hide Parse;
    DefinedBefore(calls, j);
    DefinedBefore(calls, j - 1);
    LastCall(calls, j);
    assert CurrentAt(calls, j - 1);
    RejectedIsEmpty(calls[j - 1]);
    if j > i + 1 {
      assert TakenFor(calls, i, j - 1);
      KeptWhileCurrent(calls, i, j - 1);
      KeptNext(calls, i, j);
    }
  }

  lemma KeptNext(calls: seq<Call>, i: nat, j: nat)
    requires i + 1 < j <= |calls| && Accepted(calls[i])
    ensures Kept(calls, i, j) == if Rejected(calls[j - 1]) then [] else Kept(calls, i, j - 1)
  {
    hide Parse;
  }

  lemma RejectedIsEmpty(call: Call)
    ensures Rejected(call) ==> Parse(call.disk.value.content).items == []
  {
    hide Run;
    if call.disk.Some? { FailureIsEmpty(call.disk.value.content, Start([])); }
  }

  lemma LastCall(calls: seq<Call>, j: nat)
    requires 0 < j <= |calls|
    ensures calls[..j][..j - 1] == calls[..j - 1] && calls[..j][j - 1] == calls[j - 1]
  {
  }

  lemma {:induction false} DefinedBefore(calls: seq<Call>, j: nat)
    requires j <= |calls| && CacheAfter(calls).Some?
    ensures CacheAfter(calls[..j]).Some?
    decreases |calls|
  {
    if j == |calls| {
      assert calls[..j] == calls;
    } else {
      DefinedBefore(calls[..|calls| - 1], j);
      assert calls[..|calls| - 1][..j] == calls[..j];
    }
  }

  /** The call whose file the cache was last filled from, if it was. */
  lemma {:induction false} Origin(calls: seq<Call>, j: nat) returns (i: int)
    requires j <= |calls| && CacheAfter(calls).Some?
    requires forall i, k :: 0 <= i < k < j && LooksAlike(calls, i, k) ==> IsAlike(calls, i, k)
    ensures CacheAfter(calls[..j]).Some?
    ensures var c := CacheAfter(calls[..j]).value;
            if c.updated then
              0 <= i < j && TakenFor(calls, i, j) && c.time == calls[i].disk.value.mtime && c.items == Kept(calls, i, j)
            else i == -1
    decreases j
  {
    hide Parse;
    DefinedBefore(calls, j);
    if j == 0 {
      i := -1;
    } else {
      var before := Origin(calls, j - 1);
      LastCall(calls, j);
      RejectedIsEmpty(calls[j - 1]);
      var c, call := CacheAfter(calls[..j - 1]).value, calls[j - 1];
      if Accepted(call) && (call.forced || !UpToDate(c, call.disk)) {
        i := j - 1;
      } else {
        i := before;
        if 0 <= i {
          KeptNext(calls, i, j);
          if !call.forced && UpToDate(c, call.disk) { assert LooksAlike(calls, i, j - 1); }
        }
      }
    }
  }

  /** For any calls on any files, with times that repeat, go back or are zero: every call is current
      if and only if every file that is taken for an earlier one is just like it. */
  lemma CurrentExactly(calls: seq<Call>)
    requires CacheAfter(calls).Some?
    ensures (forall j :: 0 <= j < |calls| ==> CurrentAt(calls, j)) <==>
            (forall i, j :: 0 <= i < j < |calls| && LooksAlike(calls, i, j) ==> IsAlike(calls, i, j))
  {
    hide Parse, CacheAfter;
    if forall j :: 0 <= j < |calls| ==> CurrentAt(calls, j) {
      forall i, j | 0 <= i < j < |calls| && LooksAlike(calls, i, j)
        ensures IsAlike(calls, i, j)
      {
        KeptWhileCurrent(calls, i, j);
        assert CurrentAt(calls, j);
      }
    }
    if forall i, j :: 0 <= i < j < |calls| && LooksAlike(calls, i, j) ==> IsAlike(calls, i, j) {
      forall j | 0 <= j < |calls|
        ensures CurrentAt(calls, j)
      {
        var i := Origin(calls, j);
        OriginMakesCurrent(calls, i, j);
      }
    }
  }

  /** So it is with the calls of any history of writes, removals and calls. */
  lemma HistoryCurrentExactly(history: seq<Event>)
    requires Run(Fresh, history).Some?
    ensures var calls := Calls(None, history);
            && CacheAfter(calls) == Some(Run(Fresh, history).value.cache)
            && ((forall j :: 0 <= j < |calls| ==> CurrentAt(calls, j)) <==>
                (forall i, j :: 0 <= i < j < |calls| && LooksAlike(calls, i, j) ==> IsAlike(calls, i, j)))
  {
    hide Parse, Run, CacheAfter, Calls, CurrentAt, LooksAlike, IsAlike;
    var calls := Calls(None, history);
    NoCalls();
    HistoryIsCalls(Fresh, history, []);
    assert [] + calls == calls;
    CurrentExactly(calls);
  }

  lemma NoCalls()
    ensures CacheAfter([]) == Some(Empty)
  {
  }

  lemma OriginMakesCurrent(calls: seq<Call>, i: int, j: nat)
    requires j < |calls| && CacheAfter(calls[..j]).Some?
    requires var c := CacheAfter(calls[..j]).value;
             if c.updated then
               && 0 <= i < j && TakenFor(calls, i, j)
               && c.time == calls[i].disk.value.mtime && c.items == Kept(calls, i, j)
             else i == -1
    requires 0 <= i && LooksAlike(calls, i, j) ==> IsAlike(calls, i, j)
    ensures CurrentAt(calls, j)
  {
    hide Parse, CacheAfter, Kept;
  }

  // ---------- two ways to be stale, two ways not to be ----------

  /** A call that finds a file with this content and time. */
  function Finds(content: string, mtime: nat): Call { Call(Some(File(content, mtime)), true, false) }

  predicate Acceptable(content: string) { content != "" && Parse(content).Done? && Parse(content).ok }

  predicate Unacceptable(content: string) { content != "" && Parse(content).Done? && !Parse(content).ok }

  lemma TwoCalls(a: Call, b: Call)
    requires CacheAfter([a]).Some? && Made(CacheAfter([a]).value, b).Returned?
    ensures CacheAfter([a, b]) == Some(Made(CacheAfter([a]).value, b).cache)
    ensures [a, b][..1] == [a]
  {
    hide Made;
    assert [a, b][..1] == [a];
  }

  lemma ThreeCalls(a: Call, b: Call, c: Call)
    requires CacheAfter([a, b]).Some? && Made(CacheAfter([a, b]).value, c).Returned?
    ensures CacheAfter([a, b, c]) == Some(Made(CacheAfter([a, b]).value, c).cache)
    ensures [a, b, c][..2] == [a, b] && [a, b, c][..1] == [a]
  {
    hide Made;
    assert [a, b, c][..2] == [a, b];
  }

  lemma FirstCall(content: string, mtime: nat)
    requires Acceptable(content)
    ensures CacheAfter([Finds(content, mtime)]) == Some(Cache(Parse(content).items, true, mtime))
  {
    hide Parse;
    assert [Finds(content, mtime)][..0] == [];
  }

  /** The file is written again within the granularity of the clock. */
  lemma StaleWhenTimesRepeat(a: string, b: string, t: nat)
    requires Acceptable(a) && t != 0 && (b == "" || Parse(b) != Parse(a))
    ensures var calls := [Finds(a, t), Finds(b, t)]; CacheAfter(calls).Some? && !CurrentAt(calls, 1)
  {
    hide Parse;
    FirstCall(a, t);
    TwoCalls(Finds(a, t), Finds(b, t));
  }

  /** A file is restored, with its time, after an edit that was rejected: the items are gone. */
  lemma StaleAfterRejected(a: string, b: string, t: nat, u: nat)
    requires Acceptable(a) && Parse(a).items != [] && Unacceptable(b) && t != 0 && u != t
    ensures var calls := [Finds(a, t), Finds(b, u), Finds(a, t)]; CacheAfter(calls).Some? && !CurrentAt(calls, 2)
  {
    hide Parse;
    FirstCall(a, t);
    RejectedIsEmpty(Finds(b, u));
    TwoCalls(Finds(a, t), Finds(b, u));
    ThreeCalls(Finds(a, t), Finds(b, u), Finds(a, t));
  }

  /** A time that comes back does no harm when another file has been accepted since. */
  lemma CurrentAfterAnother(a: string, b: string, c: string, t: nat, u: nat)
    requires Acceptable(a) && Acceptable(b) && Acceptable(c) && u != t
    ensures var calls := [Finds(a, t), Finds(b, u), Finds(c, t)]; CacheAfter(calls).Some? && CurrentAt(calls, 2)
  {
    hide Parse;
    FirstCall(a, t);
    TwoCalls(Finds(a, t), Finds(b, u));
    ThreeCalls(Finds(a, t), Finds(b, u), Finds(c, t));
  }

  /** Nor when a file without items comes after one that was rejected. */
  lemma CurrentWithoutItems(a: string, b: string, c: string, t: nat, u: nat)
    requires Acceptable(a) && Unacceptable(b) && Acceptable(c) && Parse(c).items == [] && u != t
    ensures var calls := [Finds(a, t), Finds(b, u), Finds(c, t)]; CacheAfter(calls).Some? && CurrentAt(calls, 2)
  {
    hide Parse;
    FirstCall(a, t);
    RejectedIsEmpty(Finds(b, u));
    TwoCalls(Finds(a, t), Finds(b, u));
    ThreeCalls(Finds(a, t), Finds(b, u), Finds(c, t));
  }

  // ---------- the program ----------

  class FileConf {
    const conf: Conf
    var updated: bool
    var time: nat

    ghost predicate Valid()
      reads this, conf
    {
      conf.Valid()
    }

    ghost function Value(): Cache
      reads this, conf
    {
      Cache(conf.items, updated, time)
    }

    constructor ()
      ensures Valid() && fresh(conf) && Value() == Empty
    {
      conf := new Conf();
      updated, time := false, 0;
    }

    method IsUpToDate(disk: Option<File>) returns (yes: bool)
      ensures yes <==> UpToDate(Value(), disk)
    {
      if !updated { return false; }
      if disk.Some? && disk.value.mtime != 0 {
        return disk.value.mtime == time;
      }
      return false;
    }

    method ParseFile(disk: Option<File>, memory: bool) returns (status: Option<bool>)
      requires Valid()
      modifies this, conf
      ensures match Parsing(old(Value()), disk, memory)
              case Undefined => status == None
              case Returned(ok, cache) => status == Some(ok) && Valid() && Value() == cache
    {
      if disk == None || disk.value.content == "" || !memory { return Some(false); }
      var freed := conf.Clear();
      status := FileRead(disk.value.content, conf);
      if status == Some(true) {
        updated, time := true, disk.value.mtime;
      }
    }

    method DefaultGet(disk: Option<File>, memory: bool) returns (status: Option<bool>)
      requires Valid()
      modifies this, conf
      ensures match Getting(old(Value()), disk, memory)
              case Undefined => status == None
              case Returned(ok, cache) => status == Some(ok) && Valid() && Value() == cache
    {
      var fine := IsUpToDate(disk);
      if fine { return Some(true); }
      status := ParseFile(disk, memory);
    }
  }
}
