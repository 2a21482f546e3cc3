/**
  The configuration parser: a state machine over the text of a file, with a NUL behind its end.
  The cursor is a position in the text; `|text|` is the position of the NUL. Where the program
  reads past the NUL, or through a NULL pointer, its behaviour is undefined and so is the model's.
 */
module ConfParser {
  import opened Wrappers
  import opened ConfItems

  predicate IsEol(c: char) { c == '\r' || c == '\n' }

  predicate IsSpace(c: char) { c == ' ' || c == '\t' }

  predicate IsName(c: char) { 'a' <= c <= 'z' || 'A' <= c <= 'Z' || '0' <= c <= '9' || c == ':' }

  predicate NotEol(c: char) { !IsEol(c) }

  predicate IsBare(c: char) { !IsSpace(c) && !IsEol(c) }

  // ---------- cursor movements ----------

  /** The first position from `p` on that ends the text or holds a character outside `f`. */
  function Span(text: string, p: nat, f: char -> bool): (q: nat)
    requires p <= |text|
    ensures p <= q <= |text|
    ensures forall i :: p <= i < q ==> f(text[i])
    ensures q < |text| ==> !f(text[q])
    decreases |text| - p
  {
    if p < |text| && f(text[p]) then Span(text, p + 1, f) else p
  }

  /** Past one character, or past both characters of a CR LF. */
  function PastEol(text: string, p: nat): (q: nat)
    requires p < |text|
    ensures p < q <= |text|
  {
    if text[p] == '\r' && ByteAt(text, p + 1) == '\n' then p + 2 else p + 1
  }

  /** Where the scan of a quoted value goes from `p`: past an escaped quote, and past a line end
      together with the character after it, which is not looked at. */
  function QuoteNext(text: string, p: nat): (q: nat)
    requires p < |text|
    ensures p < q <= |text| + 1
  {
    if text[p] == '\\' && ByteAt(text, p + 1) == '"' then p + 2
    else if IsEol(text[p]) then PastEol(text, p) + 1
    else p + 1
  }

  /** Where the scan stops: at a quote, at the end, or one past the end when a line ends there. */
  function QuoteStop(text: string, p: nat): (q: nat)
    requires p <= |text| + 1
    ensures p <= q <= |text| + 1
    ensures q < |text| ==> text[q] == '"'
    decreases |text| + 1 - p
  {
    if p >= |text| || text[p] == '"' then p else QuoteStop(text, QuoteNext(text, p))
  }

  // ---------- the state machine ----------

  datatype State = Global | Name | Assign | Value | Close

  /** The local variables at the head of the main loop. The name lies at `start..end`. The limits of
      a value are not among them: they are set on the way to the end of an assignment, which clears
      them, or to the end of the text. */
  datatype Machine = Machine(state: State, bp: nat, ok: bool, start: nat, end: nat, items: seq<Item>)

  /** After one iteration, or part of one: the program has read where it must not, or goes on. */
  datatype Outcome = Lost | At(m: Machine)

  predicate Holds(text: string, m: Machine) {
    m.state != Global && m.state != Name ==> m.start < m.end <= |text|
  }

  /** The items with an assignment added whose name and value lie at these places. */
  function Store(text: string, items: seq<Item>, start: nat, end: nat, value: (nat, nat)): seq<Item>
    requires start <= end <= |text| && value.0 <= value.1 <= |text|
  {
    Added(items, text[start..], end - start + 1, text[value.0..], value.1 - value.0 + 1)
  }

  /** The end of an assignment, at `p`; no value when none was found on the line. Without a value
      there is nothing to copy, but a name that is taken is refused before the value is looked at. */
  function CloseStep(text: string, m: Machine, p: nat, value: Option<(nat, nat)>): Outcome
    requires m.start <= m.end <= |text| && p <= |text|
    requires value.Some? ==> value.value.0 <= value.value.1 <= |text|
  {
    var next := if p == |text| then p else if IsEol(text[p]) then PastEol(text, p) else Span(text, p + 1, NotEol);
    var ok := m.ok && (p == |text| || IsEol(text[p]));
    if !ok then At(m.(state := Global, bp := next, ok := false))
    else if value.Some? then
      At(m.(state := Global, bp := next, items := Store(text, m.items, m.start, m.end, value.value)))
    else if Find(m.items, text[m.start..]).Some? then At(m.(state := Global, bp := next))
    else Lost
  }

  /** Reading a value at `p`. */
  function ValueStep(text: string, m: Machine, p: nat): Outcome
    requires m.start <= m.end <= |text| && p <= |text|
  {
    var c := ByteAt(text, p);
    if IsSpace(c) then At(m.(state := Value, bp := Span(text, p + 1, IsSpace)))
    else if IsEol(c) then At(m.(state := Close, bp := p))
    else if c == '"' then
      var q := QuoteStop(text, p + 1);
      if q > |text| then Lost
      else if q == |text| then At(m.(state := Global, bp := q, ok := false))
      else CloseStep(text, m, q + 1, Some((p + 1, q)))
    else
      var q := if p == |text| then p else Span(text, p + 1, IsBare);
      CloseStep(text, m, q, Some((p, q)))
  }

  /** Looking for the equals sign, at `p`. */
  function AssignStep(text: string, m: Machine, p: nat): Outcome
    requires m.start <= m.end <= |text| && p <= |text|
  {
    var c := ByteAt(text, p);
    if IsSpace(c) then At(m.(state := Assign, bp := Span(text, p + 1, IsSpace)))
    else if c == '=' then ValueStep(text, m, Span(text, p + 1, IsSpace))
    else if c == '#' then At(m.(state := Global, bp := Span(text, p + 1, NotEol), ok := false))
    else if IsEol(c) then At(m.(state := Global, bp := PastEol(text, p), ok := false))
    else At(m.(state := Assign, bp := p + 1, ok := false))
  }

  /** Reading a name at `p`; behind the NUL there is nothing to look at any more. */
  function NameStep(text: string, m: Machine, p: nat): Outcome
    requires p <= |text|
  {
    if p == |text| then Lost
    else
      var end := Span(text, p + 1, IsName);
      AssignStep(text, m.(start := p, end := end), end)
  }

  /** One iteration of the main loop. */
  function Next(text: string, m: Machine): Outcome
    requires m.bp < |text| && Holds(text, m)
  {
    var bp := if text[m.bp] == '#' then Span(text, m.bp + 1, NotEol) else m.bp;
    match m.state
    case Global =>
      if bp < |text| && (IsEol(text[bp]) || IsSpace(text[bp])) then At(m.(bp := PastEol(text, bp)))
      else NameStep(text, m, bp)
    case Name => NameStep(text, m, bp)
    case Assign => AssignStep(text, m, bp)
    case Value => ValueStep(text, m, bp)
    case Close => CloseStep(text, m, bp, None)
  }

  /** The states in which an iteration only changes the state come later. */
  function Rank(m: Machine): nat { if m.state == Value then 1 else 0 }

  /** Every iteration strictly advances the cursor, to one past the NUL at the furthest, except that
      the one that reads values may only change the state. */
  lemma NextAdvances(text: string, m: Machine)
    requires m.bp < |text| && Holds(text, m)
    ensures Next(text, m).At? ==>
              var n := Next(text, m).m;
              Holds(text, n) && n.bp <= |text| + 1 && (m.bp < n.bp || (m.bp == n.bp && Rank(n) < Rank(m)))
  {
    hide AssignStep, ValueStep, CloseStep, Span, PastEol;
    var bp := if text[m.bp] == '#' then Span(text, m.bp + 1, NotEol) else m.bp;
    if bp < |text| && (m.state == Global || m.state == Name) {
      var end := Span(text, bp + 1, IsName);
      AssignAdvances(text, m.(start := bp, end := end), end);
    } else if m.state == Assign {
      AssignAdvances(text, m, bp);
    } else if m.state == Value {
      ValueAdvances(text, m, bp);
    } else if m.state == Close {
      CloseAdvances(text, m, bp, None);
    }
  }

  lemma CloseAdvances(text: string, m: Machine, p: nat, value: Option<(nat, nat)>)
    requires m.start <= m.end <= |text| && p <= |text|
    requires value.Some? ==> value.value.0 <= value.value.1 <= |text|
    ensures var o := CloseStep(text, m, p, value);
            o.At? ==> o.m.state == Global && p <= o.m.bp <= |text| && (p < |text| ==> p < o.m.bp)
  {
  }

  lemma ValueAdvances(text: string, m: Machine, p: nat)
    requires m.start < m.end <= |text| && p <= |text|
    ensures var o := ValueStep(text, m, p);
            o.At? ==> Holds(text, o.m) && p <= o.m.bp <= |text| && (p == o.m.bp < |text| ==> o.m.state == Close)
  {
    hide CloseStep;
    var q := QuoteStop(text, p + 1);
    if ByteAt(text, p) == '"' && q < |text| { CloseAdvances(text, m, q + 1, Some((p + 1, q))); }
    var e := if p == |text| then p else Span(text, p + 1, IsBare);
    CloseAdvances(text, m, e, Some((p, e)));
  }

  lemma AssignAdvances(text: string, m: Machine, p: nat)
    requires m.start < m.end <= |text| && p <= |text|
    ensures var o := AssignStep(text, m, p); o.At? ==> p < o.m.bp <= |text| + 1 && Holds(text, o.m)
  {
    hide ValueStep;
    if ByteAt(text, p) == '=' {
      ValueAdvances(text, m, Span(text, p + 1, IsSpace));
    }
  }

  predicate Reading(state: State) { state == Name || state == Value }

  /** The blanks behind an equals sign are skipped before a value is looked at. */
  lemma AssignIsWithin(text: string, m: Machine, p: nat)
    requires m.start <= m.end <= |text| && p <= |text| && !Reading(m.state)
    ensures AssignStep(text, m, p).At? ==> !Reading(AssignStep(text, m, p).m.state)
  {
    hide QuoteStop, Store;
  }

  /** The states that read a name and a value are entered and left within one iteration. */
  lemma ReadingIsWithin(text: string, m: Machine)
    requires m.bp < |text| && Holds(text, m) && !Reading(m.state)
    ensures Next(text, m).At? ==> !Reading(Next(text, m).m.state)
  {
    hide AssignStep, Store;
    var bp := if text[m.bp] == '#' then Span(text, m.bp + 1, NotEol) else m.bp;
    if m.state == Assign {
      AssignIsWithin(text, m, bp);
    } else if m.state == Global && bp < |text| {
      var end := Span(text, bp + 1, IsName);
      AssignIsWithin(text, m.(start := bp, end := end), end);
    }
  }

  /** The parser's return value and the items it leaves. */
  datatype Verdict = Undefined | Done(ok: bool, items: seq<Item>)

  function Run(text: string, m: Machine): Verdict
    requires Holds(text, m)
    decreases |text| + 1 - m.bp, Rank(m)
  {
    if m.bp >= |text| then
      var ok := m.ok && m.state == Global;
      Done(ok, if ok then m.items else [])
    else
      NextAdvances(text, m);
      match Next(text, m)
      case Lost => Undefined
      case At(m') => Run(text, m')
  }

  function Start(items: seq<Item>): Machine { Machine(Global, 0, true, 0, 0, items) }

  function Parse(text: string): Verdict { Run(text, Start([])) }

  /** The variables after `n` iterations, if the run gets that far. */
  function Iterated(text: string, m: Machine, n: nat): Option<Machine>
    requires Holds(text, m)
    decreases n
  {
    if n == 0 then Some(m)
    else if m.bp >= |text| then None
    else
      NextAdvances(text, m);
      match Next(text, m)
      case Lost => None
      case At(m') => Iterated(text, m', n - 1)
  }

  /** Over every run: the states that read names and values are never live at the head of the loop,
      and every iteration strictly advances the cursor, so there are at most `|text| + 1`. */
  lemma ReadingNeverLive(text: string, items: seq<Item>, n: nat)
    ensures var r := Iterated(text, Start(items), n);
            r.Some? ==> !Reading(r.value.state) && n <= r.value.bp <= |text| + 1
  {
    IteratedFrom(text, Start(items), n);
  }

  lemma {:induction false} IteratedFrom(text: string, m: Machine, n: nat)
    requires Holds(text, m) && !Reading(m.state) && m.bp <= |text| + 1
    ensures var r := Iterated(text, m, n);
            r.Some? ==> !Reading(r.value.state) && m.bp + n <= r.value.bp <= |text| + 1
    decreases n
  {
    hide Next;
    if n != 0 && m.bp < |text| {
      NextAdvances(text, m);
      ReadingIsWithin(text, m);
      if Next(text, m).At? { IteratedFrom(text, Next(text, m).m, n - 1); }
    }
  }

  // ---------- the program ----------

  /** The reading macros: one character whatever it is, then all that follow in `f`. */
  method ReadWhile(text: string, p: nat, f: char -> bool) returns (bp: nat)
    requires p < |text|
    ensures bp == Span(text, p + 1, f)
  {
    bp := p + 1;
    while bp < |text| && f(text[bp])
      invariant p < bp <= |text| && Span(text, p + 1, f) == Span(text, bp, f)
    {
      bp := bp + 1;
    }
  }

  method ReadQuoted(text: string, p: nat) returns (bp: nat)
    requires p < |text|
    ensures bp == QuoteStop(text, p + 1)
  {
    bp := p + 1;
    while bp < |text| && text[bp] != '"'
      invariant p < bp <= |text| + 1 && QuoteStop(text, p + 1) == QuoteStop(text, bp)
      decreases |text| + 1 - bp
    {
      if text[bp] == '\\' {
        if ByteAt(text, bp + 1) == '"' { bp := bp + 1; }
      } else if IsEol(text[bp]) {
        bp := PastEol(text, bp);
      }
      bp := bp + 1;
    }
  }

  /** A bare value; it may be empty at the end of the text only. */
  method ReadBare(text: string, p: nat) returns (bp: nat)
    requires p <= |text|
    ensures bp == if p == |text| then p else Span(text, p + 1, IsBare)
  {
    bp := p;
    while bp < |text| && (bp == p || IsBare(text[bp]))
      invariant p <= bp <= |text|
      invariant p < bp ==> Span(text, p + 1, IsBare) == Span(text, bp, IsBare)
    {
      bp := bp + 1;
    }
  }

  /** What a part of an iteration has come to; undefined when there is no status. */
  ghost function After(m: Machine, state: State, bp: nat, status: Option<bool>, items: seq<Item>): Outcome {
    match status
    case None => Lost
    case Some(ok) => At(m.(state := state, bp := bp, ok := ok, items := items))
  }

  /** Closing an assignment: the rest of the line must be empty, and the item is stored if nothing
      has been wrong so far. Undefined when there is no value and the name is not taken. */
  method CloseAssignment(text: string, conf: Conf, ghost m: Machine, p: nat, value: Option<(nat, nat)>,
                         ok: bool, start: nat, end: nat)
    returns (bp: nat, status: Option<bool>)
    requires conf.Valid() && m == Machine(m.state, m.bp, ok, start, end, conf.items)
    requires start <= end <= |text| && p <= |text|
    requires value.Some? ==> value.value.0 <= value.value.1 <= |text|
    modifies conf
    ensures conf.Valid()
    ensures CloseStep(text, m, p, value) == After(m, Global, bp, status, conf.items)
  {
    hide Added, Span;
    bp, status := p, Some(ok);
    if p < |text| {
      if IsEol(text[p]) {
        bp := PastEol(text, p);
      } else {
        bp := ReadWhile(text, p, NotEol);
        status := Some(false);
      }
    }
    if status.value {
      if value == None {
        var taken := conf.Has(text[start..]);
        if !taken { return bp, None; }
      } else {
        var vs, ve := value.value.0, value.value.1;
        var added := conf.Add(text[start..], end - start + 1, text[vs..], ve - vs + 1, true);
      }
    }
  }

  method ReadValue(text: string, conf: Conf, ghost m: Machine, p: nat, ok: bool, start: nat, end: nat)
    returns (state: State, bp: nat, status: Option<bool>)
    requires conf.Valid() && m == Machine(m.state, m.bp, ok, start, end, conf.items)
    requires start <= end <= |text| && p <= |text|
    modifies conf
    ensures conf.Valid()
    ensures ValueStep(text, m, p) == After(m, state, bp, status, conf.items)
  {
    var c := ByteAt(text, p);
    if IsSpace(c) {
      bp := ReadWhile(text, p, IsSpace);
      return Value, bp, Some(ok);
    }
    if IsEol(c) { return Close, p, Some(ok); }
    var value: (nat, nat);
    if c == '"' {
      bp := ReadQuoted(text, p);
      if bp > |text| { return Global, bp, None; }
      if bp == |text| { return Global, bp, Some(false); }
      value, bp := (p + 1, bp), bp + 1;
    } else {
      bp := ReadBare(text, p);
      value := (p, bp);
    }
    state := Global;
    bp, status := CloseAssignment(text, conf, m, bp, Some(value), ok, start, end);
  }

  method ReadAssignment(text: string, conf: Conf, ghost m: Machine, p: nat, ok: bool, start: nat, end: nat)
    returns (state: State, bp: nat, status: Option<bool>)
    requires conf.Valid() && m == Machine(m.state, m.bp, ok, start, end, conf.items)
    requires start <= end <= |text| && p <= |text|
    modifies conf
    ensures conf.Valid()
    ensures AssignStep(text, m, p) == After(m, state, bp, status, conf.items)
  {
    var c := ByteAt(text, p);
    state, bp, status := Global, p, Some(false);
    if IsSpace(c) {
      bp := ReadWhile(text, p, IsSpace);
      state, status := Assign, Some(ok);
    } else if c == '=' {
      bp := ReadWhile(text, p, IsSpace);
      state, bp, status := ReadValue(text, conf, m, bp, ok, start, end);
    } else if c == '#' {
      bp := ReadWhile(text, p, NotEol);
    } else if IsEol(c) {
      bp := PastEol(text, p);
    } else {
      state, bp := Assign, p + 1;
    }
  }

  /** The body of the main loop. */
  method Iterate(text: string, conf: Conf, ghost m: Machine, state0: State, p: nat, ok: bool, start0: nat, end0: nat)
    returns (state: State, bp: nat, status: Option<bool>, start: nat, end: nat)
    requires conf.Valid() && m == Machine(state0, p, ok, start0, end0, conf.items)
    requires p < |text| && Holds(text, m)
    modifies conf
    ensures conf.Valid()
    ensures Next(text, m) == After(m.(start := start, end := end), state, bp, status, conf.items)
  {
    hide AssignStep, ValueStep, CloseStep, Span, PastEol;
    bp, start, end := p, start0, end0;
    if text[p] == '#' { bp := ReadWhile(text, p, NotEol); }
    if state0 == Global && bp < |text| && (IsEol(text[bp]) || IsSpace(text[bp])) {
      bp := PastEol(text, bp);
      return Global, bp, Some(ok), start, end;
    }
    if state0 == Global || state0 == Name {
      // otherwise the name would be looked for behind the NUL
      if bp == |text| { return state0, bp, None, start, end; }
      start := bp;
      bp := ReadWhile(text, bp, IsName);
      end := bp;
      state, bp, status := ReadAssignment(text, conf, m.(start := start, end := end), bp, ok, start, end);
    } else if state0 == Assign {
      state, bp, status := ReadAssignment(text, conf, m, bp, ok, start, end);
    } else if state0 == Value {
      state, bp, status := ReadValue(text, conf, m, bp, ok, start, end);
    } else {
      state := Global;
      bp, status := CloseAssignment(text, conf, m, bp, None, ok, start, end);
    }
  }

  /** The parser. On failure the configuration is left empty. */
  method FileRead(text: string, conf: Conf) returns (status: Option<bool>)
    requires conf.Valid()
    modifies conf
    ensures match Run(text, Start(old(conf.items)))
            case Undefined => status == None
            case Done(ok, items) => status == Some(ok) && conf.Valid() && conf.items == items
  {
    hide Next, Run;
    status := Some(true);
    var state, bp: nat, start: nat, end: nat := Global, 0, 0, 0;
    ghost var m := Start(conf.items);
    while bp < |text| && status.Some?
      invariant conf.Valid()
      invariant status.Some? ==> m == Machine(state, bp, status.value, start, end, conf.items) && Holds(text, m)
      invariant Run(text, Start(old(conf.items))) == if status.Some? then Run(text, m) else Undefined
      decreases status.Some?, |text| + 1 - bp, Rank(m)
    {
      ghost var next := Next(text, m);
      NextAdvances(text, m);
      RunUnfolds(text, m);
      state, bp, status, start, end := Iterate(text, conf, m, state, bp, status.value, start, end);
      if next.At? { m := next.m; }
    }
    if status == None { return; }
    RunEnds(text, m);
    if state != Global { status := Some(false); }
    if !status.value { var freed := conf.Clear(); }
  }

  lemma RunUnfolds(text: string, m: Machine)
    requires m.bp < |text| && Holds(text, m)
    ensures Next(text, m).At? ==> Holds(text, Next(text, m).m)
    ensures Run(text, m) == match Next(text, m) case Lost => Undefined case At(m') => Run(text, m')
  {
    NextAdvances(text, m);
  }

  lemma RunEnds(text: string, m: Machine)
    requires m.bp >= |text| && Holds(text, m)
    ensures Run(text, m) == Done(m.ok && m.state == Global, if m.ok && m.state == Global then m.items else [])
  {
  }

  /** A parser that fails leaves no items. */
  lemma {:induction false} FailureIsEmpty(text: string, m: Machine)
    requires Holds(text, m)
    ensures Run(text, m).Done? && !Run(text, m).ok ==> Run(text, m).items == []
    decreases |text| + 1 - m.bp, Rank(m)
  {
    hide Next;
    if m.bp < |text| {
      RunUnfolds(text, m);
      NextAdvances(text, m);
      if Next(text, m).At? { FailureIsEmpty(text, Next(text, m).m); }
    }
  }
}
