/**
  Where the configuration parser is defined: an exact condition on the text, and a simple one that
  is enough.
 */
module ConfDefined {
  import opened Wrappers
  import opened ConfItems
  import opened ConfParser
  import opened ConfDocument

  // ---------- the condition ----------

  /** Characters that a search for an equals sign passes. */
  predicate NotMark(c: char) { c != '=' && c != '#' && !IsEol(c) }

  /** The lines from `p` on make the program read where it must not; `ok` tells whether nothing has
      been wrong before, and `taken` whether an assignment has been stored whose name starts with
      NUL. A line does so in three ways: it is a comment that nothing ends; or it has an equals sign
      but no value, nothing has been wrong, and it is not refused first as one more name that starts
      with NUL; or the scan of its quoted value passes the end of the text. */
  predicate Breaks(text: string, p: nat, ok: bool, taken: bool)
    requires p <= |text|
    decreases |text| - p, 2
  {
    if p == |text| then false
    else if text[p] == '#' then
      var e := Span(text, p + 1, NotEol);
      e == |text| || Breaks(text, PastEol(text, e), ok, taken)
    else if IsEol(text[p]) || IsSpace(text[p]) then Breaks(text, PastEol(text, p), ok, taken)
    else NameBreaks(text, Span(text, p + 1, IsName), ok, taken, text[p] == '\0')
  }

  /** The same from the end of a name; `nul` tells whether it starts with NUL. Only blanks belong
      before an equals sign. */
  predicate NameBreaks(text: string, p: nat, ok: bool, taken: bool, nul: bool)
    requires p <= |text|
    decreases |text| - p, 3
  {
    var e := Span(text, p, NotMark);
    if e < |text| && text[e] == '=' then
      ValueBreaks(text, Span(text, e + 1, IsSpace), ok && Span(text, p, IsSpace) == e, taken, nul)
    else RestBreaks(text, e, false, taken, nul)
  }

  /** The same from the first character behind an equals sign and blanks. */
  predicate ValueBreaks(text: string, p: nat, ok: bool, taken: bool, nul: bool)
    requires p <= |text|
    decreases |text| - p, 3
  {
    if p == |text| then false
    else if IsEol(text[p]) then (ok && !(taken && nul)) || Breaks(text, PastEol(text, p), ok, taken)
    else if text[p] == '"' then
      var q := QuoteStop(text, p + 1);
      q > |text| || (q < |text| && RestBreaks(text, q + 1, ok, taken, nul))
    else RestBreaks(text, Span(text, p + 1, IsBare), ok, taken, nul)
  }

  /** The same from where the line should end. */
  predicate RestBreaks(text: string, p: nat, ok: bool, taken: bool, nul: bool)
    requires p <= |text|
    decreases |text| - p, 1
  {
    var e := Span(text, p, NotEol);
    e < |text| && Breaks(text, PastEol(text, e), ok && e == p, taken || nul)
  }

  // ---------- which names are taken ----------

  /** What the parser stores: a name without NUL, whose characters from the second one on are name
      characters, at least as long in its length as it is. */
  predicate KeptItem(item: Item) {
    && '\0' !in item.name && |item.name| < item.nameLength
    && forall i :: 1 <= i < |item.name| ==> IsName(item.name[i])
  }

  predicate Kept(items: seq<Item>) {
    forall i :: 0 <= i < |items| ==> KeptItem(items[i])
  }

  /** An item with an empty name is there. */
  predicate NoName(items: seq<Item>) {
    exists i :: 0 <= i < |items| && items[i].name == ""
  }

  lemma {:induction false} TerminatedEnds(s: string)
    ensures |Terminated(s)| < |s| ==> s[|Terminated(s)|] == '\0'
  {
    if s != "" && s[0] != '\0' { TerminatedEnds(s[1..]); }
  }

  /** A comparison does not look behind a NUL. */
  lemma {:induction false} SameTerminated(a: string, b: string, i: nat, n: nat)
    requires '\0' !in a && i <= |Terminated(b)|
    ensures Same(a, b, i, n) <==> Same(a, Terminated(b), i, n)
    decreases n
  {
    TerminatedEnds(b);
    if n != 0 && i < |Terminated(b)| { SameTerminated(a, b, i + 1, n - 1); }
  }

  /** The name at the start of `rest` ends at `n`, where neither a name character nor NUL follows. Then
      it is taken exactly if it starts with NUL and an item without a name is there. */
  lemma {:induction false} TakenExactly(items: seq<Item>, rest: string, n: nat)
    requires Kept(items) && 0 < n < |rest| && !IsName(rest[n]) && rest[n] != '\0'
    requires forall i :: 1 <= i < n ==> IsName(rest[i])
    ensures Find(items, rest).Some? <==> rest[0] == '\0' && NoName(items)
  {
    if items != [] {
      var name := items[0].name;
      assert KeptItem(items[0]);
      SameTerminated(name, rest, 0, items[0].nameLength);
      SameMeansEqual(name, Terminated(rest), 0, items[0].nameLength);
      TakenOnlyEmpty(name, rest, n);
      TakenExactly(items[1..], rest, n);
      NoNameSplit(items);
    }
  }

  lemma TakenOnlyEmpty(name: string, rest: string, n: nat)
    requires 0 < n < |rest| && !IsName(rest[n]) && rest[n] != '\0' && forall i :: 1 <= i < n ==> IsName(rest[i])
    requires forall i :: 1 <= i < |name| ==> IsName(name[i])
    ensures name == Terminated(rest) <==> rest[0] == '\0' && name == ""
  {
    TerminatedEnds(rest);
    if rest[0] != '\0' {
      assert forall k :: 0 <= k <= n ==> rest[k] != '\0';
      assert n < |Terminated(rest)| && Terminated(rest)[n] == rest[n];
    }
  }

  lemma NoNameSplit(items: seq<Item>)
    requires items != []
    ensures NoName(items) <==> items[0].name == "" || NoName(items[1..])
  {
    if NoName(items[1..]) {
      var i :| 0 <= i < |items[1..]| && items[1..][i].name == "";
      assert items[i + 1].name == "";
    }
  }

  lemma StoreKeeps(text: string, items: seq<Item>, start: nat, end: nat, value: (nat, nat))
    requires Kept(items) && start < end <= |text| && value.0 <= value.1 <= |text|
    requires forall i :: start < i < end ==> IsName(text[i])
    requires Find(items, text[start..]).Some? <==> text[start] == '\0' && NoName(items)
    ensures var r := Store(text, items, start, end, value);
            Kept(r) && (NoName(r) <==> NoName(items) || text[start] == '\0')
  {
    hide NoName, Find;
    var name := text[start..][..end - start];
    assert name == text[start..end];
    var r := Store(text, items, start, end, value);
    if Find(items, text[start..]).None? { NoNameSplit(r); }
  }

  // ---------- the condition is exact ----------

  /** While nothing has been wrong, the items are the parser's, and `taken` is about them. */
  predicate Agrees(m: Machine, taken: bool) {
    m.ok ==> Kept(m.items) && (taken <==> NoName(m.items))
  }

  /** A name has been read; `nul` tells whether it starts with NUL. */
  predicate Named(text: string, m: Machine, nul: bool) {
    && m.start < m.end <= |text| && (nul <==> text[m.start] == '\0')
    && forall i :: m.start < i < m.end ==> IsName(text[i])
  }

  /** While nothing has been wrong, only blanks stand between the name and `p`. */
  predicate BlankTo(text: string, m: Machine, p: nat)
    requires m.end <= |text|
  {
    m.end <= p <= |text| && (m.ok && m.end < p ==> IsSpace(text[m.end]))
  }

  /** While nothing has been wrong, the name ends at a blank or an equals sign. */
  predicate Shut(text: string, m: Machine) {
    m.ok ==> m.end < |text| && (IsSpace(text[m.end]) || text[m.end] == '=')
  }

  /** Whether the name is taken when its assignment ends. */
  lemma TakenAtEnd(text: string, m: Machine, taken: bool, nul: bool)
    requires m.ok && Agrees(m, taken) && Named(text, m, nul) && Shut(text, m)
    ensures Find(m.items, text[m.start..]).Some? <==> taken && nul
  {
    hide Kept, NoName, Find;
    var rest, n := text[m.start..], m.end - m.start;
    assert rest[n] == text[m.end];
    assert forall i :: 1 <= i < n ==> rest[i] == text[m.start + i];
    TakenExactly(m.items, rest, n);
  }

  /** A step from which the run goes on to read where it must not, or does so itself. */
  predicate Fails(text: string, o: Outcome) {
    o.Lost? || (Holds(text, o.m) && Run(text, o.m).Undefined?)
  }

  lemma FailsNext(text: string, m: Machine)
    requires m.bp < |text| && Holds(text, m)
    ensures Run(text, m).Undefined? <==> Fails(text, Next(text, m))
  {
    RunUnfolds(text, m);
  }

  lemma RunOver(text: string, m: Machine)
    requires m.bp >= |text| && Holds(text, m)
    ensures !Run(text, m).Undefined?
  {
  }

  lemma {:induction false} FromGlobal(text: string, m: Machine, taken: bool)
    requires m.state == Global && m.bp <= |text| && Agrees(m, taken)
    ensures Run(text, m).Undefined? <==> Breaks(text, m.bp, m.ok, taken)
    decreases |text| - m.bp, 4
  {
    hide Run, AssignStep, NameBreaks, Kept, NoName, Next, Breaks, Fails, Span, PastEol;
    if m.bp == |text| {
      RunOver(text, m);
      NothingBreaks(text, m.ok, taken);
    } else {
      FailsNext(text, m);
      GlobalNext(text, m);
      GlobalBreaks(text, m.bp, m.ok, taken);
      var p := if text[m.bp] == '#' then Span(text, m.bp + 1, NotEol) else m.bp;
      if p == |text| {
        FailsLost(text);
      } else if IsEol(text[p]) || IsSpace(text[p]) {
        FromGlobal(text, m.(bp := PastEol(text, p)), taken);
        FailsAt(text, m.(bp := PastEol(text, p)));
      } else {
        var end := Span(text, p + 1, IsName);
        FromName(text, m.(start := p, end := end), end, taken, text[p] == '\0');
      }
    }
  }

  lemma NothingBreaks(text: string, ok: bool, taken: bool)
    ensures !Breaks(text, |text|, ok, taken)
  {
  }

  /** One step from the start of a line, or from a blank there. */
  lemma GlobalNext(text: string, m: Machine)
    requires m.state == Global && m.bp < |text|
    ensures var p := if text[m.bp] == '#' then Span(text, m.bp + 1, NotEol) else m.bp;
            Next(text, m) ==
              if p == |text| then Lost
              else if IsEol(text[p]) || IsSpace(text[p]) then At(m.(bp := PastEol(text, p)))
              else
                var end := Span(text, p + 1, IsName);
                AssignStep(text, m.(start := p, end := end), end)
  {
    hide AssignStep, PastEol;
  }

  lemma GlobalBreaks(text: string, q: nat, ok: bool, taken: bool)
    requires q < |text|
    ensures var p := if text[q] == '#' then Span(text, q + 1, NotEol) else q;
            Breaks(text, q, ok, taken) <==>
              if p == |text| then true
              else if IsEol(text[p]) || IsSpace(text[p]) then Breaks(text, PastEol(text, p), ok, taken)
              else NameBreaks(text, Span(text, p + 1, IsName), ok, taken, text[p] == '\0')
  {
    hide NameBreaks, PastEol;
  }

  lemma {:induction false} SpanFrom(text: string, p: nat, q: nat, f: char -> bool)
    requires p <= q <= |text| && forall i :: p <= i < q ==> f(text[i])
    ensures Span(text, p, f) == Span(text, q, f)
    decreases q - p
  {
    if p < q { SpanFrom(text, p + 1, q, f); }
  }

  lemma NameOverBlanks(text: string, p: nat, ok: bool, taken: bool, nul: bool)
    requires p < |text| && IsSpace(text[p])
    ensures NameBreaks(text, p, ok, taken, nul) == NameBreaks(text, Span(text, p + 1, IsSpace), ok, taken, nul)
  {
    hide ValueBreaks, RestBreaks, Span;
    var q := Span(text, p + 1, IsSpace);
    BlanksAreNoMarks(text, p, q);
    SpanFrom(text, p, q, NotMark);
    SpanFrom(text, p, q, IsSpace);
  }

  lemma BlanksAreNoMarks(text: string, p: nat, q: nat)
    requires p < q <= |text| && IsSpace(text[p]) && forall i :: p + 1 <= i < q ==> IsSpace(text[i])
    ensures forall i :: p <= i < q ==> IsSpace(text[i]) && NotMark(text[i])
  {
  }

  lemma NameOverOther(text: string, p: nat, ok: bool, taken: bool, nul: bool)
    requires p < |text| && NotMark(text[p]) && !IsSpace(text[p])
    ensures NameBreaks(text, p, ok, taken, nul) == NameBreaks(text, p + 1, false, taken, nul)
  {
    hide ValueBreaks, RestBreaks;
    SpanFrom(text, p, p + 1, NotMark);
  }

  /** The state that looks for an equals sign, from the end of a name on. */
  lemma {:induction false} FromName(text: string, m: Machine, p: nat, taken: bool, nul: bool)
    requires Agrees(m, taken) && Named(text, m, nul) && BlankTo(text, m, p)
    ensures Fails(text, AssignStep(text, m, p)) <==> NameBreaks(text, p, m.ok, taken, nul)
    decreases |text| - p, 2
  {
    hide Run, ValueStep, ValueBreaks, RestBreaks, Breaks, Fails, NameBreaks, Kept, NoName;
    if p == |text| {
      OverTheEnd(text, m, p, taken, nul);
    } else if IsSpace(text[p]) {
      NameOverBlanks(text, p, m.ok, taken, nul);
      var q := Span(text, p + 1, IsSpace);
      FromAssign(text, m.(state := State.Assign, bp := q), taken, nul);
      FailsAt(text, m.(state := State.Assign, bp := q));
    } else if text[p] == '=' {
      NameAtEquals(text, p, m.ok, taken, nul);
      FromValue(text, m, Span(text, p + 1, IsSpace), taken, nul);
    } else if NotMark(text[p]) {
      NameOverOther(text, p, m.ok, taken, nul);
      FromAssign(text, m.(state := State.Assign, bp := p + 1, ok := false), taken, nul);
      FailsAt(text, m.(state := State.Assign, bp := p + 1, ok := false));
    } else {
      NoEquals(text, m, p, taken, nul);
    }
  }

  lemma FailsAt(text: string, m: Machine)
    requires Holds(text, m)
    ensures Fails(text, At(m)) <==> Run(text, m).Undefined?
  {
  }

  lemma OverTheEnd(text: string, m: Machine, p: nat, taken: bool, nul: bool)
    requires m.start < m.end <= |text| && p == |text|
    ensures !Fails(text, AssignStep(text, m, p)) && !NameBreaks(text, p, m.ok, taken, nul)
  {
  }

  lemma NameAtEquals(text: string, p: nat, ok: bool, taken: bool, nul: bool)
    requires p < |text| && text[p] == '='
    ensures NameBreaks(text, p, ok, taken, nul) == ValueBreaks(text, Span(text, p + 1, IsSpace), ok, taken, nul)
  {
    hide ValueBreaks, RestBreaks;
  }

  /** The same at the head of the loop, where a comment is skipped first. */
  lemma {:induction false} FromAssign(text: string, m: Machine, taken: bool, nul: bool)
    requires Agrees(m, taken) && Named(text, m, nul) && m.end < m.bp && BlankTo(text, m, m.bp)
    requires m.state == State.Assign
    ensures Run(text, m).Undefined? <==> NameBreaks(text, m.bp, m.ok, taken, nul)
    decreases |text| - m.bp, 3
  {
    hide Run, AssignStep, ValueBreaks, RestBreaks, NameBreaks, Fails, Kept, NoName;
    if m.bp == |text| {
      RunOver(text, m);
      OverTheEnd(text, m, m.bp, taken, nul);
    } else {
      FailsNext(text, m);
      if text[m.bp] == '#' {
        var e := Span(text, m.bp + 1, NotEol);
        FromName(text, m, e, taken, nul);
        NameAtComment(text, m.bp, e, m.ok, taken, nul);
      } else {
        FromName(text, m, m.bp, taken, nul);
      }
    }
  }

  lemma NameAtComment(text: string, p: nat, e: nat, ok: bool, taken: bool, nul: bool)
    requires p < |text| && text[p] == '#' && e == Span(text, p + 1, NotEol)
    ensures NameBreaks(text, p, ok, taken, nul) == NameBreaks(text, e, ok, taken, nul)
         == RestBreaks(text, p, false, taken, nul)
  {
    SpanFrom(text, p, e, NotEol);
  }

  /** The line has a comment or an end where an equals sign is looked for. */
  lemma {:induction false} NoEquals(text: string, m: Machine, p: nat, taken: bool, nul: bool)
    requires m.start < m.end <= |text| && p < |text| && (text[p] == '#' || IsEol(text[p]))
    ensures Fails(text, AssignStep(text, m, p)) <==> NameBreaks(text, p, m.ok, taken, nul)
    decreases |text| - p, 1
  {
    hide Run, ValueStep, ValueBreaks, Fails;
    if IsEol(text[p]) {
      var m' := m.(state := Global, bp := PastEol(text, p), ok := false);
      FromGlobal(text, m', taken || nul);
      FailsAt(text, m');
    } else {
      var e := Span(text, p + 1, NotEol);
      var m' := m.(state := Global, bp := e, ok := false);
      NameAtComment(text, p, e, m.ok, taken, nul);
      SpanFrom(text, p, e, NotEol);
      FromGlobal(text, m', taken || nul);
      FailsAt(text, m');
    }
  }

  lemma {:induction false} FromValue(text: string, m: Machine, p: nat, taken: bool, nul: bool)
    requires Agrees(m, taken) && Named(text, m, nul) && Shut(text, m)
    requires p <= |text| && (p < |text| ==> !IsSpace(text[p]))
    ensures Fails(text, ValueStep(text, m, p)) <==> ValueBreaks(text, p, m.ok, taken, nul)
    decreases |text| - p, 1
  {
    hide Run, CloseStep, RestBreaks, Fails, QuoteStop, Agrees, Named, Shut;
    assert m.start < m.end <= |text| by { NamedEnds(text, m, nul); }
    if p == |text| {
      FromClose(text, m, p, (p, p), taken, nul);
      NothingLeft(text, m.ok, taken, nul);
    } else if IsEol(text[p]) {
      FromNoValue(text, m, p, taken, nul);
    } else if text[p] == '"' {
      var q := QuoteStop(text, p + 1);
      if q < |text| {
        FromClose(text, m, q + 1, (p + 1, q), taken, nul);
      } else if q == |text| {
        RunOver(text, m.(state := Global, bp := q, ok := false));
        FailsAt(text, m.(state := Global, bp := q, ok := false));
      } else {
        FailsLost(text);
      }
    } else {
      var q := Span(text, p + 1, IsBare);
      FromClose(text, m, q, (p, q), taken, nul);
    }
  }

  lemma NamedEnds(text: string, m: Machine, nul: bool)
    requires Named(text, m, nul)
    ensures m.start < m.end <= |text|
  {
  }

  lemma FailsLost(text: string)
    ensures Fails(text, Lost)
  {
  }

  lemma NothingLeft(text: string, ok: bool, taken: bool, nul: bool)
    ensures !RestBreaks(text, |text|, ok, taken, nul)
  {
  }

  /** The line ends where a value is looked for. */
  lemma {:induction false} FromNoValue(text: string, m: Machine, p: nat, taken: bool, nul: bool)
    requires Agrees(m, taken) && Named(text, m, nul) && Shut(text, m) && p < |text| && IsEol(text[p])
    ensures Fails(text, ValueStep(text, m, p)) <==> ValueBreaks(text, p, m.ok, taken, nul)
    decreases |text| - p, 0
  {
    hide Run, Breaks, Kept, NoName;
    var m' := m.(state := Close, bp := p);
    FailsNext(text, m');
    if m.ok { TakenAtEnd(text, m, taken, nul); }
    if !m.ok || (taken && nul) {
      FromGlobal(text, m'.(state := Global, bp := PastEol(text, p)), taken);
    }
  }

  lemma {:induction false} FromClose(text: string, m: Machine, p: nat, value: (nat, nat), taken: bool, nul: bool)
    requires Agrees(m, taken) && Named(text, m, nul) && Shut(text, m)
    requires p <= |text| && value.0 <= value.1 <= |text|
    ensures m.end <= |text|
    ensures Fails(text, CloseStep(text, m, p, Some(value))) <==> RestBreaks(text, p, m.ok, taken, nul)
    decreases |text| - p, 0
  {
    hide Run, Store, NameBreaks, Kept, NoName, Breaks;
    var o := CloseStep(text, m, p, Some(value));
    if p == |text| {
      RunOver(text, o.m);
    } else if IsEol(text[p]) {
      if m.ok {
        TakenAtEnd(text, m, taken, nul);
        StoreKeeps(text, m.items, m.start, m.end, value);
      }
      FromGlobal(text, o.m, taken || nul);
    } else {
      SpanFrom(text, p, o.m.bp, NotEol);
      FromGlobal(text, o.m, taken || nul);
      EndsOrBreaks(text, o.m.bp, taken || nul);
    }
  }

  /** At the end of a line. */
  lemma EndsOrBreaks(text: string, p: nat, taken: bool)
    requires p <= |text| && (p < |text| ==> IsEol(text[p]))
    ensures Breaks(text, p, false, taken) <==> p < |text| && Breaks(text, PastEol(text, p), false, taken)
  {
  }

  /** From any items the parser may have stored. */
  lemma UndefinedFrom(text: string, items: seq<Item>)
    requires Kept(items)
    ensures Run(text, Start(items)).Undefined? <==> Breaks(text, 0, true, NoName(items))
  {
    hide Run, Kept, NoName, Breaks;
    FromGlobal(text, Start(items), NoName(items));
  }

  /** For every text, characters NUL included: the parser is undefined exactly if the text has a line
      that breaks, whatever else is wrong or right with it. */
  lemma UndefinedExactly(text: string)
    ensures Parse(text).Undefined? <==> Breaks(text, 0, true, false)
  {
    UndefinedFrom(text, []);
  }

  /** For every text without NUL: it breaks and the parser is undefined; or it is the text of a
      document and its assignments are stored; or the parser fails and the configuration is empty. */
  lemma OneOfThree(text: string)
    requires '\0' !in text
    ensures Breaks(text, 0, true, false) <==> Parse(text).Undefined?
    ensures !Breaks(text, 0, true, false) ==>
              || (exists doc :: WellFormed(doc) && Text(doc) == text && Parse(text) == Done(true, Stored(doc, [])))
              || (Parse(text) == Done(false, []) && forall doc :: WellFormed(doc) ==> Text(doc) != text)
  {
    hide Run, Breaks, WellFormed, Text, Stored;
    UndefinedExactly(text);
    FailureIsEmpty(text, Start([]));
    AcceptsExactlyDocuments(text);
  }

  // ---------- a simple condition that is enough ----------

  /** An opening quote before `p` is closed at `q`: on its line, with no backslash before it. */
  predicate ClosedAt(text: string, p: nat, q: nat) {
    && p <= q < |text| && text[q] == '"' && (q > p ==> text[q - 1] != '\\')
    && forall i :: p <= i < q ==> NotEol(text[i])
  }

  ghost predicate ClosedOnLine(text: string, p: nat) {
    exists q: nat :: ClosedAt(text, p, q)
  }

  /** The equals sign at `k` is followed on its line by a value. */
  ghost predicate HasValue(text: string, k: nat)
    requires k < |text|
  {
    var v := Span(text, k + 1, IsSpace);
    v < |text| && !IsEol(text[v]) && (text[v] == '"' ==> ClosedOnLine(text, v + 1))
  }

  predicate EndsInEol(text: string) { text != "" && IsEol(text[|text| - 1]) }

  /** Texts that end with a line end and whose equals signs all have values, wherever they stand. */
  ghost predicate InDomain(text: string) {
    EndsInEol(text) && forall k :: 0 <= k < |text| && text[k] == '=' ==> HasValue(text, k)
  }

  lemma {:induction false} QuoteFound(text: string, p: nat, k: nat, q: nat)
    requires ClosedAt(text, p, q) && p <= k <= q
    ensures QuoteStop(text, k) <= q
    decreases q - k
  {
    if k < q && text[k] != '"' {
      QuoteFound(text, p, QuoteNext(text, k), q);
    }
  }

  lemma ValueThere(text: string, k: nat)
    requires InDomain(text) && k < |text| && text[k] == '='
    ensures var v := Span(text, k + 1, IsSpace);
            v < |text| && !IsEol(text[v]) && (text[v] == '"' ==> QuoteStop(text, v + 1) < |text|)
  {
    var v := Span(text, k + 1, IsSpace);
    assert HasValue(text, k);
    if text[v] == '"' {
      var q: nat :| ClosedAt(text, v + 1, q);
      QuoteFound(text, v + 1, v + 1, q);
    }
  }

  lemma {:induction false} DomainKeeps(text: string, p: nat, ok: bool, taken: bool)
    requires InDomain(text) && p <= |text|
    ensures !Breaks(text, p, ok, taken)
    decreases |text| - p, 1
  {
    hide InDomain, NameBreaks;
    if p < |text| {
      LastIsEol(text);
      if text[p] == '#' {
        DomainKeeps(text, PastEol(text, Span(text, p + 1, NotEol)), ok, taken);
      } else if IsEol(text[p]) || IsSpace(text[p]) {
        DomainKeeps(text, PastEol(text, p), ok, taken);
      } else {
        DomainKeepsName(text, Span(text, p + 1, IsName), ok, taken, text[p] == '\0');
      }
    }
  }

  lemma {:induction false} DomainKeepsName(text: string, p: nat, ok: bool, taken: bool, nul: bool)
    requires InDomain(text) && p <= |text|
    ensures !NameBreaks(text, p, ok, taken, nul)
    decreases |text| - p, 2
  {
    hide InDomain, QuoteStop, ValueBreaks, RestBreaks;
    var e := Span(text, p, NotMark);
    if e < |text| && text[e] == '=' {
      ValueThere(text, e);
      DomainKeepsValue(text, Span(text, e + 1, IsSpace), ok && Span(text, p, IsSpace) == e, taken, nul);
    } else {
      DomainKeepsRest(text, e, false, taken, nul);
    }
  }

  lemma {:induction false} DomainKeepsValue(text: string, p: nat, ok: bool, taken: bool, nul: bool)
    requires InDomain(text) && p < |text| && !IsEol(text[p])
    requires text[p] == '"' ==> QuoteStop(text, p + 1) < |text|
    ensures !ValueBreaks(text, p, ok, taken, nul)
    decreases |text| - p, 1
  {
    hide InDomain, QuoteStop, RestBreaks;
    var end := if text[p] == '"' then QuoteStop(text, p + 1) + 1 else Span(text, p + 1, IsBare);
    DomainKeepsRest(text, end, ok, taken, nul);
  }

  lemma {:induction false} DomainKeepsRest(text: string, p: nat, ok: bool, taken: bool, nul: bool)
    requires InDomain(text) && p <= |text|
    ensures !RestBreaks(text, p, ok, taken, nul)
    decreases |text| - p, 0
  {
    hide InDomain, NameBreaks;
    var e := Span(text, p, NotEol);
    if e < |text| { DomainKeeps(text, PastEol(text, e), ok && e == p, taken || nul); }
  }

  lemma LastIsEol(text: string)
    requires InDomain(text)
    ensures EndsInEol(text)
  {
  }

  /** On that domain the parser is defined, syntax errors included. */
  lemma DefinedOnDomain(text: string)
    requires InDomain(text)
    ensures Parse(text).Done?
  {
    hide InDomain, Breaks, Run;
    DomainKeeps(text, 0, true, false);
    UndefinedExactly(text);
  }

  // ---------- the cursor ----------

  lemma AssignWithin(text: string, m: Machine, p: nat)
    requires EndsInEol(text) && m.start <= m.end <= |text| && p < |text|
    ensures AssignStep(text, m, p).At? ==> AssignStep(text, m, p).m.bp <= |text|
  {
    hide QuoteStop, Store;
  }

  lemma StepWithin(text: string, m: Machine)
    requires EndsInEol(text) && Holds(text, m) && m.bp < |text| && !Reading(m.state)
    ensures Next(text, m).At? ==> Next(text, m).m.bp <= |text|
  {
    hide AssignStep, Store;
    var p := if text[m.bp] == '#' then Span(text, m.bp + 1, NotEol) else m.bp;
    assert IsEol(text[|text| - 1]);
    if m.state == State.Assign {
      AssignWithin(text, m, p);
    } else if m.state == Global && !IsEol(text[p]) && !IsSpace(text[p]) {
      var end := Span(text, p + 1, IsName);
      AssignWithin(text, m.(start := p, end := end), end);
    }
  }

  lemma {:induction false} IteratedWithin(text: string, m: Machine, n: nat)
    requires EndsInEol(text) && Holds(text, m) && m.bp <= |text| && !Reading(m.state)
    ensures var r := Iterated(text, m, n); r.Some? ==> r.value.bp <= |text|
    decreases n
  {
    hide Next;
    if n != 0 && m.bp < |text| {
      NextAdvances(text, m);
      ReadingIsWithin(text, m);
      StepWithin(text, m);
      if Next(text, m).At? { IteratedWithin(text, Next(text, m).m, n - 1); }
    }
  }

  /** Where a run has come to, it goes on. */
  lemma {:induction false} IteratedRuns(text: string, m: Machine, n: nat)
    requires Holds(text, m)
    ensures var r := Iterated(text, m, n); r.Some? ==> Holds(text, r.value) && Run(text, r.value) == Run(text, m)
    decreases n
  {
    hide Next, Run;
    if n != 0 && m.bp < |text| {
      RunUnfolds(text, m);
      if Next(text, m).At? { IteratedRuns(text, Next(text, m).m, n - 1); }
    }
  }

  /** Over every run on a text that does not break, every iteration can be made: none reads where it
      must not, and the cursor gets at most one past the NUL, and never past it if the text ends in
      a line end. */
  lemma CursorStaysWithin(text: string, items: seq<Item>, n: nat)
    requires Kept(items) && !Breaks(text, 0, true, NoName(items))
    ensures var r := Iterated(text, Start(items), n);
            r.Some? ==>
              && r.value.bp <= (if EndsInEol(text) then |text| else |text| + 1)
              && (r.value.bp < |text| ==> Holds(text, r.value) && Next(text, r.value).At?)
  {
    hide Next, Run, Breaks, Kept, NoName;
    UndefinedFrom(text, items);
    ReadingNeverLive(text, items, n);
    if EndsInEol(text) { IteratedWithin(text, Start(items), n); }
    var r := Iterated(text, Start(items), n);
    IteratedRuns(text, Start(items), n);
    if r.Some? && r.value.bp < |text| { RunUnfolds(text, r.value); }
  }

  /** So it is on the simple domain. */
  lemma CursorOnDomain(text: string, n: nat)
    requires InDomain(text)
    ensures var r := Iterated(text, Start([]), n);
            r.Some? ==>
              r.value.bp <= |text| && (r.value.bp < |text| ==> Holds(text, r.value) && Next(text, r.value).At?)
  {
    hide Next, Run, Breaks, InDomain;
    DomainKeeps(text, 0, true, false);
    LastIsEol(text);
    CursorStaysWithin(text, [], n);
  }

  // ---------- examples ----------

  /** One text for each way to read where the program must not. */
  lemma ThreeWays()
    ensures Parse("#").Undefined? && Parse("a=\n").Undefined? && Parse("a=\"\n").Undefined?
  {
    hide Run;
    UndefinedExactly("#");
    UndefinedExactly("a=\n");
    UndefinedExactly("a=\"\n");
  }

  /** An equals sign without a value does no harm once something has been wrong. */
  lemma HarmlessAfterError()
    ensures Parse("a b=\n").Done?
  {
    hide Run;
    UndefinedExactly("a b=\n");
  }

  /** Nor when the name starts with NUL and one such has been stored: it is refused as taken, and the
      text is accepted with the first value. */
  lemma HarmlessWhenTaken()
    ensures Parse("\0=\n").Undefined? && Parse("\0=x\n\0=\n") == Done(true, [Item("", 2, "x", 2)])
  {
    hide Run, Next;
    UndefinedExactly("\0=\n");
    var t, items := "\0=x\n\0=\n", [Item("", 2, "x", 2)];
    FirstStored(t);
    SecondRead(t, items);
    SecondTaken(t, items);
    RunUnfolds(t, Start([]));
    RunUnfolds(t, Machine(Global, 4, true, 0, 1, items));
    RunUnfolds(t, Machine(Close, 6, true, 4, 5, items));
    RunEnds(t, Machine(Global, 7, true, 4, 5, items));
  }

  lemma FirstStored(t: string)
    requires t == "\0=x\n\0=\n"
    ensures Next(t, Start([])) == At(Machine(Global, 4, true, 0, 1, [Item("", 2, "x", 2)]))
  {
    assert t[0..][..1] == "\0" && t[2..][..1] == "x";
    assert Terminated("\0") == "" && Terminated("x") == "x";
    assert Store(t, [], 0, 1, (2, 3)) == [Item("", 2, "x", 2)];
    assert Span(t, 1, IsName) == 1 && Span(t, 2, IsSpace) == 2 && Span(t, 3, IsBare) == 3;
  }

  lemma SecondRead(t: string, items: seq<Item>)
    requires t == "\0=x\n\0=\n"
    ensures Next(t, Machine(Global, 4, true, 0, 1, items)) == At(Machine(Close, 6, true, 4, 5, items))
  {
    hide CloseStep;
    assert Span(t, 5, IsName) == 5 && Span(t, 6, IsSpace) == 6;
  }

  lemma SecondTaken(t: string, items: seq<Item>)
    requires t == "\0=x\n\0=\n" && items == [Item("", 2, "x", 2)]
    ensures Next(t, Machine(Close, 6, true, 4, 5, items)) == At(Machine(Global, 7, true, 4, 5, items))
  {
    assert t[4..][0] == '\0';
    assert Same("", t[4..], 0, 2);
  }
}
