/**
  What the configuration parser accepts, as a grammar: a document is a sequence of blanks, empty
  lines, comment lines and assignments. A text is accepted exactly when it is the text of a
  well-formed document, and the items left are the document's assignments.
 */
module ConfDocument {
  import opened Bytes
  import opened Wrappers
  import opened ConfItems
  import opened ConfParser

  datatype Eol = LF | CR | CRLF | End

  datatype Value = Bare(s: string) | Quoted(s: string)

  datatype Piece =
    | Blank(c: char)
    | Empty(eol: Eol)
    | Comment(body: string, eol: Eol)
    | Assignment(name: string, before: string, after: string, value: Value, eol: Eol)

  function EolText(e: Eol): string {
    match e
    case LF => "\n"
    case CR => "\r"
    case CRLF => "\r\n"
    case End => ""
  }

  function ValueText(v: Value): string {
    match v
    case Bare(s) => s
    case Quoted(s) => "\"" + (s + "\"")
  }

  function PieceText(p: Piece): string {
    match p
    case Blank(c) => [c]
    case Empty(eol) => EolText(eol)
    case Comment(body, eol) => "#" + (body + EolText(eol))
    case Assignment(name, before, after, value, eol) =>
      name + (before + ("=" + (after + (ValueText(value) + EolText(eol)))))
  }

  function Text(doc: seq<Piece>): string {
    if doc == [] then "" else PieceText(doc[0]) + Text(doc[1..])
  }

  predicate All(s: string, f: char -> bool) { forall i :: 0 <= i < |s| ==> f(s[i]) }

  /** Only the first character of a name is unrestricted. */
  predicate NameOk(name: string) {
    && name != ""
    && name[0] != '#' && !IsSpace(name[0]) && !IsEol(name[0])
    && All(name[1..], IsName)
  }

  /** An empty bare value is possible at the end of the text only; a quoted one may span lines, in
      which case the character after a line end is not looked at. */
  predicate ValueOk(v: Value, eol: Eol) {
    match v
    case Bare(s) => All(s, IsBare) && if s == "" then eol == End else s[0] != '"'
    case Quoted(s) => QuoteStop(s + "\"", 0) == |s|
  }

  predicate PieceOk(p: Piece) {
    match p
    case Blank(c) => IsSpace(c)
    case Empty(eol) => eol != End
    case Comment(body, eol) => All(body, NotEol) && eol != End
    case Assignment(name, before, after, value, eol) =>
      NameOk(name) && All(before, IsSpace) && All(after, IsSpace) && ValueOk(value, eol)
  }

  /** A CR is not the first half of a CR LF, and nothing follows the end. */
  predicate Fits(eol: Eol, rest: string) {
    match eol
    case CR => rest == "" || rest[0] != '\n'
    case End => rest == ""
    case _ => true
  }

  predicate PieceFits(p: Piece, rest: string) { p.Blank? || Fits(p.eol, rest) }

  predicate WellFormed(doc: seq<Piece>) {
    doc == [] || (PieceOk(doc[0]) && PieceFits(doc[0], Text(doc[1..])) && WellFormed(doc[1..]))
  }

  function ItemOf(name: string, value: Value): Item { Item(name, |name| + 1, value.s, |value.s| + 1) }

  /** The assignments of a document on top of older items, newest first. */
  function Stored(doc: seq<Piece>, items: seq<Item>): seq<Item> {
    if doc == [] then items
    else Stored(doc[1..], if doc[0].Assignment? then [ItemOf(doc[0].name, doc[0].value)] + items else items)
  }

  // ---------- scanning ----------

  lemma {:induction false} SpanIs(text: string, p: nat, q: nat, f: char -> bool)
    requires p <= q <= |text| && (forall i :: p <= i < q ==> f(text[i])) && (q < |text| ==> !f(text[q]))
    ensures Span(text, p, f) == q
    decreases q - p
  {
    if p < q { SpanIs(text, p + 1, q, f); }
  }

  lemma Peel(text: string, p: nat, x: string, y: string)
    requires p <= |text| && text[p..] == x + y
    ensures p + |x| <= |text| && text[p..p + |x|] == x && text[p + |x|..] == y
    ensures forall i :: p <= i < p + |x| ==> text[i] == x[i - p]
  {
    assert forall i :: 0 <= i < |x + y| ==> text[p + i] == (x + y)[i];
  }

  /** A quoted value is scanned alike on its own and within a text. */
  lemma {:induction false} QuoteWithin(text: string, a: nat, s: string, k: nat)
    requires a + |s| + 1 <= |text| && text[a..a + |s| + 1] == s + "\"" && k <= |s| + 2
    ensures QuoteStop(text, a + k) == a + |s| <==> QuoteStop(s + "\"", k) == |s|
    decreases |s| + 2 - k
  {
    var t := s + "\"";
    if k < |s| && t[k] != '"' {
      NextWithin(text, a, s, k);
      QuoteWithin(text, a, s, QuoteNext(t, k));
    } else if k <= |s| {
      assert text[a + k] == text[a..a + |s| + 1][k] == t[k];
    }
  }

  lemma NextWithin(text: string, a: nat, s: string, k: nat)
    requires a + |s| + 1 <= |text| && text[a..a + |s| + 1] == s + "\"" && k < |s|
    ensures var t := s + "\"";
            text[a + k] == t[k] && QuoteNext(text, a + k) == a + QuoteNext(t, k) && QuoteNext(t, k) <= |s| + 2
  {
    var t := s + "\"";
    assert text[a + k] == text[a..a + |s| + 1][k] == t[k];
    assert text[a + k + 1] == text[a..a + |s| + 1][k + 1] == t[k + 1];
  }

  /** On one line: no quote but after a backslash, and no backslash at the end. */
  predicate Plain(s: string) {
    && (forall i :: 0 <= i < |s| && s[i] == '"' ==> i > 0 && s[i - 1] == '\\')
    && (s != "" ==> s[|s| - 1] != '\\')
  }

  /** Without line ends, these are exactly the strings that can stand between quotes. */
  lemma PlainQuoted(s: string)
    requires All(s, NotEol)
    ensures ValueOk(Quoted(s), LF) <==> Plain(s)
  {
    PlainFrom(s, 0);
  }

  predicate PlainFromAt(s: string, k: nat) {
    && (forall i :: k <= i < |s| && s[i] == '"' ==> i > k && s[i - 1] == '\\')
    && (k < |s| ==> s[|s| - 1] != '\\')
  }

  lemma {:induction false} PlainFrom(s: string, k: nat)
    requires All(s, NotEol) && k <= |s|
    ensures QuoteStop(s + "\"", k) == |s| <==> PlainFromAt(s, k)
    decreases |s| - k
  {
    var t := s + "\"";
    if k < |s| && s[k] != '"' {
      assert t[k] == s[k] && !IsEol(s[k]);
      if s[k] == '\\' && t[k + 1] == '"' {
        if k + 1 < |s| { PlainFrom(s, k + 2); }
      } else {
        PlainFrom(s, k + 1);
      }
    }
  }

  // ---------- storing an item ----------

  /** What the parser stores: names without NUL, name characters from the second one on. */
  predicate Clean(items: seq<Item>) {
    forall i :: 0 <= i < |items| ==> CleanItem(items[i])
  }

  predicate CleanItem(item: Item) {
    '\0' !in item.name && item.name != "" && All(item.name[1..], IsName) && item.nameLength == |item.name| + 1
  }

  /** The parser passes a name that is not terminated where it ends, so what is compared with the
      stored names is the rest of the file, and the duplicate check never fires. */
  lemma {:induction false} NeverTaken(items: seq<Item>, rest: string, n: nat)
    requires Clean(items) && '\0' !in rest && 0 < n < |rest| && !IsName(rest[n]) && All(rest[1..n], IsName)
    ensures Find(items, rest) == None
  {
    if items != [] {
      var name := items[0].name;
      SameMeansEqual(name, rest, 0, items[0].nameLength);
      if n < |name| { assert name[1..][n - 1] == name[n]; }
      NeverTaken(items[1..], rest, n);
    }
  }

  lemma StoreIs(text: string, items: seq<Item>, start: nat, end: nat, value: (nat, nat))
    requires '\0' !in text && Clean(items)
    requires start < end < |text| && !IsName(text[end]) && All(text[start + 1..end], IsName)
    requires value.0 <= value.1 <= |text|
    ensures Store(text, items, start, end, value) == [ItemOf(text[start..end], Bare(text[value.0..value.1]))] + items
    ensures Clean(Store(text, items, start, end, value))
  {
    var rest := text[start..];
    var n := end - start;
    assert rest[1..n] == text[start + 1..end] && rest[..n] == text[start..end];
    NeverTaken(items, rest, n);
    assert rest[..n][1..] == rest[1..n];
    assert text[value.0..][..value.1 - value.0] == text[value.0..value.1];
  }

  // ---------- an assignment within a text ----------

  /** Where the parts of an assignment lie: the name ends, the equals sign stands, the value's text
      starts, the value itself goes from `from` to `to`, and what closes the line stands. */
  datatype Layout = Layout(end: nat, equals: nat, value: nat, from: nat, to: nat, close: nat)

  predicate Ended(text: string, p: nat) { p == |text| || (p < |text| && IsEol(text[p])) }

  function PastLine(text: string, p: nat): nat
    requires Ended(text, p)
  {
    if p == |text| then p else PastEol(text, p)
  }

  predicate NamePlaced(text: string, p: nat, end: nat) {
    && p < end <= |text|
    && text[p] != '#' && !IsSpace(text[p]) && !IsEol(text[p])
    && forall i :: p < i < end ==> IsName(text[i])
  }

  predicate SpacePlaced(text: string, p: nat, q: nat) {
    p <= q <= |text| && forall i :: p <= i < q ==> IsSpace(text[i])
  }

  predicate ValuePlaced(text: string, l: Layout) {
    && l.from <= l.to <= l.close <= |text|
    && if l.value < |text| && text[l.value] == '"' then
         l.from == l.value + 1 && l.close == l.to + 1 && QuoteStop(text, l.from) == l.to
       else
         && l.from == l.value && l.close == l.to
         && (l.from == l.to ==> l.to == |text|)
         && forall i :: l.from <= i < l.to ==> IsBare(text[i])
  }

  predicate Assigned(text: string, p: nat, l: Layout) {
    && NamePlaced(text, p, l.end)
    && SpacePlaced(text, l.end, l.equals)
    && l.equals < |text| && text[l.equals] == '='
    && SpacePlaced(text, l.equals + 1, l.value)
    && ValuePlaced(text, l)
    && Ended(text, l.close)
  }

  lemma ValueRun(text: string, m: Machine, l: Layout)
    requires m.ok && m.start <= m.end <= |text| && ValuePlaced(text, l) && l.value <= |text| && Ended(text, l.close)
    ensures l.value < |text| ==> !IsSpace(text[l.value])
    ensures ValueStep(text, m, l.value)
         == At(m.(state := Global, bp := PastLine(text, l.close),
                  items := Store(text, m.items, m.start, m.end, (l.from, l.to))))
  {
    hide Store;
    if l.value < |text| && text[l.value] != '"' {
      SpanIs(text, l.value + 1, l.close, IsBare);
    }
  }

  lemma EqualsRun(text: string, m: Machine, p: nat, l: Layout)
    requires m.ok && Assigned(text, p, l) && m.start <= m.end <= |text|
    ensures AssignStep(text, m, l.equals)
         == At(m.(state := Global, bp := PastLine(text, l.close),
                  items := Store(text, m.items, m.start, m.end, (l.from, l.to))))
  {
    hide Store, ValueStep, ValuePlaced;
    ValuePlacedFits(text, l);
    ValueRun(text, m, l);
    SpanIs(text, l.equals + 1, l.value, IsSpace);
  }

  lemma ValuePlacedFits(text: string, l: Layout)
    requires ValuePlaced(text, l)
    ensures l.value <= l.from <= l.to <= l.close <= |text|
  {
  }

  /** The machine goes from the first character of an assignment to the next line. */
  lemma AssignmentRun(text: string, m: Machine, l: Layout)
    requires m.ok && m.state == Global && Assigned(text, m.bp, l)
    ensures Run(text, m) == Run(text, m.(start := m.bp, end := l.end, bp := PastLine(text, l.close),
                                         items := Store(text, m.items, m.bp, l.end, (l.from, l.to))))
  {
    hide Run, Store, AssignStep, ValuePlaced;
    var named := m.(start := m.bp, end := l.end);
    assert text[l.end] == '=' || IsSpace(text[l.end]);
    SpanIs(text, m.bp + 1, l.end, IsName);
    RunUnfolds(text, m);
    if l.end < l.equals {
      SpanIs(text, l.end + 1, l.equals, IsSpace);
      SpaceStep(text, named, l.end);
      named := named.(state := State.Assign, bp := l.equals);
      RunUnfolds(text, named);
    }
    EqualsRun(text, named, m.bp, l);
  }

  lemma SpaceStep(text: string, m: Machine, p: nat)
    requires m.start <= m.end <= |text| && p < |text| && IsSpace(text[p])
    ensures AssignStep(text, m, p) == At(m.(state := State.Assign, bp := Span(text, p + 1, IsSpace)))
  {
  }

  // ---------- from the text to the grammar and back ----------

  /** The line end at `p`. */
  function EolOf(text: string, p: nat): Eol
    requires Ended(text, p)
  {
    if p == |text| then End
    else if text[p] == '\n' then LF
    else if ByteAt(text, p + 1) == '\n' then CRLF
    else CR
  }

  lemma EolOfIs(text: string, p: nat)
    requires Ended(text, p)
    ensures var q := PastLine(text, p); text[p..q] == EolText(EolOf(text, p)) && Fits(EolOf(text, p), text[q..])
  {
  }

  function PieceOf(text: string, p: nat, l: Layout): Piece
    requires Assigned(text, p, l)
  {
    ValuePlacedFits(text, l);
    var s := text[l.from..l.to];
    Assignment(text[p..l.end], text[l.end..l.equals], text[l.equals + 1..l.value],
               if l.from == l.value then Bare(s) else Quoted(s), EolOf(text, l.close))
  }

  /** The value of an assignment found in a text is one the grammar allows. */
  lemma ValueOfIs(text: string, l: Layout)
    requires ValuePlaced(text, l) && l.value <= |text| && Ended(text, l.close)
    ensures var s := text[l.from..l.to];
            var v := if l.from == l.value then Bare(s) else Quoted(s);
            ValueOk(v, EolOf(text, l.close)) && ValueText(v) == text[l.value..l.close]
  {
    hide QuoteStop, Ended;
    var s := text[l.from..l.to];
    if l.from != l.value {
      InQuotes(text, l.from, l.to);
      assert l.from + |s| == l.to;
      QuoteWithin(text, l.from, s, 0);
    } else if s != "" {
      assert s[0] == text[l.value];
    } else {
      EndsTheText(text, l.close);
    }
  }

  lemma EndsTheText(text: string, p: nat)
    requires Ended(text, p)
    ensures p == |text| ==> EolOf(text, p) == End
  {
  }

  lemma InQuotes(text: string, p: nat, q: nat)
    requires 0 < p <= q < |text| && text[p - 1] == '"' && text[q] == '"'
    ensures text[p..q + 1] == text[p..q] + "\"" && text[p - 1..q + 1] == "\"" + (text[p..q] + "\"")
  {
  }

  /** What an assignment in a text looks like in the grammar: allowed, and with the same text. */
  lemma PieceOfIs(text: string, p: nat, l: Layout)
    requires Assigned(text, p, l)
    ensures var q := PastLine(text, l.close);
            p < q <= |text| && PieceOk(PieceOf(text, p, l)) && PieceText(PieceOf(text, p, l)) == text[p..q]
            && PieceFits(PieceOf(text, p, l), text[q..])
  {
    hide ValueOk, ValuePlaced, ValueText, EolOf, EolText, Fits, PieceText;
    AssignmentText(PieceOf(text, p, l));
    ValuePlacedFits(text, l);
    ValueOfIs(text, l);
    EolOfIs(text, l.close);
    var q := PastLine(text, l.close);
    Joined(text, p, l, q);
  }

  lemma Joined(text: string, p: nat, l: Layout, q: nat)
    requires p <= l.end <= l.equals < l.value <= l.close <= q <= |text| && text[l.equals] == '='
    ensures text[p..l.end] + (text[l.end..l.equals] +
                              ("=" + (text[l.equals + 1..l.value] + (text[l.value..l.close] + text[l.close..q]))))
         == text[p..q]
  {
    Cut(text, l.value, l.close, q);
    Cut(text, l.equals + 1, l.value, q);
    assert "=" == text[l.equals..l.equals + 1];
    Cut(text, l.equals, l.equals + 1, q);
    Cut(text, l.end, l.equals, q);
    Cut(text, p, l.end, q);
  }

  predicate Stands(text: string, p: nat, q: nat, s: string) { p <= q <= |text| && q == p + |s| && text[p..q] == s }

  lemma ThreeParts(text: string, p: nat, a: string, b: string, c: string, rest: string)
    requires p <= |text| && text[p..] == (a + (b + c)) + rest
    ensures var (i, j) := (p + |a|, p + |a| + |b|);
            && Stands(text, p, i, a) && Stands(text, i, j, b) && text[j..] == c + rest
            && j + |c| <= |text| && text[j + |c|..] == rest && |a + (b + c)| == |a| + |b| + |c|
  {
    assert (a + (b + c)) + rest == a + (b + (c + rest));
    Peel(text, p, a, b + (c + rest));
    Peel(text, p + |a|, b, c + rest);
    Peel(text, p + |a| + |b|, c, rest);
  }

  lemma Placed(text: string, p: nat, a: string, b: string, c: string, d: string, e: string, f: string, rest: string)
    requires p <= |text| && text[p..] == (a + (b + (c + (d + (e + f))))) + rest
    ensures var (i, j, k) := (p + |a|, p + |a| + |b|, p + |a| + |b| + |c|);
            && Stands(text, p, i, a) && Stands(text, i, j, b) && Stands(text, j, k, c) && Stands(text, k, k + |d|, d)
            && Stands(text, k + |d|, k + |d| + |e|, e)
            && text[k + |d| + |e|..] == f + rest && k + |d| + |e| + |f| <= |text| && text[k + |d| + |e| + |f|..] == rest
            && |a + (b + (c + (d + (e + f))))| == |a| + |b| + |c| + |d| + |e| + |f|
  {
    var (j, k) := (p + |a| + |b|, p + |a| + |b| + |c| + |d|);
    ThreeParts(text, p, a, b, c + (d + (e + f)), rest);
    ThreeParts(text, j, c, d, e + f, rest);
    Assoc(e, f, rest);
    Peel(text, k, e, f + rest);
    Peel(text, k + |e|, f, rest);
  }

  lemma EolPlaced(text: string, p: nat, eol: Eol, rest: string)
    requires p <= |text| && text[p..] == EolText(eol) + rest && Fits(eol, rest)
    ensures Ended(text, p) && PastLine(text, p) == p + |EolText(eol)| && EolOf(text, p) == eol
  {
    Peel(text, p, EolText(eol), rest);
    var q := p + |EolText(eol)|;
    if q < |text| { assert text[q] == rest[0]; }
  }

  lemma SpaceIs(text: string, p: nat, s: string)
    requires p + |s| <= |text| && text[p..p + |s|] == s && All(s, IsSpace)
    ensures SpacePlaced(text, p, p + |s|)
  {
    assert forall i :: p <= i < p + |s| ==> text[i] == text[p..p + |s|][i - p];
  }

  lemma NameIs(text: string, p: nat, s: string)
    requires p + |s| <= |text| && text[p..p + |s|] == s && NameOk(s)
    ensures NamePlaced(text, p, p + |s|)
  {
    assert forall i :: p <= i < p + |s| ==> text[i] == text[p..p + |s|][i - p];
    assert forall i :: 1 <= i < |s| ==> s[i] == s[1..][i - 1];
  }

  /** Where the characters of a value start, counted from where its text starts. */
  function Inset(v: Value): nat { if v.Quoted? then 1 else 0 }

  lemma QuotedIs(text: string, p: nat, s: string)
    requires p + |s| + 2 <= |text| && text[p..p + |s| + 2] == "\"" + (s + "\"") && QuoteStop(s + "\"", 0) == |s|
    ensures text[p] == '"' && text[p + 1..p + 1 + |s|] == s && QuoteStop(text, p + 1) == p + 1 + |s|
  {
    hide QuoteStop;
    QuotedChars(text, p, s);
    QuoteWithin(text, p + 1, s, 0);
  }

  lemma QuotedChars(text: string, p: nat, s: string)
    requires p + |s| + 2 <= |text| && text[p..p + |s| + 2] == "\"" + (s + "\"")
    ensures text[p] == '"' && text[p + 1..p + 1 + |s|] == s && text[p + 1..p + 1 + |s| + 1] == s + "\""
  {
    var q := p + |s| + 2;
    assert text[p] == text[p..q][0];
    Nested(text, p, q, 1, |s| + 2);
    Nested(text, p, q, 1, |s| + 1);
    assert ("\"" + (s + "\""))[1..] == s + "\"";
    assert (s + "\"")[..|s|] == s;
    assert ("\"" + (s + "\""))[1..|s| + 1] == s;
  }

  lemma BareIs(text: string, p: nat, s: string)
    requires p + |s| <= |text| && text[p..p + |s|] == s && All(s, IsBare)
    ensures forall i :: p <= i < p + |s| ==> IsBare(text[i])
    ensures s != "" ==> text[p] == s[0]
  {
    assert forall i :: p <= i < p + |s| ==> text[i] == text[p..p + |s|][i - p];
  }

  lemma ValueIs(text: string, p: nat, v: Value, eol: Eol, l: Layout)
    requires ValueOk(v, eol) && p + |ValueText(v)| <= |text| && text[p..p + |ValueText(v)|] == ValueText(v)
    requires eol == End ==> p + |ValueText(v)| == |text|
    requires l.value == p && l.from == p + Inset(v) && l.to == l.from + |v.s| && l.close == p + |ValueText(v)|
    ensures ValuePlaced(text, l) && text[l.from..l.to] == v.s && (v.Bare? ==> l.from == l.value)
  {
    hide QuoteStop, All;
    match v
    case Quoted(s) => QuotedIs(text, p, s);
    case Bare(s) => BareIs(text, p, s);
  }

  function LayoutFor(p: nat, piece: Piece): Layout
    requires piece.Assignment?
  {
    var end := p + |piece.name|;
    var equals := end + |piece.before|;
    var v := equals + 1 + |piece.after|;
    var from := v + Inset(piece.value);
    Layout(end, equals, v, from, from + |piece.value.s|, v + |ValueText(piece.value)|)
  }

  lemma AssignmentText(p: Piece)
    requires p.Assignment?
    ensures PieceText(p) == p.name + (p.before + ("=" + (p.after + (ValueText(p.value) + EolText(p.eol)))))
  {
  }

  lemma LayoutStands(text: string, p: nat, piece: Piece, rest: string)
    requires piece.Assignment? && Fits(piece.eol, rest)
    requires p <= |text| && text[p..] == PieceText(piece) + rest
    ensures var l := LayoutFor(p, piece);
            && Stands(text, p, l.end, piece.name) && Stands(text, l.end, l.equals, piece.before)
            && Stands(text, l.equals, l.equals + 1, "=") && Stands(text, l.equals + 1, l.value, piece.after)
            && Stands(text, l.value, l.close, ValueText(piece.value)) && Ended(text, l.close)
            && PastLine(text, l.close) == p + |PieceText(piece)| && EolOf(text, l.close) == piece.eol
            && p + |PieceText(piece)| <= |text| && text[p + |PieceText(piece)|..] == rest
  {
    hide Stands, EolOf, EolText, Fits, ValueText, PastLine, Ended, PieceText;
    var l := LayoutFor(p, piece);
    AssignmentText(piece);
    Placed(text, p, piece.name, piece.before, "=", piece.after, ValueText(piece.value), EolText(piece.eol), rest);
    EolPlaced(text, l.close, piece.eol, rest);
  }

  /** An assignment of the grammar, where it stands in a text. */
  lemma LayoutOf(text: string, p: nat, piece: Piece, rest: string)
    requires piece.Assignment? && PieceOk(piece) && Fits(piece.eol, rest)
    requires p <= |text| && text[p..] == PieceText(piece) + rest
    ensures var l := LayoutFor(p, piece);
            Assigned(text, p, l) && l.from <= l.to <= |text| && text[l.from..l.to] == piece.value.s
  {
    hide ValueOk, ValuePlaced, ValueText, EolOf, EolText, Fits, NameOk, All, NamePlaced, SpacePlaced,
         PieceText, PastLine, Ended;
    var l := LayoutFor(p, piece);
    LayoutStands(text, p, piece, rest);
    NameIs(text, p, piece.name);
    SpaceIs(text, l.end, piece.before);
    SpaceIs(text, l.equals + 1, piece.after);
    assert text[l.equals] == text[l.equals..l.equals + 1][0];
    EndIsEnd(text, l.close);
    ValueIs(text, l.value, piece.value, piece.eol, l);
    ValuePlacedFits(text, l);
  }

  lemma EndIsEnd(text: string, p: nat)
    requires Ended(text, p)
    ensures EolOf(text, p) == End ==> p == |text|
  {
  }

  // ---------- a well-formed document is accepted ----------

  lemma AssignmentAccepted(text: string, m: Machine, piece: Piece, rest: string)
    requires '\0' !in text && Clean(m.items) && m.ok && m.state == Global && m.bp <= |text|
    requires piece.Assignment? && PieceOk(piece) && Fits(piece.eol, rest) && text[m.bp..] == PieceText(piece) + rest
    ensures var m' := m.(start := m.bp, end := m.bp + |piece.name|, bp := m.bp + |PieceText(piece)|,
                         items := [ItemOf(piece.name, piece.value)] + m.items);
            m'.bp <= |text| && text[m'.bp..] == rest && Run(text, m) == Run(text, m') && Clean(m'.items)
  {
    hide Run, Store, PieceText, PieceOk, Fits, ValueText, Assigned, All, PastLine;
    var l := LayoutFor(m.bp, piece);
    LayoutOf(text, m.bp, piece, rest);
    LayoutStands(text, m.bp, piece, rest);
    AssignmentRun(text, m, l);
    NameWithin(text, m.bp, l);
    StoreIs(text, m.items, m.bp, l.end, (l.from, l.to));
  }

  lemma NameWithin(text: string, p: nat, l: Layout)
    requires Assigned(text, p, l)
    ensures p < l.end < |text| && !IsName(text[l.end]) && All(text[p + 1..l.end], IsName)
  {
  }

  lemma LineAccepted(text: string, m: Machine, p: Piece, rest: string)
    requires m.ok && m.state == Global && m.bp <= |text|
    requires !p.Assignment? && PieceOk(p) && PieceFits(p, rest) && text[m.bp..] == PieceText(p) + rest
    ensures var m' := m.(bp := m.bp + |PieceText(p)|);
            m'.bp <= |text| && text[m'.bp..] == rest && Run(text, m) == Run(text, m')
  {
    hide Run, Next, PieceText, Fits, EolText, All;
    if p.Comment? {
      CommentNext(text, m, p.body, p.eol, rest);
    } else if p.Empty? {
      EmptyNext(text, m, p.eol, rest);
    } else {
      BlankNext(text, m, p.c, rest);
    }
    RunUnfolds(text, m);
  }

  lemma BlankNext(text: string, m: Machine, c: char, rest: string)
    requires m.state == Global && m.bp <= |text| && IsSpace(c) && text[m.bp..] == PieceText(Blank(c)) + rest
    ensures m.bp < |text| && text[m.bp + 1..] == rest && Next(text, m) == At(m.(bp := m.bp + |PieceText(Blank(c))|))
  {
    hide AssignStep;
    Peel(text, m.bp, [c], rest);
  }

  lemma EmptyNext(text: string, m: Machine, eol: Eol, rest: string)
    requires m.state == Global && m.bp <= |text| && eol != End && Fits(eol, rest)
    requires text[m.bp..] == PieceText(Empty(eol)) + rest
    ensures var q := m.bp + |PieceText(Empty(eol))|;
            m.bp < q <= |text| && text[q..] == rest && Next(text, m) == At(m.(bp := q))
  {
    hide AssignStep, Fits;
    Peel(text, m.bp, EolText(eol), rest);
    EolPlaced(text, m.bp, eol, rest);
  }

  lemma CommentNext(text: string, m: Machine, body: string, eol: Eol, rest: string)
    requires m.state == Global && m.bp <= |text| && PieceOk(Comment(body, eol)) && Fits(eol, rest)
    requires text[m.bp..] == PieceText(Comment(body, eol)) + rest
    ensures var q := m.bp + |PieceText(Comment(body, eol))|;
            m.bp < q <= |text| && text[q..] == rest && Next(text, m) == At(m.(bp := q))
  {
    hide AssignStep, PieceText, PieceOk, Fits;
    CommentPlaced(text, m.bp, body, eol, rest);
  }

  lemma CommentPlaced(text: string, p: nat, body: string, eol: Eol, rest: string)
    requires PieceOk(Comment(body, eol)) && Fits(eol, rest)
    requires p <= |text| && text[p..] == PieceText(Comment(body, eol)) + rest
    ensures var q := p + 1 + |body|;
            && p < q < |text| && text[p] == '#' && Span(text, p + 1, NotEol) == q && IsEol(text[q])
            && PastEol(text, q) == p + |PieceText(Comment(body, eol))| && text[PastEol(text, q)..] == rest
  {
    hide EolText, Fits, All, Span, PieceText, PastEol, Stands;
    var q := p + 1 + |body|;
    CommentText(body, eol);
    ThreeParts(text, p, "#", body, EolText(eol), rest);
    EolPlaced(text, q, eol, rest);
    EndIsEnd(text, q);
    FirstStands(text, p, "#");
    CommentSpan(text, p, q, body);
  }

  lemma CommentText(body: string, eol: Eol)
    ensures PieceText(Comment(body, eol)) == "#" + (body + EolText(eol))
  {
  }

  lemma FirstStands(text: string, p: nat, s: string)
    requires s != "" && Stands(text, p, p + |s|, s)
    ensures p < |text| && text[p] == s[0]
  {
    assert text[p] == text[p..p + |s|][0];
  }

  lemma CommentSpan(text: string, p: nat, q: nat, body: string)
    requires p < q < |text| && Stands(text, p + 1, q, body) && All(body, NotEol) && IsEol(text[q])
    ensures Span(text, p + 1, NotEol) == q
  {
    NotEolIs(text, p + 1, body);
    SpanIs(text, p + 1, q, NotEol);
  }

  lemma NotEolIs(text: string, p: nat, s: string)
    requires p + |s| <= |text| && text[p..p + |s|] == s && All(s, NotEol)
    ensures forall i :: p <= i < p + |s| ==> NotEol(text[i])
  {
    assert forall i :: p <= i < p + |s| ==> text[i] == text[p..p + |s|][i - p];
  }

  lemma PieceAccepted(text: string, m: Machine, p: Piece, rest: string) returns (m': Machine)
    requires '\0' !in text && Clean(m.items) && m.ok && m.state == Global && m.bp <= |text|
    requires PieceOk(p) && PieceFits(p, rest) && text[m.bp..] == PieceText(p) + rest
    ensures m'.ok && m'.state == Global && m'.bp <= |text| && Clean(m'.items)
    ensures text[m'.bp..] == rest && Run(text, m) == Run(text, m')
    ensures m'.items == if p.Assignment? then [ItemOf(p.name, p.value)] + m.items else m.items
  {
    hide Run, PieceText, PieceOk, ItemOf, Clean, Fits;
    if p.Assignment? {
      AssignmentAccepted(text, m, p, rest);
      m' := m.(start := m.bp, end := m.bp + |p.name|, bp := m.bp + |PieceText(p)|,
               items := [ItemOf(p.name, p.value)] + m.items);
    } else {
      LineAccepted(text, m, p, rest);
      m' := m.(bp := m.bp + |PieceText(p)|);
    }
  }

  lemma {:induction false} DocumentAccepted(text: string, m: Machine, doc: seq<Piece>)
    requires '\0' !in text && Clean(m.items) && m.ok && m.state == Global && m.bp <= |text|
    requires WellFormed(doc) && text[m.bp..] == Text(doc)
    ensures Run(text, m) == Done(true, Stored(doc, m.items))
    decreases |doc|
  {
    hide Clean;
    if doc == [] {
      RunEnds(text, m);
    } else {
      hide Run, PieceText, PieceOk, PieceFits, ItemOf;
      var m' := PieceAccepted(text, m, doc[0], Text(doc[1..]));
      DocumentAccepted(text, m', doc[1..]);
    }
  }

  // ---------- an accepted text is a well-formed document ----------

  predicate Succeeds(text: string, m: Machine) {
    Holds(text, m) && Run(text, m).Done? && Run(text, m).ok
  }

  lemma NextStaysFailed(text: string, m: Machine)
    requires m.bp < |text| && Holds(text, m) && !m.ok
    ensures Next(text, m).At? ==> !Next(text, m).m.ok
  {
    hide Span, QuoteStop, Store;
  }

  /** Once something has been wrong, the parser does not succeed. */
  lemma {:induction false} FailedStaysFailed(text: string, m: Machine)
    requires Holds(text, m) && !m.ok
    ensures !Succeeds(text, m)
    decreases |text| + 1 - m.bp, Rank(m)
  {
    hide Next;
    if m.bp < |text| {
      RunUnfolds(text, m);
      NextStaysFailed(text, m);
      NextAdvances(text, m);
      if Next(text, m).At? { FailedStaysFailed(text, Next(text, m).m); }
    }
  }

  /** The step taken in a run that succeeds. */
  lemma SuccessGoesOn(text: string, m: Machine)
    requires Succeeds(text, m)
    ensures m.bp < |text| ==> Next(text, m).At? && Next(text, m).m.ok && Succeeds(text, Next(text, m).m)
    ensures m.bp >= |text| ==> m.ok && m.state == Global
  {
    hide Next, Run;
    if m.bp < |text| {
      RunUnfolds(text, m);
      NextAdvances(text, m);
      if Next(text, m).At? && !Next(text, m).m.ok { FailedStaysFailed(text, Next(text, m).m); }
    } else {
      RunEnds(text, m);
    }
  }

  /** The name ends where it should. */
  predicate NameShut(text: string, m: Machine) {
    && m.start < m.end <= |text| && (m.end < |text| ==> !IsName(text[m.end]))
    && All(text[m.start + 1..m.end], IsName)
  }

  /** Without a value the run does not succeed. */
  lemma NoValueIsLost(text: string, m: Machine, p: nat)
    requires '\0' !in text && Clean(m.items) && NameShut(text, m) && m.end < |text|
    requires m.ok && p < |text| && IsEol(text[p])
    ensures Next(text, m.(state := Close, bp := p)) == Lost
  {
    hide Clean;
    var rest := text[m.start..];
    assert rest[1..m.end - m.start] == text[m.start + 1..m.end];
    NeverTaken(m.items, rest, m.end - m.start);
  }

  /** In a run that succeeds every equals sign looked for has a value, and nothing behind it. */
  lemma ValueFound(text: string, m: Machine, p: nat) returns (l: Layout)
    requires '\0' !in text && Clean(m.items) && NameShut(text, m) && m.end < |text|
    requires m.ok && p <= |text| && (p < |text| ==> !IsSpace(text[p]))
    requires ValueStep(text, m, p).At? && ValueStep(text, m, p).m.ok && Succeeds(text, ValueStep(text, m, p).m)
    ensures l.value == p && ValuePlaced(text, l) && Ended(text, l.close)
  {
    hide Run, Store, Clean, NameShut;
    if p < |text| && IsEol(text[p]) {
      SuccessGoesOn(text, m.(state := Close, bp := p));
      NoValueIsLost(text, m, p);
      assert false;
    }
    var quoted := p < |text| && text[p] == '"';
    var from := if quoted then p + 1 else p;
    var to := if quoted then QuoteStop(text, from) else if p == |text| then p else Span(text, p + 1, IsBare);
    l := Layout(m.end, m.end, p, from, to, if quoted then to + 1 else to);
  }

  lemma EqualsFound(text: string, m: Machine, p: nat) returns (l: Layout)
    requires '\0' !in text && Clean(m.items) && NameShut(text, m) && m.end <= p
    requires m.ok && p <= |text| && (p < |text| ==> !IsSpace(text[p]))
    requires Going(text, AssignStep(text, m, p))
    ensures p < |text| && text[p] == '='
    ensures SpacePlaced(text, p + 1, l.value) && ValuePlaced(text, l) && Ended(text, l.close)
  {
    hide ValueStep, Run, Succeeds, ValuePlaced, Clean;
    l := ValueFound(text, m, Span(text, p + 1, IsSpace));
  }

  lemma AssignmentFound(text: string, m: Machine) returns (l: Layout)
    requires '\0' !in text && Clean(m.items)
    requires m.ok && m.state == Global && m.bp < |text| && Succeeds(text, m)
    requires text[m.bp] != '#' && !IsSpace(text[m.bp]) && !IsEol(text[m.bp])
    ensures Assigned(text, m.bp, l)
  {
    hide AssignStep, ValuePlaced, Succeeds, Clean;
    var end := Span(text, m.bp + 1, IsName);
    var named := m.(start := m.bp, end := end);
    NameGoesOn(text, m);
    var found, equals;
    if end < |text| && IsSpace(text[end]) {
      equals := Span(text, end + 1, IsSpace);
      BlanksGoOn(text, named, end);
      found := EqualsFound(text, named.(state := State.Assign, bp := equals), equals);
    } else {
      equals := end;
      found := EqualsFound(text, named, end);
    }
    l := found.(end := end, equals := equals);
    assert ValuePlaced(text, l) by { SameValue(text, found, l); }
  }

  /** An outcome from which the run goes on to succeed. */
  predicate Going(text: string, o: Outcome) {
    o.At? && o.m.ok && Succeeds(text, o.m)
  }

  lemma NameGoesOn(text: string, m: Machine)
    requires m.ok && m.state == Global && m.bp < |text| && Succeeds(text, m)
    requires text[m.bp] != '#' && !IsSpace(text[m.bp]) && !IsEol(text[m.bp])
    ensures var end := Span(text, m.bp + 1, IsName); Going(text, AssignStep(text, m.(start := m.bp, end := end), end))
  {
    hide AssignStep, Run;
    SuccessGoesOn(text, m);
  }

  lemma BlanksGoOn(text: string, m: Machine, p: nat)
    requires m.start < m.end <= |text| && p < |text| && IsSpace(text[p]) && Going(text, AssignStep(text, m, p))
    ensures var q := Span(text, p + 1, IsSpace); Going(text, AssignStep(text, m.(state := State.Assign, bp := q), q))
  {
    hide ValueStep, Run;
    var q := Span(text, p + 1, IsSpace);
    SuccessGoesOn(text, m.(state := State.Assign, bp := q));
  }

  lemma SameValue(text: string, k: Layout, l: Layout)
    requires ValuePlaced(text, k) && l == k.(end := l.end, equals := l.equals)
    ensures ValuePlaced(text, l)
  {
  }

  lemma LineFound(text: string, m: Machine) returns (p: Piece, q: nat)
    requires m.ok && m.state == Global && m.bp < |text| && Succeeds(text, m)
    requires text[m.bp] == '#' || IsSpace(text[m.bp]) || IsEol(text[m.bp])
    ensures m.bp < q <= |text| && PieceOk(p) && PieceText(p) == text[m.bp..q] && PieceFits(p, text[q..])
    ensures Succeeds(text, m.(bp := q))
  {
    hide Run, AssignStep, EolOf, Fits, EolText;
    SuccessGoesOn(text, m);
    var e := if text[m.bp] == '#' then Span(text, m.bp + 1, NotEol) else m.bp;
    q := PastEol(text, e);
    if text[m.bp] == '#' {
      p := CommentFound(text, m.bp, e);
    } else if IsSpace(text[m.bp]) {
      p := Blank(text[m.bp]);
    } else {
      EolOfIs(text, e);
      EndIsEnd(text, e);
      p := Empty(EolOf(text, e));
    }
  }

  lemma CommentFound(text: string, p: nat, e: nat) returns (c: Piece)
    requires p < e < |text| && text[p] == '#' && IsEol(text[e]) && forall i :: p < i < e ==> NotEol(text[i])
    ensures var q := PastEol(text, e); PieceOk(c) && PieceText(c) == text[p..q] && PieceFits(c, text[q..])
  {
    var q := PastEol(text, e);
    EolOfIs(text, e);
    c := Comment(text[p + 1..e], EolOf(text, e));
    Cut(text, p + 1, e, q);
    assert "#" + text[p + 1..q] == text[p..q];
  }

  lemma PieceFound(text: string, m: Machine) returns (p: Piece, m': Machine)
    requires '\0' !in text && Clean(m.items)
    requires m.ok && m.state == Global && m.bp < |text| && Succeeds(text, m)
    ensures Clean(m'.items)
    ensures m.bp < m'.bp <= |text| && PieceOk(p) && PieceText(p) == text[m.bp..m'.bp] && PieceFits(p, text[m'.bp..])
    ensures m'.ok && m'.state == Global && Succeeds(text, m')
  {
    hide Run, Store, PieceText, PieceOk, ValuePlaced, Clean;
    if text[m.bp] == '#' || IsSpace(text[m.bp]) || IsEol(text[m.bp]) {
      var q;
      p, q := LineFound(text, m);
      m' := m.(bp := q);
    } else {
      var l := AssignmentFound(text, m);
      ValuePlacedFits(text, l);
      AssignmentRun(text, m, l);
      NameWithin(text, m.bp, l);
      StoreIs(text, m.items, m.bp, l.end, (l.from, l.to));
      PieceOfIs(text, m.bp, l);
      p := PieceOf(text, m.bp, l);
      m' := m.(start := m.bp, end := l.end, bp := PastLine(text, l.close),
               items := Store(text, m.items, m.bp, l.end, (l.from, l.to)));
    }
  }

  lemma {:induction false} DocumentFound(text: string, m: Machine) returns (doc: seq<Piece>)
    requires '\0' !in text && Clean(m.items)
    requires m.ok && m.state == Global && m.bp <= |text| && Succeeds(text, m)
    ensures WellFormed(doc) && Text(doc) == text[m.bp..]
    decreases |text| - m.bp
  {
    hide Run, Succeeds, PieceText, PieceOk, PieceFits, Clean;
    if m.bp == |text| {
      doc := [];
    } else {
      var p, m' := PieceFound(text, m);
      var rest := DocumentFound(text, m');
      doc := [p] + rest;
      assert doc[1..] == rest;
      Cut(text, m.bp, m'.bp, |text|);
    }
  }

  /** The texts the parser accepts are the texts of the well-formed documents, and what it keeps of
      such a text is its assignments, one item each, newest first. */
  lemma AcceptsExactlyDocuments(text: string)
    requires '\0' !in text
    ensures (Parse(text).Done? && Parse(text).ok) <==> exists doc :: WellFormed(doc) && Text(doc) == text
    ensures forall doc :: WellFormed(doc) && Text(doc) == text ==> Parse(text) == Done(true, Stored(doc, []))
  {
    hide Run, WellFormed, Text, Stored;
    assert text[0..] == text;
    forall doc | WellFormed(doc) && Text(doc) == text
      ensures Parse(text) == Done(true, Stored(doc, []))
    {
      DocumentAccepted(text, Start([]), doc);
    }
    if Parse(text).Done? && Parse(text).ok {
      var doc := DocumentFound(text, Start([]));
      assert WellFormed(doc) && Text(doc) == text;
    }
  }

  // ---------- what is found afterwards ----------

  /** The value that a document assigns to a name last. */
  function LastOf(doc: seq<Piece>, name: string): Option<Value> {
    if doc == [] then None
    else
      var later := LastOf(doc[1..], name);
      if later.Some? then later
      else if doc[0].Assignment? && doc[0].name == name then Some(doc[0].value)
      else None
  }

  predicate NamesClean(doc: seq<Piece>) {
    forall i :: 0 <= i < |doc| && doc[i].Assignment? ==> '\0' !in doc[i].name
  }

  lemma {:induction false} TextClean(doc: seq<Piece>)
    requires '\0' !in Text(doc)
    ensures NamesClean(doc)
  {
    if doc != [] {
      assert forall c :: c in Text(doc[1..]) ==> c in Text(doc);
      TextClean(doc[1..]);
      if doc[0].Assignment? {
        assert forall c :: c in doc[0].name ==> c in PieceText(doc[0]);
      }
    }
  }

  lemma {:induction false} FindStored(doc: seq<Piece>, items: seq<Item>, name: string)
    requires NamesClean(doc) && '\0' !in name
    ensures Find(Stored(doc, items), name)
         == match LastOf(doc, name) case Some(v) => Some(ItemOf(name, v)) case None => Find(items, name)
    decreases |doc|
  {
    if doc != [] {
      var p := doc[0];
      var items' := if p.Assignment? then [ItemOf(p.name, p.value)] + items else items;
      FindStored(doc[1..], items', name);
      if p.Assignment? {
        SameMeansEqual(p.name, name, 0, |p.name| + 1);
        assert items'[1..] == items;
      }
    }
  }

  predicate DistinctNames(doc: seq<Piece>) {
    forall i, j :: 0 <= i < j < |doc| && doc[i].Assignment? && doc[j].Assignment? ==> doc[i].name != doc[j].name
  }

  predicate Assigns(doc: seq<Piece>, k: int, name: string) {
    0 <= k < |doc| && doc[k].Assignment? && doc[k].name == name
  }

  lemma {:induction false} LastOfIs(doc: seq<Piece>, name: string)
    ensures LastOf(doc, name).Some? ==> exists k :: Assigns(doc, k, name) && LastOf(doc, name).value == doc[k].value
    ensures LastOf(doc, name).None? ==> forall k :: 0 <= k < |doc| && doc[k].Assignment? ==> doc[k].name != name
  {
    if doc != [] {
      LastOfIs(doc[1..], name);
      if LastOf(doc[1..], name).Some? {
        var k :| Assigns(doc[1..], k, name) && LastOf(doc[1..], name).value == doc[1..][k].value;
        assert doc[k + 1] == doc[1..][k] && Assigns(doc, k + 1, name);
      } else {
        assert forall k :: 1 <= k < |doc| ==> doc[k] == doc[1..][k - 1];
      }
    }
  }

  // Printing does not have to avoid a line that ends in CR before an empty line that ends in LF:
  // the text is that of one line that ends in CR LF.

  /** Any sequence of allowed pieces in which nothing follows the end. */
  predicate Printable(doc: seq<Piece>) {
    doc == [] || (PieceOk(doc[0]) && (EolIs(doc[0], End) ==> doc[1..] == []) && Printable(doc[1..]))
  }

  predicate EolIs(p: Piece, eol: Eol) { !p.Blank? && p.eol == eol }

  function WithCRLF(p: Piece): Piece
    requires EolIs(p, CR)
  {
    match p
    case Empty(_) => Empty(CRLF)
    case Comment(body, _) => Comment(body, CRLF)
    case Assignment(name, before, after, value, _) => Assignment(name, before, after, value, CRLF)
  }

  /** The document with such pairs of lines put together. */
  function Joint(doc: seq<Piece>): seq<Piece> {
    if doc == [] then []
    else
      var rest := Joint(doc[1..]);
      if EolIs(doc[0], CR) && rest != [] && rest[0] == Empty(LF) then [WithCRLF(doc[0])] + rest[1..]
      else [doc[0]] + rest
  }

  lemma JoinedText(p: Piece)
    requires EolIs(p, CR)
    ensures PieceText(WithCRLF(p)) == PieceText(p) + "\n"
    ensures PieceOk(p) ==> PieceOk(WithCRLF(p))
  {
    assert EolText(CRLF) == EolText(CR) + "\n";
    if p.Assignment? {
      var v := ValueText(p.value);
      assert p.name + (p.before + ("=" + (p.after + (v + (EolText(CR) + "\n")))))
          == (p.name + (p.before + ("=" + (p.after + (v + EolText(CR)))))) + "\n";
    }
  }

  /** Only an empty line that ends in LF begins with one. */
  lemma StartsWithLF(doc: seq<Piece>)
    requires doc != [] && PieceOk(doc[0]) && (EolIs(doc[0], End) ==> doc[1..] == [])
    ensures Text(doc) != ""
    ensures Text(doc)[0] == '\n' ==> doc[0] == Empty(LF)
  {
    var p := doc[0];
    assert PieceText(p) != "" && PieceText(p)[0] == Text(doc)[0];
  }

  lemma {:induction false} JointIs(doc: seq<Piece>)
    requires Printable(doc)
    ensures Text(Joint(doc)) == Text(doc) && WellFormed(Joint(doc)) && Printable(Joint(doc))
    decreases |doc|
  {
    if doc != [] {
      hide PieceText, PieceOk;
      var p, rest := doc[0], Joint(doc[1..]);
      JointIs(doc[1..]);
      if EolIs(p, CR) && rest != [] && rest[0] == Empty(LF) {
        JoinedText(p);
        LFText();
        assert ([WithCRLF(p)] + rest[1..])[1..] == rest[1..];
        assert Text(rest) == "\n" + Text(rest[1..]);
        Assoc(PieceText(p), "\n", Text(rest[1..]));
      } else {
        assert ([p] + rest)[1..] == rest;
        if rest != [] { StartsWithLF(rest); }
      }
    }
  }

  lemma LFText()
    ensures PieceText(Empty(LF)) == "\n"
  {
  }

  lemma {:induction false} JointStored(doc: seq<Piece>, items: seq<Item>)
    ensures Stored(Joint(doc), items) == Stored(doc, items)
    decreases |doc|
  {
    if doc != [] {
      var p, rest := doc[0], Joint(doc[1..]);
      var items' := if p.Assignment? then [ItemOf(p.name, p.value)] + items else items;
      JointStored(doc[1..], items');
      if EolIs(p, CR) && rest != [] && rest[0] == Empty(LF) {
        assert ([WithCRLF(p)] + rest[1..])[1..] == rest[1..];
      } else {
        assert ([p] + rest)[1..] == rest;
      }
    }
  }

  /** Every printed document is accepted and its assignments are stored. */
  lemma PrintedAccepted(doc: seq<Piece>)
    requires Printable(doc) && '\0' !in Text(doc)
    ensures Parse(Text(doc)) == Done(true, Stored(doc, []))
  {
    hide Run, Text, WellFormed, Joint;
    JointIs(doc);
    JointStored(doc, []);
    AcceptsExactlyDocuments(Text(doc));
  }

  /** Writing a document and parsing it: a lookup finds the last value assigned to the name, raw,
      and fails for a name that is not assigned. */
  lemma LookupAfterParse(doc: seq<Piece>, name: string)
    requires Printable(doc) && '\0' !in Text(doc) && '\0' !in name
    ensures Parse(Text(doc)).Done? && Parse(Text(doc)).ok
    ensures Find(Parse(Text(doc)).items, name)
         == match LastOf(doc, name) case Some(v) => Some(ItemOf(name, v)) case None => None
  {
    hide Run, Printable, Text, Stored, LastOf;
    PrintedAccepted(doc);
    TextClean(doc);
    FindStored(doc, [], name);
  }

  /** With distinct names every assignment is found as it was written. */
  lemma RoundTrip(doc: seq<Piece>, k: nat)
    requires Printable(doc) && '\0' !in Text(doc) && DistinctNames(doc)
    requires k < |doc| && doc[k].Assignment?
    ensures Parse(Text(doc)).Done? && Parse(Text(doc)).ok
    ensures Find(Parse(Text(doc)).items, doc[k].name) == Some(ItemOf(doc[k].name, doc[k].value))
  {
    hide Run, Printable, Text, Stored, LastOf;
    TextClean(doc);
    NameClean(doc, k);
    LookupAfterParse(doc, doc[k].name);
    LastOfIs(doc, doc[k].name);
  }

  lemma NameClean(doc: seq<Piece>, k: nat)
    requires NamesClean(doc) && k < |doc| && doc[k].Assignment?
    ensures '\0' !in doc[k].name
  {
  }
}
