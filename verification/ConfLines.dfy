/**
  The configuration file as its users write it: lines with settings, remarks and nothing. Every
  character that matters is written out here, so that what is proved does not rest on the character
  classes of the parser.
 */
module ConfLines {
  import opened Bytes
  import opened Wrappers
  import opened ConfItems
  import opened ConfParser
  import opened ConfDocument

  datatype Line =
    | Setting(name: string, before: string, after: string, value: string, quotes: bool)
    | Remark(body: string)
    | Gap

  /** The characters of a line between its indentation and its end. */
  function Written(l: Line): string {
    match l
    case Setting(name, before, after, value, quotes) =>
      name + before + "=" + after + if quotes then "\"" + value + "\"" else value
    case Remark(body) => "#" + body
    case Gap => ""
  }

  /** A line is indented and ends in LF, CR, or CR LF. */
  datatype Row = Row(indent: string, line: Line, eol: string)

  function Printed(rows: seq<Row>): string {
    if rows == [] then "" else rows[0].indent + Written(rows[0].line) + rows[0].eol + Printed(rows[1..])
  }

  predicate Blanks(s: string) { forall i :: 0 <= i < |s| ==> s[i] == ' ' || s[i] == '\t' }

  /** Letters, digits and colons. */
  predicate NameChar(c: char) { 'a' <= c <= 'z' || 'A' <= c <= 'Z' || '0' <= c <= '9' || c == ':' }

  predicate OneLine(s: string) { forall i :: 0 <= i < |s| ==> s[i] != '\r' && s[i] != '\n' && s[i] != '\0' }

  /** Of a name only the first character is free. */
  predicate Named(s: string) {
    && s != "" && s[0] != '#' && s[0] != ' ' && s[0] != '\t' && s[0] != '\r' && s[0] != '\n' && s[0] != '\0'
    && forall i :: 1 <= i < |s| ==> NameChar(s[i])
  }

  /** What can stand between quotes, read from its start: a backslash lets a quote in, and the
      character behind a line end is passed over, whatever it is; so none of these can come last. */
  predicate Quotable(s: string) {
    if s == "" then true
    else if |s| > 1 && s[0] == '\\' && s[1] == '"' then Quotable(s[2..])
    else if |s| > 1 && s[0] == '\r' && s[1] == '\n' then |s| > 2 && Quotable(s[3..])
    else if s[0] == '\r' || s[0] == '\n' then |s| > 1 && Quotable(s[2..])
    else s[0] != '"' && (s[0] == '\\' ==> |s| > 1) && Quotable(s[1..])
  }

  /** A value without quotes is on one line, has no blanks and does not start with a quote. */
  predicate Valued(s: string, quotes: bool) {
    if quotes then '\0' !in s && Quotable(s)
    else OneLine(s) && s != "" && s[0] != '"' && forall i :: 0 <= i < |s| ==> s[i] != ' ' && s[i] != '\t'
  }

  /** The scan behind an opening quote stops at the closing one exactly for these. */
  lemma {:induction false} QuotableIs(s: string, k: nat)
    requires k <= |s|
    ensures QuoteStop(s + "\"", k) == |s| <==> Quotable(s[k..])
    decreases |s| - k
  {
    var t := s + "\"";
    if k < |s| {
      var n := QuoteNext(t, k);
      assert t[k] == s[k] && s[k..][0] == s[k] && (k + 1 < |s| ==> s[k..][1] == s[k + 1] == t[k + 1]);
      if n <= |s| && s[k] != '"' {
        assert s[k..][n - k..] == s[n..];
        QuotableIs(s, n);
      }
    }
  }

  /** On one line these are the strings with quotes only behind a backslash, and none at the end. */
  lemma QuotableOnOneLine(s: string)
    requires forall i :: 0 <= i < |s| ==> s[i] != '\r' && s[i] != '\n'
    ensures Quotable(s) <==>
              && (forall i :: 0 <= i < |s| && s[i] == '"' ==> i > 0 && s[i - 1] == '\\')
              && (s != "" ==> s[|s| - 1] != '\\')
  {
    assert s[0..] == s;
    QuotableIs(s, 0);
    PlainQuoted(s);
  }

  predicate Allowed(r: Row) {
    && Blanks(r.indent) && (r.eol == "\n" || r.eol == "\r" || r.eol == "\r\n")
    && match r.line
       case Setting(name, before, after, value, quotes) =>
         Named(name) && Blanks(before) && Blanks(after) && Valued(value, quotes)
       case Remark(body) => OneLine(body)
       case Gap => true
  }

  /** The setting that a line makes, if it makes one. */
  function Made(l: Line): seq<Item> {
    match l
    case Setting(name, _, _, value, _) => [Item(name, |name| + 1, value, |value| + 1)]
    case _ => []
  }

  /** The settings, the last one first, each with its value as it was written between its quotes or
      without them; lengths count a NUL. */
  function Settings(rows: seq<Row>): seq<Item> {
    if rows == [] then []
    else
      Settings(rows[1..]) + Made(rows[0].line)
  }

  // ---------- lines as pieces of the grammar ----------

  function EolFor(s: string): Eol { if s == "\n" then LF else if s == "\r" then CR else CRLF }

  function PieceFor(r: Row): Piece {
    match r.line
    case Setting(name, before, after, value, quotes) =>
      Assignment(name, before, after, if quotes then Quoted(value) else Bare(value), EolFor(r.eol))
    case Remark(body) => Comment(body, EolFor(r.eol))
    case Gap => Empty(EolFor(r.eol))
  }

  function BlanksFor(indent: string): seq<Piece> {
    if indent == "" then [] else [Blank(indent[0])] + BlanksFor(indent[1..])
  }

  function Document(rows: seq<Row>): seq<Piece> {
    if rows == [] then [] else BlanksFor(rows[0].indent) + ([PieceFor(rows[0])] + Document(rows[1..]))
  }

  lemma PieceForIs(r: Row)
    requires Allowed(r)
    ensures PieceOk(PieceFor(r)) && !EolIs(PieceFor(r), End)
    ensures PieceText(PieceFor(r)) == Written(r.line) + r.eol
    ensures '\0' !in Written(r.line) + r.eol
  {
    if r.line.Setting? {
      hide PieceOk, PieceText, Named, Valued, Blanks;
      var l := r.line;
      SettingIs(l.name, l.before, l.after, l.value, l.quotes, EolFor(r.eol));
      SettingText(l.name, l.before, l.after, l.value, l.quotes, EolFor(r.eol));
      SettingClean(r);
    } else if r.line.Remark? {
      Assoc("#", r.line.body, r.eol);
    }
  }

  lemma SettingText(name: string, before: string, after: string, value: string, quotes: bool, eol: Eol)
    ensures PieceText(Assignment(name, before, after, if quotes then Quoted(value) else Bare(value), eol))
         == name + before + "=" + after + (if quotes then "\"" + value + "\"" else value) + EolText(eol)
  {
    hide EolText;
    var v := if quotes then "\"" + value + "\"" else value;
    if quotes { Assoc("\"", value, "\""); }
    FiveParts(name, before, "=", after, v, EolText(eol));
  }

  lemma FiveParts(a: string, b: string, c: string, d: string, e: string, f: string)
    ensures a + (b + (c + (d + (e + f)))) == a + b + c + d + e + f
  {
    Assoc(a + b + c + d, e, f);
    Assoc(a + b + c, d, e + f);
    Assoc(a + b, c, d + (e + f));
    Assoc(a, b, c + (d + (e + f)));
  }

  lemma SettingClean(r: Row)
    requires Allowed(r) && r.line.Setting?
    ensures '\0' !in Written(r.line) + r.eol
  {
  }

  lemma SettingIs(name: string, before: string, after: string, value: string, quotes: bool, eol: Eol)
    requires Named(name) && Blanks(before) && Blanks(after) && Valued(value, quotes) && eol != End
    ensures PieceOk(Assignment(name, before, after, if quotes then Quoted(value) else Bare(value), eol))
  {
    hide QuoteStop, Quotable;
    assert value[0..] == value;
    if quotes { QuotableIs(value, 0); }
  }

  lemma {:induction false} BlanksBefore(indent: string, doc: seq<Piece>, items: seq<Item>)
    requires Blanks(indent) && Printable(doc)
    ensures Printable(BlanksFor(indent) + doc)
    ensures Text(BlanksFor(indent) + doc) == indent + Text(doc)
    ensures Stored(BlanksFor(indent) + doc, items) == Stored(doc, items)
    decreases |indent|
  {
    if indent == "" {
      assert BlanksFor(indent) + doc == doc && indent + Text(doc) == Text(doc);
    } else {
      hide Printable, Text, Stored;
      var first, rest := [Blank(indent[0])], BlanksFor(indent[1..]) + doc;
      BlanksBefore(indent[1..], doc, items);
      OneBlank(indent[0], rest, items);
      Assoc(first, BlanksFor(indent[1..]), doc);
      assert indent == [indent[0]] + indent[1..];
      Assoc([indent[0]], indent[1..], Text(doc));
    }
  }

  lemma OneBlank(c: char, doc: seq<Piece>, items: seq<Item>)
    requires (c == ' ' || c == '\t') && Printable(doc)
    ensures Printable([Blank(c)] + doc) && Text([Blank(c)] + doc) == [c] + Text(doc)
    ensures Stored([Blank(c)] + doc, items) == Stored(doc, items)
  {
    assert ([Blank(c)] + doc)[1..] == doc;
  }

  lemma {:induction false} DocumentIs(rows: seq<Row>, items: seq<Item>)
    requires forall i :: 0 <= i < |rows| ==> Allowed(rows[i])
    ensures Printable(Document(rows)) && Text(Document(rows)) == Printed(rows) && '\0' !in Printed(rows)
    ensures Stored(Document(rows), items) == Settings(rows) + items
    decreases |rows|
  {
    if rows != [] {
      hide Allowed, PieceText, PieceOk, Written, PieceFor, Settings;
      var r, p, rest := rows[0], PieceFor(rows[0]), Document(rows[1..]);
      var items' := if p.Assignment? then [ItemOf(p.name, p.value)] + items else items;
      PieceForIs(r);
      DocumentIs(rows[1..], items');
      assert ([p] + rest)[1..] == rest;
      BlanksBefore(r.indent, [p] + rest, items) by { AllowedBlanks(r); }
      RowText(r.indent, Written(r.line), r.eol, Printed(rows[1..]));
      NoNul(r, Printed(rows[1..]));
      SettingsStep(rows, items);
    }
  }

  lemma AllowedBlanks(r: Row)
    requires Allowed(r)
    ensures Blanks(r.indent) && '\0' !in r.indent
  {
  }

  lemma RowText(a: string, b: string, c: string, d: string)
    ensures a + ((b + c) + d) == a + b + c + d
  {
  }

  lemma NoNul(r: Row, rest: string)
    requires Allowed(r) && '\0' !in Written(r.line) + r.eol && '\0' !in rest
    ensures '\0' !in r.indent + Written(r.line) + r.eol + rest
  {
    hide Written;
    AllowedBlanks(r);
    RowText(r.indent, Written(r.line), r.eol, rest);
  }

  lemma SettingsStep(rows: seq<Row>, items: seq<Item>)
    requires rows != []
    ensures var p := PieceFor(rows[0]);
            Settings(rows) + items ==
              Settings(rows[1..]) + if p.Assignment? then [ItemOf(p.name, p.value)] + items else items
  {
    var more := Made(rows[0].line);
    assert Settings(rows) == Settings(rows[1..]) + more;
    hide Settings;
    Assoc(Settings(rows[1..]), more, items);
    assert more + items == if PieceFor(rows[0]).Assignment? then more + items else items;
  }

  // ---------- what is parsed, and what is found ----------

  /** Any sequence of allowed rows is accepted, and its settings are stored. */
  lemma RowsParsed(rows: seq<Row>)
    requires forall i :: 0 <= i < |rows| ==> Allowed(rows[i])
    ensures Parse(Printed(rows)) == Done(true, Settings(rows))
  {
    hide Run, Printed, Settings, Printable, Stored, Text;
    DocumentIs(rows, []);
    PrintedAccepted(Document(rows));
    assert Settings(rows) + [] == Settings(rows);
  }

  predicate Sets(r: Row, name: string) { r.line.Setting? && r.line.name == name }

  /** A setting that no later row makes again is found, with its value as written. */
  lemma SettingFound(rows: seq<Row>, k: nat)
    requires forall i :: 0 <= i < |rows| ==> Allowed(rows[i])
    requires k < |rows| && rows[k].line.Setting?
    requires forall i :: k < i < |rows| ==> !Sets(rows[i], rows[k].line.name)
    ensures var l := rows[k].line;
            var o := Parse(Printed(rows));
            o.Done? && o.ok && Find(o.items, l.name) == Some(Item(l.name, |l.name| + 1, l.value, |l.value| + 1))
  {
    hide Run, Printed;
    RowsParsed(rows);
    FoundInSettings(rows, k);
  }

  /** A name that no row sets is not found. */
  lemma NothingFound(rows: seq<Row>, name: string)
    requires (forall i :: 0 <= i < |rows| ==> Allowed(rows[i])) && '\0' !in name
    requires forall i :: 0 <= i < |rows| ==> !Sets(rows[i], name)
    ensures var o := Parse(Printed(rows)); o.Done? && o.ok && Find(o.items, name) == None
  {
    hide Run, Printed;
    RowsParsed(rows);
    NotInSettings(rows, name);
  }

  lemma NameHasNoNul(r: Row)
    requires Allowed(r) && r.line.Setting?
    ensures '\0' !in r.line.name
  {
  }

  lemma {:induction false} FindJoined(a: seq<Item>, b: seq<Item>, name: string)
    ensures Find(a + b, name) == if Find(a, name).Some? then Find(a, name) else Find(b, name)
    decreases |a|
  {
    if a == [] {
      assert a + b == b;
    } else {
      assert (a + b)[1..] == a[1..] + b;
      FindJoined(a[1..], b, name);
    }
  }

  /** One row's setting is found under its own name only. */
  lemma FindOne(r: Row, name: string)
    requires Allowed(r) && r.line.Setting? && '\0' !in name
    ensures var l := r.line;
            var item := Item(l.name, |l.name| + 1, l.value, |l.value| + 1);
            Find([item], name) == if l.name == name then Some(item) else None
  {
    NameHasNoNul(r);
    SameMeansEqual(r.line.name, name, 0, |r.line.name| + 1);
  }

  lemma {:induction false} NotInSettings(rows: seq<Row>, name: string)
    requires (forall i :: 0 <= i < |rows| ==> Allowed(rows[i])) && '\0' !in name
    requires forall i :: 0 <= i < |rows| ==> !Sets(rows[i], name)
    ensures Find(Settings(rows), name) == None
    decreases |rows|
  {
    if rows != [] {
      hide Allowed, Find;
      NotInSettings(rows[1..], name);
      if rows[0].line.Setting? {
        var l := rows[0].line;
        FindOne(rows[0], name);
        FindJoined(Settings(rows[1..]), [Item(l.name, |l.name| + 1, l.value, |l.value| + 1)], name);
      } else {
        assert Settings(rows) == Settings(rows[1..]);
      }
    }
  }

  lemma {:induction false} FoundInSettings(rows: seq<Row>, k: nat)
    requires forall i :: 0 <= i < |rows| ==> Allowed(rows[i])
    requires k < |rows| && rows[k].line.Setting?
    requires forall i :: k < i < |rows| ==> !Sets(rows[i], rows[k].line.name)
    ensures var l := rows[k].line;
            Find(Settings(rows), l.name) == Some(Item(l.name, |l.name| + 1, l.value, |l.value| + 1))
    decreases |rows|
  {
    hide Allowed, Find;
    var l := rows[k].line;
    NameHasNoNul(rows[k]);
    if rows[0].line.Setting? {
      var f := rows[0].line;
      FindOne(rows[0], l.name);
      FindJoined(Settings(rows[1..]), [Item(f.name, |f.name| + 1, f.value, |f.value| + 1)], l.name);
    } else {
      assert Settings(rows) == Settings(rows[1..]);
    }
    if k == 0 {
      NotInSettings(rows[1..], l.name);
    } else {
      FoundInSettings(rows[1..], k - 1);
    }
  }

  /** One setting by itself, with any blanks and line end. */
  lemma LineParsed(name: string, before: string, after: string, value: string, eol: string)
    requires name != "" && forall i :: 0 <= i < |name| ==>
               'a' <= name[i] <= 'z' || 'A' <= name[i] <= 'Z' || '0' <= name[i] <= '9' || name[i] == ':'
    requires forall i :: 0 <= i < |before| ==> before[i] == ' ' || before[i] == '\t'
    requires forall i :: 0 <= i < |after| ==> after[i] == ' ' || after[i] == '\t'
    requires value != "" && value[0] != '"' && forall i :: 0 <= i < |value| ==>
               && value[i] != ' ' && value[i] != '\t' && value[i] != '\r' && value[i] != '\n' && value[i] != '\0'
    requires eol == "\n" || eol == "\r" || eol == "\r\n"
    ensures Parse(name + before + "=" + after + value + eol) == Done(true, [Item(name, |name| + 1, value, |value| + 1)])
  {
    hide Run, Parse, Printed, Settings;
    var row := Row("", Setting(name, before, after, value, false), eol);
    RowsParsed([row]);
    OneRow(row);
    assert row.indent + Written(row.line) == Written(row.line);
  }

  lemma OneRow(row: Row)
    ensures Printed([row]) == row.indent + Written(row.line) + row.eol
    ensures row.line.Setting? ==>
              Settings([row]) == [Item(row.line.name, |row.line.name| + 1, row.line.value, |row.line.value| + 1)]
  {
    hide Written;
    assert [row][1..] == [];
  }

  // ---------- what is refused ----------

  /** Whatever else the text holds, it is not accepted, and no item is left. */
  predicate Refused(text: string) {
    Parse(text).Undefined? || Parse(text) == Done(false, [])
  }

  lemma NotGoing(text: string)
    requires !Succeeds(text, Start([]))
    ensures Refused(text)
  {
    hide Run;
    FailureIsEmpty(text, Start([]));
  }

  /** A text that starts with a name succeeds only from what stands behind the name and blanks. */
  lemma SuccessAtMark(text: string, end: nat, p: nat)
    requires text != "" && text[0] != '#' && !IsSpace(text[0]) && !IsEol(text[0])
    requires 1 <= end <= p <= |text| && Span(text, 1, IsName) == end
    requires (forall i :: end <= i < p ==> IsSpace(text[i])) && (p < |text| ==> !IsSpace(text[p]))
    ensures Succeeds(text, Start([])) ==>
              exists m: Machine :: m.start == 0 && m.end == end && Going(text, AssignStep(text, m, p))
  {
    hide AssignStep, Run, Succeeds;
    var m := Start([]).(start := 0, end := end);
    if Succeeds(text, Start([])) {
      NameGoesOn(text, Start([]));
      if end < p {
        SpanIs(text, end + 1, p, IsSpace);
        BlanksGoOn(text, m, end);
        assert Going(text, AssignStep(text, m.(state := State.Assign, bp := p), p));
      } else {
        assert Going(text, AssignStep(text, m, p));
      }
    }
  }

  lemma NoMark(text: string, m: Machine, p: nat)
    requires m.start <= m.end <= |text| && p <= |text|
    requires p < |text| ==> text[p] != '=' && !IsSpace(text[p])
    ensures !Going(text, AssignStep(text, m, p))
  {
    hide Run, ValueStep;
  }

  /** Behind a name and blanks only an equals sign may stand: not any other character that could not
      belong to the name, and not the end of the text. */
  lemma NotASetting(name: string, before: string, rest: string)
    requires Named(name) && Blanks(before)
    requires rest != "" ==> rest[0] != '=' && rest[0] != ' ' && rest[0] != '\t'
    requires rest != "" && before == "" ==>
               && !('a' <= rest[0] <= 'z') && !('A' <= rest[0] <= 'Z') && !('0' <= rest[0] <= '9') && rest[0] != ':'
    ensures Refused(name + before + rest)
  {
    hide AssignStep, Run, Succeeds, Going;
    var text, end, p := name + before + rest, |name|, |name| + |before|;
    NameIn(name, before, rest);
    SuccessAtMark(text, end, p);
    if Succeeds(text, Start([])) {
      var m: Machine :| m.start == 0 && m.end == end && Going(text, AssignStep(text, m, p));
      NoMark(text, m, p);
    } else {
      NotGoing(text);
    }
  }

  lemma NameIn(name: string, before: string, rest: string)
    requires Named(name) && Blanks(before)
    requires rest != "" && before == "" ==> !IsName(rest[0])
    ensures var text, end := name + before + rest, |name|;
            && text[0] == name[0] && Span(text, 1, IsName) == end
            && (forall i :: end <= i < end + |before| ==> IsSpace(text[i]))
            && (rest != "" ==> text[end + |before|] == rest[0])
  {
    var text, end := name + before + rest, |name|;
    assert forall i :: 1 <= i < end ==> text[i] == name[i];
    assert forall i :: end <= i < end + |before| ==> text[i] == before[i - end];
    SpanIs(text, 1, end, IsName);
  }

  /** Behind a value only the end of the line may stand: no blank behind one without quotes, nothing
      behind one in quotes. */
  lemma NothingBehindValue(name: string, before: string, after: string, value: string, quotes: bool, c: char,
                           rest: string)
    requires Named(name) && Blanks(before) && Blanks(after) && Valued(value, quotes)
    requires if quotes then c != '\r' && c != '\n' else c == ' ' || c == '\t'
    ensures Refused(name + before + ("=" + after + (if quotes then "\"" + value + "\"" else value) + [c] + rest))
  {
    hide AssignStep, Run, Succeeds, Going, Valued;
    var v := if quotes then "\"" + value + "\"" else value;
    var tail := "=" + after + v + [c] + rest;
    var text, end, p := name + before + tail, |name|, |name| + |before|;
    NameIn(name, before, tail);
    SuccessAtMark(text, end, p);
    if Succeeds(text, Start([])) {
      var m: Machine :| m.start == 0 && m.end == end && Going(text, AssignStep(text, m, p));
      if quotes {
        BehindQuoted(text, m, name + before, after, value, c, rest);
      } else {
        BehindBare(text, m, name + before, after, value, c, rest);
      }
    } else {
      NotGoing(text);
    }
  }

  lemma BehindQuoted(text: string, m: Machine, prefix: string, after: string, value: string, c: char, rest: string)
    requires Blanks(after) && Valued(value, true) && m.start <= m.end <= |prefix| && c != '\r' && c != '\n'
    requires text == prefix + ("=" + after + ("\"" + value + "\"") + [c] + rest)
    ensures !Going(text, AssignStep(text, m, |prefix|))
  {
    hide Blanks, Valued, Span, Going, AssignStep;
    PlacesBehind(text, prefix, after, "\"" + value + "\"", c, rest);
    QuoteBehind(text, m, |prefix|, |prefix| + 1 + |after|, value);
  }

  lemma BehindBare(text: string, m: Machine, prefix: string, after: string, value: string, c: char, rest: string)
    requires Blanks(after) && Valued(value, false) && m.start <= m.end <= |prefix| && (c == ' ' || c == '\t')
    requires text == prefix + ("=" + after + value + [c] + rest)
    ensures !Going(text, AssignStep(text, m, |prefix|))
  {
    hide Blanks, Valued, Span, Going, AssignStep;
    var q := |prefix| + 1 + |after|;
    ValueStarts(value, false);
    PlacesBehind(text, prefix, after, value, c, rest);
    BareStops(text, q, q + |value|, value);
    BareGoesNowhere(text, m, |prefix|, q);
  }

  lemma QuoteBehind(text: string, m: Machine, p: nat, q: nat, value: string)
    requires m.start <= m.end <= p < q && q + |value| + 2 < |text|
    requires text[p] == '=' && Span(text, p + 1, IsSpace) == q && Valued(value, true)
    requires text[q..q + |value| + 2] == "\"" + value + "\"" && !IsEol(text[q + |value| + 2])
    ensures !Going(text, AssignStep(text, m, p))
  {
    hide Run, QuoteStop, Store, Valued, Span, Going, AssignStep, Succeeds;
    Assoc("\"", value, "\"");
    QuotedChars(text, q, value);
    QuotedStops(text, q + 1, value);
    QuoteGoesNowhere(text, m, p, q);
  }

  lemma PlacesBehind(text: string, prefix: string, after: string, v: string, c: char, rest: string)
    requires text == prefix + ("=" + after + v + [c] + rest) && Blanks(after) && v != ""
    requires !IsSpace(v[0])
    ensures var p := |prefix|;
            var q := p + 1 + |after|;
            var e := q + |v|;
            && e < |text| && text[p] == '=' && text[q..e] == v && text[e] == c
            && Span(text, p + 1, IsSpace) == q && text[q] == v[0]
            && forall i :: q <= i < e ==> text[i] == v[i - q]
  {
    var p := |prefix|;
    var q := p + 1 + |after|;
    var e := q + |v|;
    assert forall i :: p + 1 <= i < q ==> text[i] == after[i - p - 1];
    assert forall i :: q <= i < e ==> text[i] == v[i - q];
    SpanIs(text, p + 1, q, IsSpace);
  }

  /** A quoted value with something behind it on its line. */
  lemma QuoteGoesNowhere(text: string, m: Machine, p: nat, q: nat)
    requires m.start <= m.end <= p < q < |text| && text[p] == '=' && Span(text, p + 1, IsSpace) == q && text[q] == '"'
    requires var e := QuoteStop(text, q + 1) + 1; e < |text| && !IsEol(text[e])
    ensures !Going(text, AssignStep(text, m, p))
  {
    hide Run, QuoteStop, Store, Span;
  }

  /** A bare value with something behind it on its line. */
  lemma BareGoesNowhere(text: string, m: Machine, p: nat, q: nat)
    requires m.start <= m.end <= p < q < |text| && text[p] == '=' && Span(text, p + 1, IsSpace) == q
    requires text[q] != '"' && !IsSpace(text[q]) && !IsEol(text[q])
    requires var e := Span(text, q + 1, IsBare); e < |text| && !IsEol(text[e])
    ensures !Going(text, AssignStep(text, m, p))
  {
    hide Run, QuoteStop, Store, Span;
  }

  lemma ValueStarts(value: string, quotes: bool)
    requires Valued(value, quotes)
    ensures !quotes ==> value != "" && value[0] != '"' && !IsSpace(value[0]) && !IsEol(value[0])
  {
  }

  lemma QuotedStops(text: string, a: nat, value: string)
    requires Valued(value, true) && a + |value| + 1 <= |text| && text[a..a + |value| + 1] == value + "\""
    ensures QuoteStop(text, a) == a + |value|
  {
    hide QuoteStop;
    assert value[0..] == value;
    QuotableIs(value, 0);
    QuoteWithin(text, a, value, 0);
  }

  lemma BareStops(text: string, q: nat, e: nat, value: string)
    requires Valued(value, false) && e == q + |value| < |text| && (text[e] == ' ' || text[e] == '\t')
    requires forall i :: q <= i < e ==> text[i] == value[i - q]
    ensures Span(text, q + 1, IsBare) == e
  {
    SpanIs(text, q + 1, e, IsBare);
  }
}
