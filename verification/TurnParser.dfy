/** The turn parser: the response format that the prompt prescribes, and the lenient line parser
    that reads responses back.

    Trimming, the recognition of announcements and the text form of numbers are a `Host` of
    functions; `Shipped` is the host of the program. Numbers are reals; the text form of a number
    that was ever read, or of a bound of the clamp, reads back as the same number. */
module TurnParser {
  import opened Text

  datatype Action = Action(kind: string, description: string)

  datatype TurnOutput = TurnOutput(actions: seq<Action>, explanation: string, confidence: Option<real>)

  datatype Result = Ok(output: TurnOutput) | Empty

  /** What a line announces, with the text after the announcement. */
  datatype Line =
    | ActionLine(text: string)
    | ExplanationLine(text: string)
    | ConfidenceLine(text: string)
    | OtherLine(text: string)

  datatype Host = Host(
    trim: string -> string,
    announce: string -> Line,
    show: real -> string,
    parse: string -> Option<real>)

  const EM_DASH: char := '\U{2014}'

  const NOTHING := TurnOutput([], "", None)

  // Announcements --------------------------------------------------------------

  function StripPrefix(text: string, prefix: string): Option<string> {
    if StartsWith(LowerAll(text), LowerAll(prefix)) then Some(text[|prefix|..]) else None
  }

  function Announce(line: string): Line {
    var action := StripPrefix(line, "ACTION:");
    var explanation := StripPrefix(line, "EXPLANATION:");
    var confidence := StripPrefix(line, "CONFIDENCE:");
    if action.Some? then ActionLine(action.value)
    else if explanation.Some? then ExplanationLine(explanation.value)
    else if confidence.Some? then ConfidenceLine(confidence.value)
    else OtherLine(line)
  }

  function Shipped(show: real -> string, parse: string -> Option<real>): Host { Host(Trim, Announce, show, parse) }

  // The parser ---------------------------------------------------------------

  /** What one line adds to the output. */
  datatype Said =
    | Actions(actions: seq<Action>)
    | Explained(text: string)
    | Rated(value: Option<real>)
    | Other(text: string)

  function SplitAction(rest: string): Option<(string, string)> {
    var dash := SplitOnce(rest, [EM_DASH]);
    if dash.Some? then dash else SplitOnce(rest, " - ")
  }

  function MakeAction(rest: string, kind: string, desc: string): seq<Action> {
    if kind != "" && desc != "" then [Action(kind, desc)]
    else if rest != "" then [Action("unknown", rest)] else []
  }

  function ReadAction(text: string, trim: string -> string): seq<Action> {
    var rest := trim(text);
    match SplitAction(rest)
    case None => MakeAction(rest, "", "")
    case Some(p) => MakeAction(rest, trim(p.0), trim(p.1))
  }

  function Clamp(v: real): real { if v < 0.0 then 0.0 else if v > 1.0 then 1.0 else v }

  function ReadConfidence(text: string, host: Host): Option<real> {
    var v := host.parse(host.trim(text));
    if v.Some? then Some(Clamp(v.value)) else None
  }

  function Interpret(raw: string, host: Host): Said {
    match host.announce(host.trim(raw))
    case ActionLine(text) => Actions(ReadAction(text, host.trim))
    case ExplanationLine(text) => Explained(host.trim(text))
    case ConfidenceLine(text) => Rated(ReadConfidence(text, host))
    case OtherLine(text) => Other(text)
  }

  function Apply(out: TurnOutput, said: Said): TurnOutput {
    match said
    case Actions(actions) => out.(actions := out.actions + actions)
    case Explained(text) => if text != "" then out.(explanation := text) else out
    case Rated(value) => if value.Some? then out.(confidence := value) else out
    case Other(text) =>
      if out.actions == [] && text != "" && out.explanation == "" then out.(explanation := text) else out
  }

  function ReadLines(lines: seq<string>, read: string -> Said): TurnOutput {
    if lines == [] then NOTHING else Apply(ReadLines(lines[..|lines| - 1], read), read(lines[|lines| - 1]))
  }

  function Interpreter(host: Host): string -> Said { raw => Interpret(raw, host) }

  function ParseWith(raw: string, trim: string -> string, read: string -> Said): Result {
    if trim(raw) == "" then Empty else Ok(ReadLines(Lines(trim(raw)), read))
  }

  function Parse(raw: string, host: Host): Result { ParseWith(raw, host.trim, Interpreter(host)) }

  // What is assumed of the host --------------------------------------------------

  predicate Clean(s: string, trim: string -> string) { trim(s) == s && '\n' !in s }

  predicate IsLine(s: string, trim: string -> string) { Clean(s, trim) && s != "" }

  predicate IsPlain(c: char) { 'A' <= c <= 'Z' || 'a' <= c <= 'z' || c == ':' }

  /** Trimming twice is trimming once, and adds nothing. */
  ghost predicate Settles(trim: string -> string) {
    trim("") == "" && (forall s :: trim(trim(s)) == trim(s)) && forall s, c | c in trim(s) :: c in s
  }

  /** Spaces at the ends are dropped, and a trimmed line has no carriage return at its end. */
  ghost predicate Sheds(trim: string -> string) {
    && (forall v | trim(v) == v :: trim(" " + v) == v)
    && (forall v | trim(v) == v :: trim(v + " ") == v)
    && forall v | trim(v) == v :: StripCr(v) == v
  }

  /** Text whose ends are not blank is left alone. */
  ghost predicate Spans(trim: string -> string) {
    && (forall a, m, b | trim(a) == a && trim(b) == b && a != "" && b != "" :: trim(a + m + b) == a + m + b)
    && forall v: string | v != "" && IsPlain(v[0]) && IsPlain(v[|v| - 1]) :: trim(v) == v
  }

  ghost predicate Trims(trim: string -> string) { Settles(trim) && Sheds(trim) && Spans(trim) }

  ghost predicate IsTail(line: string, r: Line) {
    |r.text| <= |line| && r.text == line[|line| - |r.text|..] && (r.OtherLine? ==> r.text == line)
  }

  ghost predicate Announces(announce: string -> Line) {
    && (forall v :: announce("ACTION:" + v) == ActionLine(v))
    && (forall v :: announce("EXPLANATION:" + v) == ExplanationLine(v))
    && (forall v :: announce("CONFIDENCE:" + v) == ConfidenceLine(v))
    && forall line :: IsTail(line, announce(line))
  }

  predicate Shows(v: real, host: Host) { IsLine(host.show(v), host.trim) && host.parse(host.show(v)) == Some(v) }

  /** What is read can be shown and read again. */
  ghost predicate RoundTrips(host: Host) {
    (forall s | host.parse(s).Some? :: Shows(host.parse(s).value, host)) && Shows(0.0, host) && Shows(1.0, host)
  }

  ghost predicate Fit(host: Host) { Trims(host.trim) && Announces(host.announce) && RoundTrips(host) }

  // Well-formed outputs --------------------------------------------------------

  predicate GoodAction(a: Action, trim: string -> string) {
    IsLine(a.kind, trim) && EM_DASH !in a.kind && IsLine(a.description, trim)
  }

  ghost predicate GoodActions(actions: seq<Action>, good: Action -> bool) {
    forall i | 0 <= i < |actions| :: good(actions[i])
  }

  predicate GoodConfidence(c: Option<real>, host: Host) {
    c.Some? ==> 0.0 <= c.value <= 1.0 && Shows(c.value, host)
  }

  /** The tests an output must pass, part by part. */
  datatype Tests = Tests(action: Action -> bool, text: string -> bool, confidence: Option<real> -> bool)

  function TestsOf(host: Host): Tests {
    Tests(a => GoodAction(a, host.trim), s => Clean(s, host.trim), c => GoodConfidence(c, host))
  }

  ghost predicate Passes(out: TurnOutput, t: Tests) {
    GoodActions(out.actions, t.action) && t.text(out.explanation) && t.confidence(out.confidence)
  }

  ghost predicate WellFormed(out: TurnOutput, host: Host) { Passes(out, TestsOf(host)) }

  ghost predicate SaidPasses(said: Said, t: Tests) {
    match said
    case Actions(actions) => GoodActions(actions, t.action)
    case Explained(text) => t.text(text)
    case Rated(value) => t.confidence(value)
    case Other(text) => t.text(text)
  }

  lemma DashFree(s: string)
    ensures Contains(s, [EM_DASH]) <==> EM_DASH in s
  {
    forall i | 0 <= i < |s| && s[i] == EM_DASH ensures At(s, [EM_DASH], i) {
      assert s[i..i + 1] == [s[i]];
    }
    forall i | At(s, [EM_DASH], i) ensures EM_DASH in s {
      assert s[i..i + 1][0] == s[i];
    }
  }

  lemma SplitActionFree(rest: string)
    requires '\n' !in rest && SplitAction(rest).Some?
    ensures var (a, b) := SplitAction(rest).value; '\n' !in a && EM_DASH !in a && '\n' !in b
  {
    var (a, b) := SplitAction(rest).value;
    SplitParts(rest, [EM_DASH]);
    SplitParts(rest, " - ");
    DashFree(rest);
    DashFree(a);
    assert forall c | c in a || c in b :: c in rest;
  }

  lemma TrimIsClean(s: string, trim: string -> string)
    requires Trims(trim) && '\n' !in s
    ensures Clean(trim(s), trim)
  {
  }

  lemma UnknownIsLine(trim: string -> string)
    requires Trims(trim)
    ensures IsLine("unknown", trim)
  {
  }

  lemma ActionNameIsLine(trim: string -> string)
    requires Trims(trim)
    ensures IsLine("ACTION:", trim)
  {
  }

  lemma ExplanationNameIsLine(trim: string -> string)
    requires Trims(trim)
    ensures IsLine("EXPLANATION:", trim)
  {
  }

  lemma ConfidenceNameIsLine(trim: string -> string)
    requires Trims(trim)
    ensures IsLine("CONFIDENCE:", trim)
  {
  }

  lemma MakeActionGood(rest: string, kind: string, desc: string, trim: string -> string)
    requires Clean(rest, trim) && Clean(kind, trim) && Clean(desc, trim) && EM_DASH !in kind
    requires IsLine("unknown", trim)
    ensures GoodActions(MakeAction(rest, kind, desc), a => GoodAction(a, trim))
  {
    assert EM_DASH !in "unknown";
  }

  lemma ReadActionGood(text: string, trim: string -> string)
    requires '\n' !in text && Trims(trim)
    ensures GoodActions(ReadAction(text, trim), a => GoodAction(a, trim))
  {
    var rest := trim(text);
    UnknownIsLine(trim);
    TrimIsClean(text, trim);
    if SplitAction(rest).Some? {
      SplitActionFree(rest);
      var (a, b) := SplitAction(rest).value;
      TrimIsClean(a, trim);
      TrimIsClean(b, trim);
      MakeActionGood(rest, trim(a), trim(b), trim);
    } else {
      MakeActionGood(rest, "", "", trim);
    }
  }

  lemma AnnounceFree(line: string, announce: string -> Line)
    requires Announces(announce) && '\n' !in line
    ensures '\n' !in announce(line).text && (announce(line).OtherLine? ==> announce(line).text == line)
  {
    assert IsTail(line, announce(line));
  }

  lemma ReadConfidenceGood(text: string, host: Host)
    requires RoundTrips(host)
    ensures GoodConfidence(ReadConfidence(text, host), host)
  {
  }

  lemma InterpretGood(raw: string, host: Host)
    requires '\n' !in raw && Fit(host)
    ensures SaidPasses(Interpret(raw, host), TestsOf(host))
  {
    var line := host.trim(raw);
    TrimIsClean(raw, host.trim);
    AnnounceFree(line, host.announce);
    match host.announce(line)
    case ActionLine(text) =>
      ReadActionGood(text, host.trim);
    case ExplanationLine(text) =>
      TrimIsClean(text, host.trim);
    case ConfidenceLine(text) =>
      ReadConfidenceGood(text, host);
    case OtherLine(text) =>
  }

  lemma ApplyPasses(out: TurnOutput, said: Said, t: Tests)
    requires Passes(out, t) && SaidPasses(said, t)
    ensures Passes(Apply(out, said), t)
  {
  }

  lemma {:induction false} ReadLinesPasses(lines: seq<string>, read: string -> Said, t: Tests)
    requires Passes(NOTHING, t) && forall i | 0 <= i < |lines| :: SaidPasses(read(lines[i]), t)
    ensures Passes(ReadLines(lines, read), t)
  {
    if lines != [] {
      ReadLinesPasses(lines[..|lines| - 1], read, t);
      ApplyPasses(ReadLines(lines[..|lines| - 1], read), read(lines[|lines| - 1]), t);
    }
  }

  lemma ParseWithPasses(raw: string, trim: string -> string, read: string -> Said, t: Tests)
    requires Passes(NOTHING, t) && forall line: string | '\n' !in line :: SaidPasses(read(line), t)
    requires ParseWith(raw, trim, read).Ok?
    ensures Passes(ParseWith(raw, trim, read).output, t)
  {
    var lines := Lines(trim(raw));
    LinesHaveNoNewline(trim(raw));
    assert forall i | 0 <= i < |lines| :: lines[i] in lines;
    ReadLinesPasses(lines, read, t);
  }

  lemma NothingPasses(host: Host)
    requires Trims(host.trim)
    ensures Passes(NOTHING, TestsOf(host))
  {
  }

  /** Whatever the text, the parser returns a well-formed output. */
  lemma ParsesAreWellFormed(raw: string, host: Host)
    requires Fit(host)
    ensures Parse(raw, host).Ok? ==> WellFormed(Parse(raw, host).output, host)
  {
    NothingPasses(host);
    forall line: string | '\n' !in line ensures SaidPasses(Interpreter(host)(line), TestsOf(host)) {
      InterpretGood(line, host);
    }
    if Parse(raw, host).Ok? { ParseWithPasses(raw, host.trim, Interpreter(host), TestsOf(host)); }
  }

  // The prescribed format ------------------------------------------------------

  /** What stands after the announcement of a field. */
  function Padded(value: string): string { if value == "" then "" else " " + value }

  function ActionText(a: Action): string { a.kind + (" " + [EM_DASH] + " ") + a.description }

  function ActionField(a: Action): string { "ACTION:" + Padded(ActionText(a)) }

  function ExplanationField(e: string): string { "EXPLANATION:" + Padded(e) }

  function ConfidenceField(shown: string): string { "CONFIDENCE:" + Padded(shown) }

  function ActionFields(actions: seq<Action>, field: Action -> string): seq<string> {
    if actions == [] then [] else
    var n := |actions| - 1;
    ActionFields(actions[..n], field) + [field(actions[n])]
  }

  function PrintLines(out: TurnOutput, show: real -> string): seq<string> {
    ActionFields(out.actions, ActionField) + [ExplanationField(out.explanation)] +
    if out.confidence.Some? then [ConfidenceField(show(out.confidence.value))] else []
  }

  function Print(out: TurnOutput, show: real -> string): string { Join(PrintLines(out, show), "\n") }

  // Reading the printed lines --------------------------------------------------

  lemma FieldIsLine(name: string, value: string, trim: string -> string)
    requires Trims(trim) && IsLine(name, trim) && Clean(value, trim)
    ensures IsLine(name + Padded(value), trim)
  {
    if value == "" {
      assert name + Padded(value) == name;
    } else {
      assert name + Padded(value) == name + " " + value;
    }
  }

  lemma ActionTextIsLine(a: Action, trim: string -> string)
    requires Trims(trim) && GoodAction(a, trim)
    ensures IsLine(ActionText(a), trim)
  {
  }

  lemma TrimPadded(value: string, trim: string -> string)
    requires Trims(trim) && Clean(value, trim)
    ensures trim(Padded(value)) == value
  {
  }

  lemma SplitPrinted(a: Action)
    requires EM_DASH !in a.kind
    ensures SplitAction(ActionText(a)) == Some((a.kind + " ", " " + a.description))
  {
    var front, text := a.kind + " ", ActionText(a);
    assert text == front + [EM_DASH] + (" " + a.description);
    assert EM_DASH !in front;
    forall i | 0 <= i < |front| ensures !At(text, [EM_DASH], i) {
      assert text[i..i + 1] == [front[i]];
    }
    SplitAtFirst(front, [EM_DASH], " " + a.description);
  }

  lemma ReadPrintedAction(a: Action, trim: string -> string)
    requires Trims(trim) && GoodAction(a, trim)
    ensures ReadAction(Padded(ActionText(a)), trim) == [a]
  {
    ActionTextIsLine(a, trim);
    TrimPadded(ActionText(a), trim);
    SplitPrinted(a);
    assert trim(a.kind + " ") == a.kind && trim(" " + a.description) == a.description;
  }

  lemma SplitHyphen(kind: string, desc: string)
    requires EM_DASH !in kind && EM_DASH !in desc && !Contains(kind + " -", " - ")
    ensures SplitAction(kind + " - " + desc) == Some((kind, desc))
  {
    var text, front := kind + " - " + desc, kind + " -";
    DashFree(text);
    SplitParts(text, [EM_DASH]);
    forall i | 0 <= i < |kind| ensures !At(text, " - ", i) {
      assert text[i..i + 3] == front[i..i + 3];
      assert !At(front, " - ", i);
    }
    SplitAtFirst(kind, " - ", desc);
  }

  /** A hyphen between spaces stands in for the em dash when there is none. */
  lemma ReadHyphenAction(a: Action, trim: string -> string)
    requires Trims(trim) && GoodAction(a, trim) && EM_DASH !in a.description && !Contains(a.kind + " -", " - ")
    ensures ReadAction(a.kind + " - " + a.description, trim) == [a]
  {
    SplitHyphen(a.kind, a.description);
    assert trim(a.kind + " - " + a.description) == a.kind + " - " + a.description;
  }

  /** A line with neither dash is an action of unknown kind. */
  lemma ReadPlainAction(text: string, trim: string -> string)
    requires IsLine(text, trim) && EM_DASH !in text && !Contains(text, " - ")
    ensures ReadAction(text, trim) == [Action("unknown", text)]
  {
    DashFree(text);
    SplitParts(text, [EM_DASH]);
    SplitParts(text, " - ");
  }

  /** A line with a blank kind or description is an action of unknown kind, dash and all. */
  lemma ReadHalfAction(a: string, b: string, trim: string -> string)
    requires IsLine(a + [EM_DASH] + b, trim) && EM_DASH !in a && (trim(a) == "" || trim(b) == "")
    ensures ReadAction(a + [EM_DASH] + b, trim) == [Action("unknown", a + [EM_DASH] + b)]
  {
    var text := a + [EM_DASH] + b;
    forall i | 0 <= i < |a| ensures !At(text, [EM_DASH], i) {
      assert text[i..i + 1][0] == text[i] == a[i];
    }
    SplitAtFirst(a, [EM_DASH], b);
  }

  /** A number is read as the nearest confidence, and anything else as none. */
  lemma ConfidenceIsNearest(text: string, host: Host, u: real)
    requires 0.0 <= u <= 1.0
    ensures var v, r := host.parse(host.trim(text)), ReadConfidence(text, host);
      && (r.Some? <==> v.Some?)
      && (v.Some? ==> 0.0 <= r.value <= 1.0 && Gap(r.value, v.value) <= Gap(u, v.value))
  {
  }

  function Gap(a: real, b: real): real { if a < b then b - a else a - b }

  /** Unannounced lines: the first one that is not blank is the explanation. */
  lemma {:induction false} ReadProse(line: string, more: seq<string>, host: Host)
    requires IsLine(line, host.trim) && host.announce(line) == OtherLine(line)
    requires forall i | 0 <= i < |more| :: host.announce(host.trim(more[i])).OtherLine?
    ensures ReadLines([line] + more, Interpreter(host)) == TurnOutput([], line, None)
  {
    if more == [] {
      ReadSnoc([], line, Interpreter(host));
      assert [line] + more == [] + [line];
    } else {
      var front, last := more[..|more| - 1], more[|more| - 1];
      ReadProse(line, front, host);
      ReadSnoc([line] + front, last, Interpreter(host));
      assert [line] + more == [line] + front + [last];
    }
  }

  lemma ActionFieldIsLine(a: Action, trim: string -> string)
    requires Trims(trim) && GoodAction(a, trim)
    ensures IsLine(ActionField(a), trim)
  {
    ActionTextIsLine(a, trim);
    ActionNameIsLine(trim);
    FieldIsLine("ACTION:", ActionText(a), trim);
  }

  lemma ExplanationFieldIsLine(e: string, trim: string -> string)
    requires Trims(trim) && Clean(e, trim)
    ensures IsLine(ExplanationField(e), trim)
  {
    ExplanationNameIsLine(trim);
    FieldIsLine("EXPLANATION:", e, trim);
  }

  lemma ConfidenceFieldIsLine(shown: string, trim: string -> string)
    requires Trims(trim) && Clean(shown, trim)
    ensures IsLine(ConfidenceField(shown), trim)
  {
    ConfidenceNameIsLine(trim);
    FieldIsLine("CONFIDENCE:", shown, trim);
  }

  lemma InterpretAction(a: Action, host: Host)
    requires Fit(host) && GoodAction(a, host.trim)
    ensures Interpret(ActionField(a), host) == Actions([a])
  {
    ActionFieldIsLine(a, host.trim);
    ReadPrintedAction(a, host.trim);
  }

  lemma InterpretExplanation(e: string, host: Host)
    requires Fit(host) && Clean(e, host.trim)
    ensures Interpret(ExplanationField(e), host) == Explained(e)
  {
    ExplanationFieldIsLine(e, host.trim);
    TrimPadded(e, host.trim);
  }

  lemma InterpretConfidence(v: real, host: Host)
    requires Fit(host) && 0.0 <= v <= 1.0 && Shows(v, host)
    ensures Interpret(ConfidenceField(host.show(v)), host) == Rated(Some(v))
  {
    ConfidenceFieldIsLine(host.show(v), host.trim);
    TrimPadded(host.show(v), host.trim);
  }

  lemma ReadSnoc(lines: seq<string>, line: string, read: string -> Said)
    ensures ReadLines(lines + [line], read) == Apply(ReadLines(lines, read), read(line))
  {
    assert (lines + [line])[..|lines|] == lines;
  }

  lemma {:induction false} ReadActionFields(actions: seq<Action>, field: Action -> string, read: string -> Said)
    requires forall i | 0 <= i < |actions| :: read(field(actions[i])) == Actions([actions[i]])
    ensures ReadLines(ActionFields(actions, field), read) == TurnOutput(actions, "", None)
  {
    if actions != [] {
      var front, last := actions[..|actions| - 1], actions[|actions| - 1];
      ReadActionFields(front, field, read);
      ReadSnoc(ActionFields(front, field), field(last), read);
      assert actions == front + [last];
    }
  }

  lemma ReadFields(lines: seq<string>, e: string, c: string, read: string -> Said, out: TurnOutput)
    requires ReadLines(lines, read) == TurnOutput(out.actions, "", None)
    requires read(e) == Explained(out.explanation)
    requires out.confidence.Some? ==> read(c) == Rated(out.confidence)
    ensures ReadLines(lines + [e] + if out.confidence.Some? then [c] else [], read) == out
  {
    ReadSnoc(lines, e, read);
    if out.confidence.Some? {
      ReadSnoc(lines + [e], c, read);
    } else {
      assert lines + [e] + [] == lines + [e];
    }
  }

  lemma ReadPrinted(out: TurnOutput, host: Host)
    requires WellFormed(out, host) && Fit(host)
    ensures ReadLines(PrintLines(out, host.show), Interpreter(host)) == out
  {
    forall i | 0 <= i < |out.actions|
      ensures Interpreter(host)(ActionField(out.actions[i])) == Actions([out.actions[i]])
    {
      InterpretAction(out.actions[i], host);
    }
    ReadActionFields(out.actions, ActionField, Interpreter(host));
    InterpretExplanation(out.explanation, host);
    var c := "";
    if out.confidence.Some? {
      InterpretConfidence(out.confidence.value, host);
      c := ConfidenceField(host.show(out.confidence.value));
    }
    ReadFields(ActionFields(out.actions, ActionField), ExplanationField(out.explanation), c, Interpreter(host), out);
  }

  // Splitting the printed text -------------------------------------------------

  ghost predicate AllLines(lines: seq<string>, trim: string -> string) {
    forall i | 0 <= i < |lines| :: IsLine(lines[i], trim)
  }

  lemma LinesSnoc(a: seq<string>, b: string, trim: string -> string)
    requires AllLines(a, trim) && IsLine(b, trim)
    ensures AllLines(a + [b], trim)
  {
  }

  lemma {:induction false} ActionFieldsAreLines(actions: seq<Action>, field: Action -> string, trim: string -> string)
    requires forall i | 0 <= i < |actions| :: IsLine(field(actions[i]), trim)
    ensures AllLines(ActionFields(actions, field), trim)
  {
    if actions != [] {
      var front, last := actions[..|actions| - 1], actions[|actions| - 1];
      ActionFieldsAreLines(front, field, trim);
      LinesSnoc(ActionFields(front, field), field(last), trim);
    }
  }

  lemma PrintedActionsAreLines(actions: seq<Action>, trim: string -> string)
    requires Trims(trim) && forall i | 0 <= i < |actions| :: GoodAction(actions[i], trim)
    ensures AllLines(ActionFields(actions, ActionField), trim)
  {
    forall i | 0 <= i < |actions| ensures IsLine(ActionField(actions[i]), trim) {
      ActionFieldIsLine(actions[i], trim);
    }
    ActionFieldsAreLines(actions, ActionField, trim);
  }

  lemma PartsAreLines(lines: seq<string>, e: string, c: string, some: bool, trim: string -> string)
    requires AllLines(lines, trim) && IsLine(e, trim) && (some ==> IsLine(c, trim))
    ensures AllLines(lines + [e] + if some then [c] else [], trim)
  {
    LinesSnoc(lines, e, trim);
    if some {
      LinesSnoc(lines + [e], c, trim);
    } else {
      assert lines + [e] + [] == lines + [e];
    }
  }

  lemma PrintLinesAreLines(out: TurnOutput, host: Host)
    requires WellFormed(out, host) && Trims(host.trim)
    ensures AllLines(PrintLines(out, host.show), host.trim) && PrintLines(out, host.show) != []
  {
    PrintedActionsAreLines(out.actions, host.trim);
    ExplanationFieldIsLine(out.explanation, host.trim);
    var c := "";
    if out.confidence.Some? {
      ConfidenceFieldIsLine(host.show(out.confidence.value), host.trim);
      c := ConfidenceField(host.show(out.confidence.value));
    }
    PartsAreLines(ActionFields(out.actions, ActionField), ExplanationField(out.explanation), c,
                  out.confidence.Some?, host.trim);
  }

  lemma {:induction false} LinesOfJoin(lines: seq<string>, trim: string -> string)
    requires AllLines(lines, trim) && lines != [] && Trims(trim)
    ensures Lines(Join(lines, "\n")) == lines
  {
    if |lines| == 1 {
      LinesLast(lines[0]);
    } else {
      LinesOfJoin(lines[1..], trim);
      LinesCons(lines[0], Join(lines[1..], "\n"));
      assert lines == [lines[0]] + lines[1..];
    }
  }

  lemma {:induction false} JoinIsTrimmed(lines: seq<string>, trim: string -> string)
    requires AllLines(lines, trim) && lines != [] && Trims(trim)
    ensures Join(lines, "\n") != "" && trim(Join(lines, "\n")) == Join(lines, "\n")
  {
    if |lines| > 1 { JoinIsTrimmed(lines[1..], trim); }
  }

  /** Printing an output as prescribed and parsing it gives the output back. */
  lemma ParseUndoesPrint(out: TurnOutput, host: Host)
    requires WellFormed(out, host) && Fit(host)
    ensures Parse(Print(out, host.show), host) == Ok(out)
  {
    PrintLinesAreLines(out, host);
    JoinIsTrimmed(PrintLines(out, host.show), host.trim);
    LinesOfJoin(PrintLines(out, host.show), host.trim);
    ReadPrinted(out, host);
  }

  /** The outputs the parser can produce are exactly the well-formed ones. */
  lemma ParsedIffWellFormed(out: TurnOutput, host: Host)
    requires Fit(host)
    ensures (exists raw :: Parse(raw, host) == Ok(out)) <==> WellFormed(out, host)
  {
    if WellFormed(out, host) { ParseUndoesPrint(out, host); }
    forall raw | Parse(raw, host) == Ok(out) ensures WellFormed(out, host) {
      ParsesAreWellFormed(raw, host);
    }
  }

  // The shipped host -----------------------------------------------------------

  lemma StripOwnPrefix(name: string, rest: string, prefix: string)
    requires LowerAll(name) == LowerAll(prefix)
    ensures StripPrefix(name + rest, prefix) == Some(rest)
  {
    LowerAllConcat(name, rest);
    assert |name| == |LowerAll(name)| == |LowerAll(prefix)| == |prefix|;
    assert LowerAll(name + rest)[..|LowerAll(name)|] == LowerAll(name);
    assert (name + rest)[|name|..] == rest;
  }

  lemma StripOtherPrefix(name: string, rest: string, other: string)
    requires name != "" && other != "" && Lower(name[0]) != Lower(other[0])
    ensures StripPrefix(name + rest, other) == None
  {
    var text := LowerAll(name + rest);
    assert text[0] == Lower(name[0]);
    assert |other| <= |text| ==> text[..|other|][0] == text[0];
  }

  /** Announcements are recognized in any letter case. */
  lemma AnnounceIgnoresCase(name: string, v: string)
    ensures LowerAll(name) == LowerAll("ACTION:") ==> Announce(name + v) == ActionLine(v)
    ensures LowerAll(name) == LowerAll("EXPLANATION:") ==> Announce(name + v) == ExplanationLine(v)
    ensures LowerAll(name) == LowerAll("CONFIDENCE:") ==> Announce(name + v) == ConfidenceLine(v)
  {
    if LowerAll(name) == LowerAll("ACTION:") {
      StripOwnPrefix(name, v, "ACTION:");
    } else if LowerAll(name) == LowerAll("EXPLANATION:") {
      AnyCaseExplanation(name, v);
    } else if LowerAll(name) == LowerAll("CONFIDENCE:") {
      AnyCaseConfidence(name, v);
    }
  }

  lemma AnyCaseExplanation(name: string, v: string)
    requires LowerAll(name) == LowerAll("EXPLANATION:")
    ensures Announce(name + v) == ExplanationLine(v)
  {
    SameStart(name, "EXPLANATION:");
    StripOtherPrefix(name, v, "ACTION:");
    StripOwnPrefix(name, v, "EXPLANATION:");
  }

  lemma AnyCaseConfidence(name: string, v: string)
    requires LowerAll(name) == LowerAll("CONFIDENCE:")
    ensures Announce(name + v) == ConfidenceLine(v)
  {
    SameStart(name, "CONFIDENCE:");
    StripOtherPrefix(name, v, "ACTION:");
    StripOtherPrefix(name, v, "EXPLANATION:");
    StripOwnPrefix(name, v, "CONFIDENCE:");
  }

  lemma SameStart(name: string, prefix: string)
    requires LowerAll(name) == LowerAll(prefix) && prefix != ""
    ensures name != "" && Lower(name[0]) == Lower(prefix[0])
  {
    assert |LowerAll(name)| == |name|;
    assert LowerAll(name)[0] == LowerAll(prefix)[0];
  }

  lemma AnnounceFields(v: string)
    ensures Announce("ACTION:" + v) == ActionLine(v)
    ensures Announce("EXPLANATION:" + v) == ExplanationLine(v)
    ensures Announce("CONFIDENCE:" + v) == ConfidenceLine(v)
  {
    AnnounceIgnoresCase("ACTION:", v);
    AnnounceIgnoresCase("EXPLANATION:", v);
    AnnounceIgnoresCase("CONFIDENCE:", v);
  }

  lemma AnnounceTail(line: string)
    ensures IsTail(line, Announce(line))
  {
  }

  lemma ShippedAnnounces()
    ensures Announces(Announce)
  {
    forall v
      ensures Announce("ACTION:" + v) == ActionLine(v)
      ensures Announce("EXPLANATION:" + v) == ExplanationLine(v)
      ensures Announce("CONFIDENCE:" + v) == ConfidenceLine(v)
    {
      AnnounceFields(v);
    }
    forall line ensures IsTail(line, Announce(line)) { AnnounceTail(line); }
  }

  lemma CleanIff(s: string)
    ensures Trim(s) == s <==> Trimmed(s)
  {
    TrimByClean(s, IsSpace);
  }

  lemma TrimKeepsMembers(s: string, c: char)
    requires c in Trim(s)
    ensures c in s
  {
    var pre, post := TrimByParts(s, IsSpace);
  }

  lemma TrimOneOff(v: string, c: char, p: char -> bool)
    requires p(c) && CleanBy(v, p)
    ensures TrimBy([c] + v, p) == v && TrimBy(v + [c], p) == v
  {
    TrimByPad([c], v, "", p);
    TrimByPad("", v, [c], p);
    assert [c] + v + "" == [c] + v && "" + v + [c] == v + [c];
  }

  lemma NoCr(v: string)
    requires Trimmed(v)
    ensures StripCr(v) == v
  {
  }

  lemma TrimSpaceOff(v: string)
    requires Trim(v) == v
    ensures Trim(" " + v) == v && Trim(v + " ") == v && StripCr(v) == v
  {
    CleanIff(v);
    NoCr(v);
    TrimOneOff(v, ' ', IsSpace);
  }

  lemma TrimEnds(a: string, m: string, b: string)
    requires Trim(a) == a && Trim(b) == b && a != "" && b != ""
    ensures Trim(a + m + b) == a + m + b
  {
    CleanIff(a);
    CleanIff(b);
    CleanIff(a + m + b);
  }

  lemma TrimTwice(s: string)
    ensures Trim(Trim(s)) == Trim(s)
  {
    TrimByClean(s, IsSpace);
    CleanIff(Trim(s));
  }

  lemma TrimNothing(v: string, p: char -> bool)
    requires v != "" && !p(v[0]) && !p(v[|v| - 1])
    ensures TrimBy(v, p) == v
  {
    TrimByClean(v, p);
  }

  lemma PlainIsNoSpace(c: char)
    requires IsPlain(c)
    ensures !IsSpace(c)
  {
  }

  lemma TrimPlain(v: string)
    requires v != "" && IsPlain(v[0]) && IsPlain(v[|v| - 1])
    ensures Trim(v) == v
  {
    PlainIsNoSpace(v[0]);
    PlainIsNoSpace(v[|v| - 1]);
    TrimNothing(v, IsSpace);
  }

  lemma ShippedSettles()
    ensures Settles(Trim)
  {
    forall s ensures Trim(Trim(s)) == Trim(s) { TrimTwice(s); }
    forall s, c | c in Trim(s) ensures c in s { TrimKeepsMembers(s, c); }
  }

  lemma ShippedSheds()
    ensures Sheds(Trim)
  {
    forall v | Trim(v) == v ensures Trim(" " + v) == v && Trim(v + " ") == v && StripCr(v) == v { TrimSpaceOff(v); }
  }

  lemma ShippedSpans()
    ensures Spans(Trim)
  {
    forall a, m, b | Trim(a) == a && Trim(b) == b && a != "" && b != "" ensures Trim(a + m + b) == a + m + b {
      TrimEnds(a, m, b);
    }
    forall v: string | v != "" && IsPlain(v[0]) && IsPlain(v[|v| - 1]) ensures Trim(v) == v { TrimPlain(v); }
  }

  lemma ShippedTrims()
    ensures Trims(Trim)
  {
    ShippedSettles();
    ShippedSheds();
    ShippedSpans();
  }

  /** The program's own host is fit whenever its numbers survive being shown. */
  lemma ShippedIsFit(show: real -> string, parse: string -> Option<real>)
    requires RoundTrips(Shipped(show, parse))
    ensures Fit(Shipped(show, parse))
  {
    ShippedAnnounces();
    ShippedTrims();
  }

  // Which line decides -----------------------------------------------------------

  predicate Explains(said: Said) { said.Explained? && said.text != "" }

  predicate Rates(said: Said) { said.Rated? && said.value.Some? }

  predicate Proposes(said: Said) { said.Actions? && said.actions != [] }

  predicate Tells(said: Said) { said.Other? && said.text != "" }

  /** No line from `i` up to `j` does this. */
  ghost predicate NoneIn(lines: seq<string>, read: string -> Said, does: Said -> bool, i: nat, j: nat) {
    forall m | i <= m < j && m < |lines| :: !does(read(lines[m]))
  }

  /** Line `i` does this and no later line does. */
  ghost predicate IsLast(lines: seq<string>, read: string -> Said, does: Said -> bool, i: nat) {
    i < |lines| && does(read(lines[i])) && NoneIn(lines, read, does, i + 1, |lines|)
  }

  /** Line `i` does this and no earlier line does. */
  ghost predicate IsFirst(lines: seq<string>, read: string -> Said, does: Said -> bool, i: nat) {
    i < |lines| && does(read(lines[i])) && NoneIn(lines, read, does, 0, i)
  }

  /** The actions of all lines, in order. */
  function AllActions(lines: seq<string>, read: string -> Said): seq<Action> {
    if lines == [] then [] else
    (if read(lines[0]).Actions? then read(lines[0]).actions else []) + AllActions(lines[1..], read)
  }

  lemma {:induction false} AllActionsSnoc(lines: seq<string>, line: string, read: string -> Said)
    ensures AllActions(lines + [line], read)
         == AllActions(lines, read) + if read(line).Actions? then read(line).actions else []
  {
    if lines == [] {
      assert [] + [line] == [line] && [line][1..] == [];
    } else {
      assert (lines + [line])[1..] == lines[1..] + [line];
      AllActionsSnoc(lines[1..], line, read);
    }
  }

  lemma {:induction false} NoActions(lines: seq<string>, read: string -> Said)
    ensures AllActions(lines, read) == [] <==> NoneIn(lines, read, Proposes, 0, |lines|)
  {
    if lines != [] {
      NoActions(lines[1..], read);
      assert forall m | 0 <= m < |lines[1..]| :: lines[1..][m] == lines[m + 1];
    }
  }

  lemma {:induction false} ActionsInOrder(lines: seq<string>, read: string -> Said)
    ensures ReadLines(lines, read).actions == AllActions(lines, read)
  {
    if lines != [] {
      var n := |lines| - 1;
      ActionsInOrder(lines[..n], read);
      AllActionsSnoc(lines[..n], lines[n], read);
      assert lines == lines[..n] + [lines[n]];
    }
  }

  /** The last announced confidence that is a number counts, and there is none without one. */
  lemma {:induction false} LastConfidenceCounts(lines: seq<string>, read: string -> Said, i: nat)
    ensures IsLast(lines, read, Rates, i) ==> ReadLines(lines, read).confidence == read(lines[i]).value
    ensures NoneIn(lines, read, Rates, 0, |lines|) ==> ReadLines(lines, read).confidence == None
  {
    if lines != [] {
      var n := |lines| - 1;
      LastConfidenceCounts(lines[..n], read, i);
    }
  }

  /** The last announced explanation counts, whatever prose there is. */
  lemma {:induction false} LastExplanationCounts(lines: seq<string>, read: string -> Said, i: nat)
    requires IsLast(lines, read, Explains, i)
    ensures ReadLines(lines, read).explanation == read(lines[i]).text
  {
    var n := |lines| - 1;
    if i < n {
      assert IsLast(lines[..n], read, Explains, i);
      LastExplanationCounts(lines[..n], read, i);
      assert !Explains(read(lines[n]));
    }
  }

  lemma NoneInFront(lines: seq<string>, read: string -> Said, does: Said -> bool, n: nat, i: nat)
    requires i <= n <= |lines|
    ensures NoneIn(lines[..n], read, does, 0, i) <==> NoneIn(lines, read, does, 0, i)
  {
    assert forall m | 0 <= m < n :: lines[..n][m] == lines[m];
  }

  lemma ActionsBefore(lines: seq<string>, read: string -> Said, n: nat)
    requires n <= |lines|
    ensures ReadLines(lines[..n], read).actions == [] <==> NoneIn(lines, read, Proposes, 0, n)
  {
    ActionsInOrder(lines[..n], read);
    NoActions(lines[..n], read);
    NoneInFront(lines, read, Proposes, n, n);
  }

  lemma ProseStep(lines: seq<string>, read: string -> Said)
    requires lines != [] && !Explains(read(lines[|lines| - 1]))
    ensures var n := |lines| - 1;
      var before := ReadLines(lines[..n], read);
      ReadLines(lines, read).explanation ==
        if Tells(read(lines[n])) && before.actions == [] && before.explanation == ""
        then read(lines[n]).text else before.explanation
  {
  }

  /** Without an announced explanation the first line of prose counts, if no action comes before
      it. */
  lemma {:induction false} FirstProseCounts(lines: seq<string>, read: string -> Said, i: nat)
    requires NoneIn(lines, read, Explains, 0, |lines|)
    ensures IsFirst(lines, read, Tells, i) ==>
      ReadLines(lines, read).explanation == if NoneIn(lines, read, Proposes, 0, i) then read(lines[i]).text else ""
    ensures NoneIn(lines, read, Tells, 0, |lines|) ==> ReadLines(lines, read).explanation == ""
  {
    if lines != [] {
      var n := |lines| - 1;
      NoneInFront(lines, read, Explains, n, n);
      NoneInFront(lines, read, Tells, n, n);
      FirstProseCounts(lines[..n], read, i);
      ProseStep(lines, read);
      ActionsBefore(lines, read, n);
      if i < n {
        NoneInFront(lines, read, Proposes, n, i);
        NoneInFront(lines, read, Tells, n, i);
        if !NoneIn(lines, read, Proposes, 0, i) { assert !NoneIn(lines, read, Proposes, 0, n); }
      }
    }
  }

  /** The output in terms of the lines that decide it: all actions in order, the last announced
      number, and the last announced explanation or else the first prose before any action. */
  ghost predicate IsDecidedBy(out: TurnOutput, lines: seq<string>, read: string -> Said) {
    && out.actions == AllActions(lines, read)
    && (forall i: nat | IsLast(lines, read, Rates, i) :: out.confidence == read(lines[i]).value)
    && (NoneIn(lines, read, Rates, 0, |lines|) ==> out.confidence == None)
    && (forall i: nat | IsLast(lines, read, Explains, i) :: out.explanation == read(lines[i]).text)
    && (NoneIn(lines, read, Explains, 0, |lines|) ==> IsProse(out.explanation, lines, read))
  }

  ghost predicate IsProse(text: string, lines: seq<string>, read: string -> Said) {
    && (NoneIn(lines, read, Tells, 0, |lines|) ==> text == "")
    && forall i: nat | IsFirst(lines, read, Tells, i) ::
         text == if NoneIn(lines, read, Proposes, 0, i) then read(lines[i]).text else ""
  }

  lemma LinesDecide(lines: seq<string>, read: string -> Said)
    ensures IsDecidedBy(ReadLines(lines, read), lines, read)
  {
    ActionsInOrder(lines, read);
    LastConfidenceCounts(lines, read, 0);
    forall i: nat | IsLast(lines, read, Rates, i) ensures ReadLines(lines, read).confidence == read(lines[i]).value {
      LastConfidenceCounts(lines, read, i);
    }
    forall i: nat | IsLast(lines, read, Explains, i) ensures ReadLines(lines, read).explanation == read(lines[i]).text {
      LastExplanationCounts(lines, read, i);
    }
    if NoneIn(lines, read, Explains, 0, |lines|) {
      FirstProseCounts(lines, read, 0);
      forall i: nat | IsFirst(lines, read, Tells, i)
        ensures ReadLines(lines, read).explanation ==
          if NoneIn(lines, read, Proposes, 0, i) then read(lines[i]).text else ""
      {
        FirstProseCounts(lines, read, i);
      }
    }
  }

  // The loop -------------------------------------------------------------------

  lemma BlankIff(raw: string)
    ensures Trim(raw) == "" <==> AllOf(raw, IsSpace)
  {
    var pre, post := TrimByParts(raw, IsSpace);
    if AllOf(raw, IsSpace) { TrimAllLeft(raw, IsSpace); }
  }

  method ReadEach(lines: seq<string>, read: string -> Said) returns (out: TurnOutput)
    ensures out == ReadLines(lines, read) && IsDecidedBy(out, lines, read)
  {
    LinesDecide(lines, read);
    var actions: seq<Action>, explanation: string, confidence: Option<real> := [], "", None;
    for i := 0 to |lines|
      invariant TurnOutput(actions, explanation, confidence) == ReadLines(lines[..i], read)
    {
      assert lines[..i + 1] == lines[..i] + [lines[i]];
      ReadSnoc(lines[..i], lines[i], read);
      match read(lines[i])
      case Actions(found) =>
        actions := actions + found;
      case Explained(text) =>
        if text != "" { explanation := text; }
      case Rated(value) =>
        if value.Some? { confidence := value; }
      case Other(text) =>
        if actions == [] && text != "" && explanation == "" { explanation := text; }
    }
    assert lines[..|lines|] == lines;
    out := TurnOutput(actions, explanation, confidence);
  }

  method ParseTurnOutput(raw: string, host: Host) returns (r: Result)
    ensures r == Parse(raw, host)
    ensures r.Ok? ==> IsDecidedBy(r.output, Lines(host.trim(raw)), Interpreter(host))
  {
    var trimmed := host.trim(raw);
    if trimmed == "" { return Empty; }
    var out := ReadEach(Lines(trimmed), Interpreter(host));
    r := Ok(out);
  }

  /** The program rejects blank text and nothing else. */
  lemma RejectedIffBlank(raw: string, show: real -> string, parse: string -> Option<real>)
    ensures Parse(raw, Shipped(show, parse)).Empty? <==> AllOf(raw, IsSpace)
  {
    BlankIff(raw);
  }
}
