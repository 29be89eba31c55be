/** The cost ledger: writers append JSON lines to one file under a lock, each record through
    any number of partial writes, and a tolerant reader parses the lines back.

    The ledger is a state machine over lock, write, release and I/O-failure steps, with any
    number of writers and any interleaving. `Codec` is the serializer; `Faithful` is what the
    ledger needs of it for an entry: one line, no padding, decoding to the entry. */
module CostLedger {
  import opened Text
  import opened Sums

  const U64: nat := 0x1_0000_0000_0000_0000
  const CHARS_PER_TOKEN: nat := 4

  datatype Entry = Entry(timestamp: int, sessionId: string, model: string, promptTokens: nat,
                         completionTokens: nat, costUsd: real, context: string)

  datatype Codec = Codec(encode: Entry -> string, decode: string -> Option<Entry>)

  predicate Faithful(c: Codec, e: Entry) {
    var s := c.encode(e);
    s != "" && Trimmed(s) && '\n' !in s && c.decode(s) == Some(e)
  }

  function Record(c: Codec, e: Entry): string { c.encode(e) + "\n" }

  // Reading ------------------------------------------------------------------

  /** A blank or unparsable line yields nothing. */
  function ParseLine(c: Codec, line: string): seq<Entry> {
    var t := Trim(line);
    if t == "" then [] else
    match c.decode(t)
    case Some(e) => [e]
    case None => []
  }

  function ParseLines(c: Codec, lines: seq<string>): seq<Entry> {
    if lines == [] then [] else ParseLines(c, lines[..|lines| - 1]) + ParseLine(c, lines[|lines| - 1])
  }

  function ReadBack(c: Codec, file: string): seq<Entry> { ParseLines(c, Lines(file)) }

  method ReadEntries(c: Codec, file: string) returns (entries: seq<Entry>)
    ensures entries == ReadBack(c, file)
  {
    entries := [];
    var lines := Lines(file);
    for i := 0 to |lines|
      invariant entries == ParseLines(c, lines[..i])
    {
      ParseLinesSnoc(c, lines, i);
      var parsed := ReadLine(c, lines[i]);
      if parsed.Some? { entries := entries + [parsed.value]; }
    }
    assert lines[..|lines|] == lines;
  }

  method ReadLine(c: Codec, line: string) returns (r: Option<Entry>)
    ensures ParseLine(c, line) == if r.Some? then [r.value] else []
  {
    var trimmed := Trim(line);
    if trimmed == "" { return None; }
    r := c.decode(trimmed);
  }

  /** A record is read from a line whatever blanks surround it. */
  lemma PaddedRecordReads(c: Codec, e: Entry, pre: string, post: string)
    requires Faithful(c, e) && AllOf(pre, IsSpace) && AllOf(post, IsSpace)
    ensures ParseLine(c, pre + c.encode(e) + post) == [e]
  {
    assert Trim(pre + c.encode(e) + post) == c.encode(e) by { TrimByPad(pre, c.encode(e), post, IsSpace); }
  }

  lemma ParseLinesSnoc(c: Codec, lines: seq<string>, i: nat)
    requires i < |lines|
    ensures ParseLines(c, lines[..i + 1]) == ParseLines(c, lines[..i]) + ParseLine(c, lines[i])
  {
    assert lines[..i + 1][..i] == lines[..i];
  }

  lemma {:induction false} ParseLinesConcat(c: Codec, a: seq<string>, b: seq<string>)
    ensures ParseLines(c, a + b) == ParseLines(c, a) + ParseLines(c, b)
  {
    if b == [] {
      assert a + b == a;
    } else {
      assert (a + b)[..|a + b| - 1] == a + b[..|b| - 1];
      ParseLinesConcat(c, a, b[..|b| - 1]);
    }
  }

  /** Text whose last line is finished reads the same whatever follows it. */
  predicate Finished(text: string) { text == "" || text[|text| - 1] == '\n' }

  lemma FinishedLine(a: string) returns (line: string, rest: string)
    requires a != "" && Finished(a)
    ensures a == line + "\n" + rest && '\n' !in line && Finished(rest)
  {
    assert a[|a| - 1] in a;
    line, rest := FirstLine(a);
    assert rest != "" ==> rest[|rest| - 1] == a[|a| - 1];
  }

  lemma LinesFrom(s: string, line: string, rest: string)
    requires s == line + "\n" + rest && '\n' !in line
    ensures Lines(s) == [StripCr(line)] + Lines(rest)
  {
    LinesCons(line, rest);
  }

  lemma Reassociate(a: seq<string>, b: seq<string>, c: seq<string>)
    ensures a + (b + c) == a + b + c
  {
  }

  lemma {:induction false} LinesAppend(a: string, b: string)
    requires Finished(a)
    ensures Lines(a + b) == Lines(a) + Lines(b)
    decreases |a|
  {
    if a == "" {
      assert a + b == b;
    } else {
      var line, rest := FinishedLine(a);
      LinesFrom(a, line, rest);
      assert a + b == line + "\n" + (rest + b) by { Regroup(line + "\n", rest, b); }
      LinesFrom(a + b, line, rest + b);
      LinesAppend(rest, b);
      Reassociate([StripCr(line)], Lines(rest), Lines(b));
    }
  }

  lemma ReadAppend(c: Codec, a: string, b: string)
    requires Finished(a)
    ensures ReadBack(c, a + b) == ReadBack(c, a) + ReadBack(c, b)
  {
    LinesAppend(a, b);
    ParseLinesConcat(c, Lines(a), Lines(b));
  }

  lemma ReadOneLine(c: Codec, line: string)
    requires '\n' !in line
    ensures ReadBack(c, line + "\n") == ParseLine(c, StripCr(line))
    ensures ReadBack(c, line) == ParseLine(c, line)
  {
    LinesCons(line, "");
    assert line + "\n" + "" == line + "\n";
    LinesLast(line);
    ParseSingle(c, StripCr(line));
    ParseSingle(c, line);
  }

  lemma ParseSingle(c: Codec, line: string)
    ensures ParseLines(c, [line]) == ParseLine(c, line)
  {
    assert [line][..0] == [];
  }

  lemma FaithfulLineReadsBack(c: Codec, e: Entry)
    requires Faithful(c, e)
    ensures ParseLine(c, StripCr(c.encode(e))) == ParseLine(c, c.encode(e)) == [e]
  {
    TrimByClean(c.encode(e), IsSpace);
  }

  // The state machine --------------------------------------------------------

  /** One lock period: who held it, for which entry, and what reached the file. */
  datatype Turn = Turn(writer: nat, entry: Entry, written: string)

  datatype State = State(file: string, holder: Option<Turn>, ended: seq<Turn>, todo: seq<seq<Entry>>)

  datatype Step =
    | Acquire(writer: nat) // take the lock for the writer's next entry
    | Write(count: nat)    // a partial write of the record by the lock holder
    | Release              // flush and unlock after the whole record
    | Fail                 // an I/O error while the lock is held; the guard unlocks

  predicate Enabled(c: Codec, s: State, step: Step) {
    match step
    case Acquire(w) => s.holder.None? && w < |s.todo| && s.todo[w] != []
    case Write(n) => s.holder.Some? && 0 < n <= |Record(c, s.holder.value.entry)| - |s.holder.value.written|
    case Release => s.holder.Some? && s.holder.value.written == Record(c, s.holder.value.entry)
    case Fail => s.holder.Some?
  }

  function Apply(c: Codec, s: State, step: Step): State
    requires Enabled(c, s, step)
  {
    match step
    case Acquire(w) => s.(holder := Some(Turn(w, s.todo[w][0], "")), todo := s.todo[w := s.todo[w][1..]])
    case Write(n) =>
      var t := s.holder.value;
      var chunk := Record(c, t.entry)[|t.written|..|t.written| + n];
      s.(file := s.file + chunk, holder := Some(t.(written := t.written + chunk)))
    case Release => s.(holder := None, ended := s.ended + [s.holder.value])
    case Fail => s.(holder := None, ended := s.ended + [s.holder.value])
  }

  predicate Run(c: Codec, s: State, steps: seq<Step>, t: State)
    decreases |steps|
  {
    if steps == [] then s == t
    else Enabled(c, s, steps[0]) && Run(c, Apply(c, s, steps[0]), steps[1..], t)
  }

  function Initial(todo: seq<seq<Entry>>): State { State("", None, [], todo) }

  function Written(ts: seq<Turn>): string {
    if ts == [] then "" else Written(ts[..|ts| - 1]) + ts[|ts| - 1].written
  }

  function Entries(ts: seq<Turn>): seq<Entry> {
    if ts == [] then [] else Entries(ts[..|ts| - 1]) + [ts[|ts| - 1].entry]
  }

  /** The entries one writer has taken up, in order. */
  function TakenBy(ts: seq<Turn>, w: nat): seq<Entry> {
    if ts == [] then [] else
    TakenBy(ts[..|ts| - 1], w) + if ts[|ts| - 1].writer == w then [ts[|ts| - 1].entry] else []
  }

  /** The open lock period, as a list of none or one. */
  function Open(s: State): seq<Turn> { if s.holder.Some? then [s.holder.value] else [] }

  /** The lock periods so far, the open one last. */
  function Turns(s: State): seq<Turn> { s.ended + Open(s) }

  lemma TurnsSnoc(ts: seq<Turn>, t: Turn)
    ensures Written(ts + [t]) == Written(ts) + t.written
    ensures Entries(ts + [t]) == Entries(ts) + [t.entry]
    ensures forall w :: TakenBy(ts + [t], w) == TakenBy(ts, w) + if t.writer == w then [t.entry] else []
  {
    assert (ts + [t])[..|ts + [t]| - 1] == ts;
  }

  // What every step keeps ----------------------------------------------------

  /** How a step changes the list of lock periods. */
  lemma StepTurns(c: Codec, s: State, step: Step)
    requires Enabled(c, s, step)
    ensures var t := Apply(c, s, step);
      match step
      case Acquire(w) => Turns(t) == Turns(s) + [Turn(w, s.todo[w][0], "")] && t.file == s.file
      case Write(n) => Turns(s) == s.ended + [s.holder.value] && Turns(t) == s.ended + [t.holder.value]
      case _ => Turns(t) == Turns(s) && t.file == s.file && t.todo == s.todo
  {
    if step.Acquire? { assert Turns(s) == s.ended; }
  }

  /** The file holds what the lock periods wrote, in lock order, each a prefix of its record. */
  ghost predicate FileKept(c: Codec, s: State) {
    s.file == Written(Turns(s)) && Prefixes(c, Turns(s))
  }

  ghost predicate Prefixes(c: Codec, ts: seq<Turn>) {
    forall t | t in ts :: StartsWith(Record(c, t.entry), t.written)
  }

  lemma PrefixesSnoc(c: Codec, ts: seq<Turn>, t: Turn)
    ensures Prefixes(c, ts + [t]) <==> Prefixes(c, ts) && StartsWith(Record(c, t.entry), t.written)
  {
    assert t in ts + [t];
    assert forall u | u in ts :: u in ts + [t];
  }

  lemma FileStep(c: Codec, s: State, step: Step)
    requires FileKept(c, s) && Enabled(c, s, step)
    ensures FileKept(c, Apply(c, s, step))
  {
    StepTurns(c, s, step);
    var t := Apply(c, s, step);
    if step.Acquire? {
      TurnsSnoc(Turns(s), t.holder.value);
      PrefixesSnoc(c, Turns(s), t.holder.value);
    } else if step.Write? {
      var was := s.holder.value;
      ChunkWritten(s.ended, was, Record(c, was.entry)[|was.written|..|was.written| + step.count]);
      ChunkPrefix(c, s.ended, was, step.count);
    }
  }

  lemma ChunkWritten(ended: seq<Turn>, was: Turn, chunk: string)
    ensures Written(ended + [was.(written := was.written + chunk)]) == Written(ended + [was]) + chunk
  {
    var now := was.(written := was.written + chunk);
    assert (ended + [was])[..|ended|] == ended && (ended + [now])[..|ended|] == ended;
    assert Written(ended) + (was.written + chunk) == (Written(ended) + was.written) + chunk;
  }

  lemma ChunkPrefix(c: Codec, ended: seq<Turn>, was: Turn, n: nat)
    requires Prefixes(c, ended + [was]) && n <= |Record(c, was.entry)| - |was.written|
    ensures Prefixes(c, ended + [was.(written := was.written + Record(c, was.entry)[|was.written|..|was.written| + n])])
  {
    PrefixesSnoc(c, ended, was);
    NextChunk(Record(c, was.entry), was.written, n);
    PrefixesSnoc(c, ended, was.(written := was.written + Record(c, was.entry)[|was.written|..|was.written| + n]));
  }

  lemma NextChunk(record: string, written: string, n: nat)
    requires StartsWith(record, written) && n <= |record| - |written|
    ensures StartsWith(record, written + record[|written|..|written| + n])
  {
    assert record[..|written| + n] == record[..|written|] + record[|written|..|written| + n];
  }

  /** Each writer's entries are taken up in order and none is skipped. */
  ghost predicate OrderKept(todo0: seq<seq<Entry>>, s: State) {
    |s.todo| == |todo0| && forall w | 0 <= w < |todo0| :: todo0[w] == TakenBy(Turns(s), w) + s.todo[w]
  }

  lemma AcquireKeepsOrder(taken: seq<Entry>, todo: seq<Entry>, own: bool)
    requires own ==> todo != []
    ensures own ==> taken + [todo[0]] + todo[1..] == taken + todo
  {
  }

  lemma OrderStep(c: Codec, todo0: seq<seq<Entry>>, s: State, step: Step)
    requires OrderKept(todo0, s) && Enabled(c, s, step)
    ensures OrderKept(todo0, Apply(c, s, step))
  {
    StepTurns(c, s, step);
    var t := Apply(c, s, step);
    forall w | 0 <= w < |todo0|
      ensures TakenBy(Turns(t), w) + t.todo[w] == TakenBy(Turns(s), w) + s.todo[w]
    {
      if step.Acquire? {
        TurnsSnoc(Turns(s), t.holder.value);
        AcquireKeepsOrder(TakenBy(Turns(s), w), s.todo[w], w == step.writer);
      } else if step.Write? {
        TurnsSnoc(s.ended, s.holder.value);
        TurnsSnoc(s.ended, t.holder.value);
      }
    }
  }

  function Bag(es: seq<Entry>): multiset<Entry> { multiset(es) }
  function BagPlus(a: multiset<Entry>, b: multiset<Entry>): multiset<Entry> { a + b }

  /** Every entry queued by some writer. */
  function Queued(todo: seq<seq<Entry>>): multiset<Entry> { Fold(todo, Bag, BagPlus, multiset{}) }

  /** Entries taken up and entries still queued are together the ones queued at the start. */
  ghost predicate EntriesKept(todo0: seq<seq<Entry>>, s: State) {
    Queued(todo0) == multiset(Entries(Turns(s))) + Queued(s.todo)
  }

  lemma BagPlusExchanges()
    ensures Exchanges(BagPlus)
  {
    forall a, b, d ensures BagPlus(BagPlus(a, b), d) == BagPlus(BagPlus(a, d), b) { assert a + b + d == a + d + b; }
  }

  lemma QueuedTakeHead(todo: seq<seq<Entry>>, w: nat, rest: seq<seq<Entry>>)
    requires w < |todo| && todo[w] != [] && rest == todo[w := todo[w][1..]]
    ensures Queued(todo) == Queued(rest) + multiset{todo[w][0]}
  {
    BagPlusExchanges();
    FoldTakeOut(todo, w, Bag, BagPlus, multiset{});
    FoldTakeOut(rest, w, Bag, BagPlus, multiset{});
    assert rest[..w] == todo[..w] && rest[w + 1..] == todo[w + 1..];
    HeadBag(todo[w]);
  }

  lemma HeadBag(es: seq<Entry>)
    requires es != []
    ensures Bag(es) == Bag(es[1..]) + multiset{es[0]}
  {
    assert es == [es[0]] + es[1..];
  }

  lemma EntriesStep(c: Codec, todo0: seq<seq<Entry>>, s: State, step: Step)
    requires EntriesKept(todo0, s) && Enabled(c, s, step)
    ensures EntriesKept(todo0, Apply(c, s, step))
  {
    StepTurns(c, s, step);
    var t := Apply(c, s, step);
    if step.Acquire? {
      TurnsSnoc(Turns(s), t.holder.value);
      QueuedTakeHead(s.todo, step.writer, t.todo);
    } else if step.Write? {
      TurnsSnoc(s.ended, s.holder.value);
      TurnsSnoc(s.ended, t.holder.value);
    }
  }

  ghost predicate Kept(c: Codec, todo0: seq<seq<Entry>>, s: State) {
    FileKept(c, s) && OrderKept(todo0, s) && EntriesKept(todo0, s)
  }

  lemma {:induction false} RunKeeps(c: Codec, todo0: seq<seq<Entry>>, s: State, steps: seq<Step>, t: State)
    requires Kept(c, todo0, s) && Run(c, s, steps, t)
    ensures Kept(c, todo0, t)
    decreases |steps|
  {
    if steps != [] {
      FileStep(c, s, steps[0]);
      OrderStep(c, todo0, s, steps[0]);
      EntriesStep(c, todo0, s, steps[0]);
      RunKeeps(c, todo0, Apply(c, s, steps[0]), steps[1..], t);
    }
  }

  /** What every reachable state satisfies. */
  lemma ReachedIsKept(c: Codec, todo: seq<seq<Entry>>, steps: seq<Step>, s: State)
    requires Run(c, Initial(todo), steps, s)
    ensures Kept(c, todo, s)
  {
    RunKeeps(c, todo, Initial(todo), steps, s);
  }

  // What a reader sees -------------------------------------------------------

  /** The file as a reader splits it: finished lines, the entries on them, and what is left. */
  datatype Scan = Scan(done: string, entries: seq<Entry>, pending: string)

  function LineParser(c: Codec): string -> seq<Entry> { line => ParseLine(c, line) }

  /** A whole record finishes the pending line; a torn one is glued to whatever comes next. */
  function ScanTurns(c: Codec, ts: seq<Turn>, parse: string -> seq<Entry>): Scan {
    if ts == [] then Scan("", [], "") else
    ScanTurn(c, ScanTurns(c, ts[..|ts| - 1], parse), ts[|ts| - 1], parse)
  }

  function ScanTurn(c: Codec, s: Scan, t: Turn, parse: string -> seq<Entry>): Scan {
    if Whole(c, t)
    then Scan(s.done + s.pending + t.written, s.entries + parse(StripCr(s.pending + c.encode(t.entry))), "")
    else Scan(s.done, s.entries, s.pending + t.written)
  }

  predicate Whole(c: Codec, t: Turn) { t.written == Record(c, t.entry) }

  /** What reading the written turns yields. */
  function Recovered(c: Codec, ts: seq<Turn>): seq<Entry> {
    var scan := ScanTurns(c, ts, LineParser(c));
    scan.entries + ParseLine(c, scan.pending)
  }

  ghost predicate GoodTurns(c: Codec, ts: seq<Turn>) {
    forall t | t in ts :: Faithful(c, t.entry) && StartsWith(Record(c, t.entry), t.written)
  }

  ghost function Reader(c: Codec): string -> seq<Entry> { text => ReadBack(c, text) }

  /** The scan splits `text` at its last newline and read the finished part. */
  ghost predicate ScanOf(text: string, s: Scan, read: string -> seq<Entry>) {
    text == s.done + s.pending && Finished(s.done) && '\n' !in s.pending && read(s.done) == s.entries
  }

  lemma LineScanned(text: string, s: Scan, body: string, found: seq<Entry>, read: string -> seq<Entry>)
    requires ScanOf(text, s, read) && '\n' !in body
    requires read(s.done + (s.pending + body + "\n")) == read(s.done) + found
    ensures ScanOf(text + (body + "\n"), Scan(s.done + s.pending + (body + "\n"), s.entries + found, ""), read)
  {
    Regroup(s.pending, body, "\n");
    Regroup(s.done, s.pending, body + "\n");
  }

  lemma ReadLineMore(c: Codec, done: string, line: string)
    requires Finished(done) && '\n' !in line
    ensures ReadBack(c, done + (line + "\n")) == ReadBack(c, done) + ParseLine(c, StripCr(line))
  {
    ReadAppend(c, done, line + "\n");
    ReadOneLine(c, line);
  }

  lemma ScanTorn(c: Codec, text: string, s: Scan, t: Turn, read: string -> seq<Entry>)
    requires ScanOf(text, s, read) && '\n' !in c.encode(t.entry)
    requires StartsWith(Record(c, t.entry), t.written) && !Whole(c, t)
    ensures ScanOf(text + t.written, ScanTurn(c, s, t, LineParser(c)), read)
  {
    assert t.written == Record(c, t.entry)[..|t.written|] == c.encode(t.entry)[..|t.written|];
    Regroup(s.done, s.pending, t.written);
  }

  lemma {:induction false} ScanReads(c: Codec, ts: seq<Turn>)
    requires GoodTurns(c, ts)
    ensures ScanOf(Written(ts), ScanTurns(c, ts, LineParser(c)), Reader(c))
  {
    if ts != [] {
      var n := |ts| - 1;
      assert forall u | u in ts[..n] :: u in ts;
      ScanReads(c, ts[..n]);
      assert ts[n] in ts;
      if Whole(c, ts[n]) {
        var scan, body := ScanTurns(c, ts[..n], LineParser(c)), c.encode(ts[n].entry);
        ReadLineMore(c, scan.done, scan.pending + body);
        LineScanned(Written(ts[..n]), scan, body, ParseLine(c, StripCr(scan.pending + body)), Reader(c));
      } else {
        ScanTorn(c, Written(ts[..n]), ScanTurns(c, ts[..n], LineParser(c)), ts[n], Reader(c));
      }
    }
  }

  /** Reading returns what the turns let it recover, torn records and open writes included. */
  lemma ReadIsRecovered(c: Codec, ts: seq<Turn>)
    requires GoodTurns(c, ts)
    ensures ReadBack(c, Written(ts)) == Recovered(c, ts)
  {
    ScanReads(c, ts);
    var s := ScanTurns(c, ts, LineParser(c));
    ReadAppend(c, s.done, s.pending);
    ReadOneLine(c, s.pending);
  }

  /** A record on a line of its own parses to its entry. */
  ghost predicate ParsesRecords(c: Codec, parse: string -> seq<Entry>) {
    forall e | Faithful(c, e) :: parse(StripCr(c.encode(e))) == [e]
  }

  lemma LineParserParses(c: Codec)
    ensures ParsesRecords(c, LineParser(c))
  {
    forall e | Faithful(c, e) ensures ParseLine(c, StripCr(c.encode(e))) == [e] { FaithfulLineReadsBack(c, e); }
  }

  lemma WholeTurnScanned(c: Codec, s: Scan, t: Turn, parse: string -> seq<Entry>)
    requires s.pending == "" && Faithful(c, t.entry) && Whole(c, t) && ParsesRecords(c, parse)
    ensures ScanTurn(c, s, t, parse).entries == s.entries + [t.entry] && ScanTurn(c, s, t, parse).pending == ""
  {
    assert "" + c.encode(t.entry) == c.encode(t.entry);
  }

  lemma {:induction false} WholeTurnsRecovered(c: Codec, ts: seq<Turn>, parse: string -> seq<Entry>)
    requires GoodTurns(c, ts) && ParsesRecords(c, parse) && forall t | t in ts :: Whole(c, t)
    ensures ScanTurns(c, ts, parse).entries == Entries(ts) && ScanTurns(c, ts, parse).pending == ""
  {
    if ts != [] {
      var n := |ts| - 1;
      assert forall t | t in ts[..n] :: t in ts;
      WholeTurnsRecovered(c, ts[..n], parse);
      assert ts[n] in ts;
      WholeTurnScanned(c, ScanTurns(c, ts[..n], parse), ts[n], parse);
    }
  }

  // Failed appends -------------------------------------------------------------

  /** What failed appends left on the line since the last whole record. */
  function TornTail(c: Codec, ts: seq<Turn>): string {
    if ts == [] || Whole(c, ts[|ts| - 1]) then "" else TornTail(c, ts[..|ts| - 1]) + ts[|ts| - 1].written
  }

  lemma {:induction false} PendingIsTornTail(c: Codec, ts: seq<Turn>, parse: string -> seq<Entry>)
    ensures ScanTurns(c, ts, parse).pending == TornTail(c, ts)
  {
    if ts != [] { PendingIsTornTail(c, ts[..|ts| - 1], parse); }
  }

  /** The whole records that start on a line of their own. */
  function Survivors(c: Codec, ts: seq<Turn>): seq<Turn> {
    if ts == [] then [] else
    var front, last := ts[..|ts| - 1], ts[|ts| - 1];
    Survivors(c, front) + if Whole(c, last) && TornTail(c, front) == "" then [last] else []
  }

  /** No line that starts with torn text and ends with a record parses. */
  ghost predicate GlueFree(c: Codec, parse: string -> seq<Entry>) {
    forall ts, e | GoodTurns(c, ts) && Faithful(c, e) && TornTail(c, ts) != "" ::
      parse(StripCr(TornTail(c, ts) + c.encode(e))) == []
  }

  lemma GoodFront(c: Codec, ts: seq<Turn>)
    requires GoodTurns(c, ts) && ts != []
    ensures GoodTurns(c, ts[..|ts| - 1]) && Faithful(c, ts[|ts| - 1].entry)
  {
    assert forall t | t in ts[..|ts| - 1] :: t in ts;
    assert ts[|ts| - 1] in ts;
  }

  lemma SurvivorsSnoc(c: Codec, ts: seq<Turn>, t: Turn)
    ensures Entries(Survivors(c, ts + [t])) ==
      Entries(Survivors(c, ts)) + if Whole(c, t) && TornTail(c, ts) == "" then [t.entry] else []
  {
    assert (ts + [t])[..|ts|] == ts;
    TurnsSnoc(Survivors(c, ts), t);
    assert Survivors(c, ts) + [] == Survivors(c, ts);
  }

  lemma SurvivorStep(c: Codec, front: seq<Turn>, last: Turn, scan: Scan, parse: string -> seq<Entry>)
    requires GoodTurns(c, front) && Faithful(c, last.entry) && scan.pending == TornTail(c, front)
    requires ParsesRecords(c, parse) && GlueFree(c, parse)
    ensures ScanTurn(c, scan, last, parse).entries ==
      scan.entries + if Whole(c, last) && TornTail(c, front) == "" then [last.entry] else []
  {
    assert "" + c.encode(last.entry) == c.encode(last.entry);
  }

  lemma ScanSnoc(c: Codec, ts: seq<Turn>, t: Turn, parse: string -> seq<Entry>)
    ensures ScanTurns(c, ts + [t], parse) == ScanTurn(c, ScanTurns(c, ts, parse), t, parse)
  {
    assert (ts + [t])[..|ts|] == ts;
  }

  lemma SurvivorsScannedSnoc(c: Codec, ts: seq<Turn>, t: Turn, parse: string -> seq<Entry>)
    requires GoodTurns(c, ts) && Faithful(c, t.entry) && ParsesRecords(c, parse) && GlueFree(c, parse)
    requires ScanTurns(c, ts, parse).entries == Entries(Survivors(c, ts))
    ensures ScanTurns(c, ts + [t], parse).entries == Entries(Survivors(c, ts + [t]))
  {
    ScanSnoc(c, ts, t, parse);
    PendingIsTornTail(c, ts, parse);
    SurvivorStep(c, ts, t, ScanTurns(c, ts, parse), parse);
    SurvivorsSnoc(c, ts, t);
  }

  /** The finished lines hold exactly the survivors. */
  lemma {:induction false} SurvivorsScanned(c: Codec, ts: seq<Turn>, parse: string -> seq<Entry>)
    requires GoodTurns(c, ts) && ParsesRecords(c, parse) && GlueFree(c, parse)
    ensures ScanTurns(c, ts, parse).entries == Entries(Survivors(c, ts))
  {
    if ts != [] {
      var front, last := ts[..|ts| - 1], ts[|ts| - 1];
      GoodFront(c, ts);
      SurvivorsScanned(c, front, parse);
      SurvivorsScannedSnoc(c, front, last, parse);
      assert ts == front + [last];
    }
  }

  lemma StillScanned(c: Codec, scan: Scan, t: Turn, parse: string -> seq<Entry>, e: Entry)
    requires e in scan.entries
    ensures e in ScanTurn(c, scan, t, parse).entries
  {
  }

  lemma {:induction false} WholeEntryScanned(c: Codec, ts: seq<Turn>, i: nat, parse: string -> seq<Entry>)
    requires GoodTurns(c, ts) && ParsesRecords(c, parse)
    requires i < |ts| && Whole(c, ts[i]) && TornTail(c, ts[..i]) == ""
    ensures ts[i].entry in ScanTurns(c, ts, parse).entries
    decreases |ts|
  {
    var n := |ts| - 1;
    GoodFront(c, ts);
    var scan := ScanTurns(c, ts[..n], parse);
    if i < n {
      assert ts[..n][..i] == ts[..i];
      WholeEntryScanned(c, ts[..n], i, parse);
      StillScanned(c, scan, ts[n], parse, ts[i].entry);
    } else {
      PendingIsTornTail(c, ts[..n], parse);
      WholeTurnScanned(c, scan, ts[n], parse);
    }
  }

  // Main results -------------------------------------------------------------

  ghost predicate AllFaithful(c: Codec, todo: seq<seq<Entry>>) {
    forall e | e in Queued(todo) :: Faithful(c, e)
  }

  lemma {:induction false} EntriesMembers(ts: seq<Turn>)
    ensures forall t | t in ts :: t.entry in multiset(Entries(ts))
  {
    if ts != [] {
      EntriesMembers(ts[..|ts| - 1]);
      assert ts == ts[..|ts| - 1] + [ts[|ts| - 1]];
    }
  }

  lemma ReachedTurnsGood(c: Codec, todo: seq<seq<Entry>>, s: State)
    requires AllFaithful(c, todo) && FileKept(c, s) && EntriesKept(todo, s)
    ensures GoodTurns(c, Turns(s))
  {
    EntriesMembers(Turns(s));
  }

  lemma {:induction false} EndedTurnsWhole(c: Codec, s: State, steps: seq<Step>, t: State)
    requires Run(c, s, steps, t) && Fail !in steps && forall u | u in s.ended :: Whole(c, u)
    ensures forall u | u in t.ended :: Whole(c, u)
    decreases |steps|
  {
    if steps != [] {
      assert steps[0] in steps;
      EndedTurnsWhole(c, Apply(c, s, steps[0]), steps[1..], t);
    }
  }

  /** At every moment of every interleaving, failures included, a read yields exactly what the
      lock periods let it recover. */
  lemma ReadAtAnyTime(c: Codec, todo: seq<seq<Entry>>, steps: seq<Step>, s: State)
    requires AllFaithful(c, todo) && Run(c, Initial(todo), steps, s)
    ensures ReadBack(c, s.file) == Recovered(c, Turns(s))
  {
    ReachedIsKept(c, todo, steps, s);
    ReachedTurnsGood(c, todo, s);
    ReadIsRecovered(c, Turns(s));
  }

  /** In every reachable state a whole record is read back if the failed appends since the last
      whole record before it left nothing on the line. */
  lemma UntornEntrySurvives(c: Codec, todo: seq<seq<Entry>>, steps: seq<Step>, s: State, i: nat)
    requires AllFaithful(c, todo) && Run(c, Initial(todo), steps, s)
    requires i < |Turns(s)| && Whole(c, Turns(s)[i]) && TornTail(c, Turns(s)[..i]) == ""
    ensures Turns(s)[i].entry in ReadBack(c, s.file)
  {
    ReachedIsKept(c, todo, steps, s);
    ReachedTurnsGood(c, todo, s);
    ReadAtAnyTime(c, todo, steps, s);
    LineParserParses(c);
    WholeEntryScanned(c, Turns(s), i, LineParser(c));
  }

  /** If no glued line parses, a read returns exactly the records that start on a line of their
      own, in lock order, and what an unfinished last line parses to. */
  lemma ReadIsSurvivors(c: Codec, todo: seq<seq<Entry>>, steps: seq<Step>, s: State)
    requires AllFaithful(c, todo) && GlueFree(c, LineParser(c)) && Run(c, Initial(todo), steps, s)
    ensures ReadBack(c, s.file) == Entries(Survivors(c, Turns(s))) + ParseLine(c, TornTail(c, Turns(s)))
  {
    ReachedIsKept(c, todo, steps, s);
    ReachedTurnsGood(c, todo, s);
    ReadAtAnyTime(c, todo, steps, s);
    LineParserParses(c);
    SurvivorsScanned(c, Turns(s), LineParser(c));
    PendingIsTornTail(c, Turns(s), LineParser(c));
  }

  /** The first writer fails after `n` characters, the second appends its record whole. */
  function TornRun(c: Codec, f: Entry, n: nat): seq<Step> {
    [Acquire(0), Write(n), Fail, Acquire(1), Write(|Record(c, f)|), Release]
  }

  function TornState(c: Codec, e: Entry, f: Entry, n: nat): State
    requires n <= |Record(c, e)|
  {
    var torn := Record(c, e)[..n];
    State(torn + Record(c, f), None, [Turn(0, e, torn), Turn(1, f, Record(c, f))], [[], []])
  }

  lemma RunCons(c: Codec, s: State, step: Step, next: State, steps: seq<Step>, t: State)
    requires Enabled(c, s, step) && Apply(c, s, step) == next && Run(c, next, steps, t)
    ensures Run(c, s, [step] + steps, t)
  {
    assert ([step] + steps)[1..] == steps;
  }

  lemma SecondAppends(c: Codec, t: Turn, f: Entry, file: string)
    ensures Run(c, State(file, None, [t], [[], [f]]), [Acquire(1), Write(|Record(c, f)|), Release],
                State(file + Record(c, f), None, [t, Turn(1, f, Record(c, f))], [[], []]))
  {
    var rec, none: seq<Entry> := Record(c, f), [];
    var u, end := Turn(1, f, rec), State(file + rec, None, [t, Turn(1, f, rec)], [[], []]);
    assert [f][1..] == none && [none, [f]][1 := none] == [none, none];
    assert rec[0..|rec|] == rec && "" + rec == rec;
    RunCons(c, State(file + rec, Some(u), [t], [[], []]), Release, end, [], end);
    RunCons(c, State(file, Some(Turn(1, f, "")), [t], [[], []]), Write(|rec|),
            State(file + rec, Some(u), [t], [[], []]), [Release] + [], end);
    RunCons(c, State(file, None, [t], [[], [f]]), Acquire(1), State(file, Some(Turn(1, f, "")), [t], [[], []]),
            [Write(|rec|)] + ([Release] + []), end);
    assert [Acquire(1), Write(|rec|), Release] == [Acquire(1)] + ([Write(|rec|)] + ([Release] + []));
  }

  lemma FirstFails(c: Codec, e: Entry, f: Entry, n: nat, steps: seq<Step>, end: State)
    requires 0 < n <= |c.encode(e)|
    requires Run(c, State(Record(c, e)[..n], None, [Turn(0, e, Record(c, e)[..n])], [[], [f]]), steps, end)
    ensures Run(c, Initial([[e], [f]]), [Acquire(0), Write(n), Fail] + steps, end)
  {
    var torn, none: seq<Entry> := Record(c, e)[..n], [];
    var t := Turn(0, e, torn);
    assert [e][1..] == none && [[e], [f]][0 := none] == [none, [f]] && "" + torn == torn;
    RunCons(c, State(torn, Some(t), [], [[], [f]]), Fail, State(torn, None, [t], [[], [f]]), steps, end);
    RunCons(c, State("", Some(Turn(0, e, "")), [], [[], [f]]), Write(n), State(torn, Some(t), [], [[], [f]]),
            [Fail] + steps, end);
    RunCons(c, Initial([[e], [f]]), Acquire(0), State("", Some(Turn(0, e, "")), [], [[], [f]]),
            [Write(n)] + ([Fail] + steps), end);
    assert [Acquire(0), Write(n), Fail] + steps == [Acquire(0)] + ([Write(n)] + ([Fail] + steps));
  }

  lemma TornRunReaches(c: Codec, e: Entry, f: Entry, n: nat)
    requires 0 < n <= |c.encode(e)|
    ensures Run(c, Initial([[e], [f]]), TornRun(c, f, n), TornState(c, e, f, n))
  {
    var torn := Record(c, e)[..n];
    SecondAppends(c, Turn(0, e, torn), f, torn);
    FirstFails(c, e, f, n, [Acquire(1), Write(|Record(c, f)|), Release], TornState(c, e, f, n));
    assert TornRun(c, f, n) == [Acquire(0), Write(n), Fail] + [Acquire(1), Write(|Record(c, f)|), Release];
  }

  lemma OneTorn(c: Codec, t: Turn)
    requires !Whole(c, t)
    ensures Written([t]) == t.written && Entries(Survivors(c, [t])) == [] && TornTail(c, [t]) == t.written
  {
    assert [t][..0] == [];
    assert Written([t]) == Written([]) + t.written && TornTail(c, [t]) == TornTail(c, []) + t.written;
  }

  lemma TornPair(c: Codec, t: Turn, u: Turn)
    requires !Whole(c, t) && t.written != "" && Whole(c, u)
    ensures Written([t, u]) == t.written + u.written
    ensures Entries(Survivors(c, [t, u])) == [] && TornTail(c, [t, u]) == ""
  {
    OneTorn(c, t);
    SurvivorsSnoc(c, [t], u);
    assert [t] + [u] == [t, u] && [t, u][..1] == [t];
  }

  lemma TornPairScan(c: Codec, t: Turn, u: Turn, parse: string -> seq<Entry>)
    requires GoodTurns(c, [t, u]) && ParsesRecords(c, parse) && GlueFree(c, parse)
    requires !Whole(c, t) && t.written != "" && Whole(c, u)
    ensures Written([t, u]) == t.written + u.written
    ensures ScanTurns(c, [t, u], parse).entries == [] && ScanTurns(c, [t, u], parse).pending == ""
  {
    var ts := [t, u];
    TornPair(c, t, u);
    SurvivorsScanned(c, ts, parse);
    PendingIsTornTail(c, ts, parse);
  }

  lemma TornPairReads(c: Codec, t: Turn, u: Turn)
    requires GoodTurns(c, [t, u]) && GlueFree(c, LineParser(c)) && !Whole(c, t) && t.written != "" && Whole(c, u)
    ensures ReadBack(c, t.written + u.written) == []
  {
    LineParserParses(c);
    TornPairScan(c, t, u, LineParser(c));
    ReadIsRecovered(c, [t, u]);
    assert ParseLine(c, "") == [] by { assert Trim("") == ""; }
  }

  /** A torn append takes the next record with it: the second writer's append succeeded, and a
      read returns nothing. */
  lemma TornAppendLosesNext(c: Codec, e: Entry, f: Entry, n: nat)
    requires Faithful(c, e) && Faithful(c, f) && GlueFree(c, LineParser(c)) && 0 < n <= |c.encode(e)|
    ensures Run(c, Initial([[e], [f]]), TornRun(c, f, n), TornState(c, e, f, n))
    ensures Whole(c, TornState(c, e, f, n).ended[1]) && ReadBack(c, TornState(c, e, f, n).file) == []
  {
    TornRunReaches(c, e, f, n);
    TornPairReads(c, Turn(0, e, Record(c, e)[..n]), Turn(1, f, Record(c, f)));
  }

  /** A read of the finished entries and at most one more, which needs an open lock period. */
  ghost predicate Shows(read: seq<Entry>, finished: seq<Entry>, lockFree: bool) {
    finished <= read && |read| <= |finished| + 1 && (lockFree ==> read == finished)
  }

  /** Without I/O errors the finished entries are read back whole, once each and in lock
      order, at every moment; only the open record can follow them. */
  lemma FinishedEntriesReadBack(c: Codec, todo: seq<seq<Entry>>, steps: seq<Step>, s: State)
    requires AllFaithful(c, todo) && Run(c, Initial(todo), steps, s) && Fail !in steps
    ensures Shows(ReadBack(c, s.file), Entries(s.ended), s.holder.None?)
  {
    ReadAtAnyTime(c, todo, steps, s);
    ReachedIsKept(c, todo, steps, s);
    ReachedTurnsGood(c, todo, s);
    EndedTurnsWhole(c, Initial(todo), steps, s);
    assert forall t | t in s.ended :: t in Turns(s);
    LineParserParses(c);
    WholeTurnsRecovered(c, s.ended, LineParser(c));
    LineParserYieldsOne(c);
    OpenTurnRecovered(c, s, LineParser(c));
  }

  /** A line yields at most one entry, and an empty one none. */
  ghost predicate OneAtMost(parse: string -> seq<Entry>) { parse("") == [] && forall line :: |parse(line)| <= 1 }

  lemma LineParserYieldsOne(c: Codec)
    ensures OneAtMost(LineParser(c))
  {
    assert Trim("") == "";
  }

  lemma OpenTurnScanned(c: Codec, ended: seq<Turn>, t: Turn, parse: string -> seq<Entry>)
    requires OneAtMost(parse) && ScanTurns(c, ended, parse).pending == ""
    ensures var es, scan := ScanTurns(c, ended, parse).entries, ScanTurns(c, ended + [t], parse);
      Shows(scan.entries + parse(scan.pending), es, false)
  {
    ScanSnoc(c, ended, t, parse);
  }

  lemma OpenTurnRecovered(c: Codec, s: State, parse: string -> seq<Entry>)
    requires OneAtMost(parse)
    requires ScanTurns(c, s.ended, parse).entries == Entries(s.ended) && ScanTurns(c, s.ended, parse).pending == ""
    ensures var scan := ScanTurns(c, Turns(s), parse);
      Shows(scan.entries + parse(scan.pending), Entries(s.ended), s.holder.None?)
  {
    if s.holder.Some? {
      OpenTurnScanned(c, s.ended, s.holder.value, parse);
    } else {
      assert Turns(s) == s.ended;
    }
  }

  /** Without I/O errors, whenever the lock is free the ledger is the concatenation of whole
      records in lock order. */
  lemma LedgerIsWholeRecords(c: Codec, todo: seq<seq<Entry>>, steps: seq<Step>, s: State)
    requires Run(c, Initial(todo), steps, s) && Fail !in steps && s.holder.None?
    ensures s.file == Records(c, Entries(s.ended))
  {
    ReachedIsKept(c, todo, steps, s);
    EndedTurnsWhole(c, Initial(todo), steps, s);
    assert Turns(s) == s.ended;
    WholeTurnsAreRecords(c, s.ended);
  }

  function Records(c: Codec, es: seq<Entry>): string {
    if es == [] then "" else Records(c, es[..|es| - 1]) + Record(c, es[|es| - 1])
  }

  lemma {:induction false} WholeTurnsAreRecords(c: Codec, ts: seq<Turn>)
    requires forall t | t in ts :: Whole(c, t)
    ensures Written(ts) == Records(c, Entries(ts))
  {
    if ts != [] {
      var n := |ts| - 1;
      assert forall t | t in ts[..n] :: t in ts;
      WholeTurnsAreRecords(c, ts[..n]);
      var es := Entries(ts[..n]);
      assert (es + [ts[n].entry])[..|es + [ts[n].entry]| - 1] == es;
      assert ts[n] in ts;
    }
  }

  predicate Drained(s: State) { s.holder.None? && forall w | 0 <= w < |s.todo| :: s.todo[w] == [] }

  lemma {:induction false} NothingQueued(todo: seq<seq<Entry>>)
    requires forall w | 0 <= w < |todo| :: todo[w] == []
    ensures Queued(todo) == multiset{}
  {
    if todo != [] { NothingQueued(todo[..|todo| - 1]); }
  }

  /** Once every writer is done, each recorded entry is read exactly once, each writer's
      entries in the order it recorded them. */
  lemma NothingLostOrDuplicated(c: Codec, todo: seq<seq<Entry>>, steps: seq<Step>, s: State)
    requires AllFaithful(c, todo) && Run(c, Initial(todo), steps, s) && Fail !in steps && Drained(s)
    ensures multiset(ReadBack(c, s.file)) == Queued(todo)
    ensures forall w | 0 <= w < |todo| :: TakenBy(s.ended, w) == todo[w]
    ensures ReadBack(c, s.file) == Entries(s.ended)
  {
    FinishedEntriesReadBack(c, todo, steps, s);
    ReachedIsKept(c, todo, steps, s);
    NothingQueued(s.todo);
    assert Turns(s) == s.ended;
    forall w | 0 <= w < |todo|
      ensures TakenBy(s.ended, w) == todo[w]
    {
      assert todo[w] == TakenBy(Turns(s), w) + s.todo[w];
    }
  }

  // Summaries ----------------------------------------------------------------

  datatype Summary = Summary(promptTokens: nat, completionTokens: nat, costUsd: real, count: nat)

  function Plus(a: Summary, b: Summary): Summary {
    Summary(a.promptTokens + b.promptTokens, a.completionTokens + b.completionTokens,
            a.costUsd + b.costUsd, a.count + b.count)
  }

  lemma PlusExchanges()
    ensures Exchanges(Plus)
  {
  }

  function Counting(keep: Entry -> bool): Entry -> Summary {
    e => if keep(e) then Summary(e.promptTokens, e.completionTokens, e.costUsd, 1) else Summary(0, 0, 0.0, 0)
  }

  /** The exact sums over the entries of a period. */
  function PeriodTotals(es: seq<Entry>, keep: Entry -> bool): Summary {
    Fold(es, Counting(keep), Plus, Summary(0, 0, 0.0, 0))
  }

  /** What one more entry of the period changes: each figure by the entry's figure of the same
      name, and the count by one. */
  predicate Adds(before: Summary, after: Summary, e: Entry) {
    && after.promptTokens == before.promptTokens + e.promptTokens
    && after.completionTokens == before.completionTokens + e.completionTokens
    && after.costUsd == before.costUsd + e.costUsd && after.count == before.count + 1
  }

  lemma NothingTotals(keep: Entry -> bool)
    ensures PeriodTotals([], keep) == Summary(0, 0, 0.0, 0)
  {
  }

  lemma PlusCounted(s: Summary, e: Entry, keep: Entry -> bool)
    ensures if keep(e) then Adds(s, Plus(s, Counting(keep)(e)), e) else Plus(s, Counting(keep)(e)) == s
  {
  }

  /** An entry of the period adds its figures to the totals, and any other entry adds nothing. */
  lemma TotalsGrow(es: seq<Entry>, e: Entry, keep: Entry -> bool)
    ensures if keep(e) then Adds(PeriodTotals(es, keep), PeriodTotals(es + [e], keep), e)
            else PeriodTotals(es + [e], keep) == PeriodTotals(es, keep)
  {
    FoldSnoc(es, e, Counting(keep), Plus, Summary(0, 0, 0.0, 0));
    PlusCounted(PeriodTotals(es, keep), e, keep);
  }

  /** The totals of a period and of the rest add up to the totals of everything. */
  lemma {:induction false} TotalsPartition(es: seq<Entry>, keep: Entry -> bool)
    ensures Plus(PeriodTotals(es, keep), PeriodTotals(es, e => !keep(e))) == PeriodTotals(es, e => true)
  {
    if es != [] {
      var n := |es| - 1;
      TotalsPartition(es[..n], keep);
      assert es == es[..n] + [es[n]];
      TotalsGrow(es[..n], es[n], keep);
      TotalsGrow(es[..n], es[n], e => !keep(e));
      TotalsGrow(es[..n], es[n], e => true);
    }
  }

  /** Token totals are 64-bit and wrap. */
  function Wrapped(s: Summary): Summary {
    s.(promptTokens := s.promptTokens % U64, completionTokens := s.completionTokens % U64)
  }

  /** What wrapping takes away is a whole number of wraps. */
  lemma WrappedLosesWraps(s: Summary) returns (m: nat, n: nat)
    ensures s.promptTokens == Wrapped(s).promptTokens + m * 0x1_0000_0000_0000_0000
    ensures s.completionTokens == Wrapped(s).completionTokens + n * 0x1_0000_0000_0000_0000
  {
    m, n := s.promptTokens / U64, s.completionTokens / U64;
  }

  lemma WrapAdd(a: nat, b: nat)
    ensures (a % U64 + b) % U64 == (a + b) % U64
  {
    assert a == U64 * (a / U64) + a % U64;
    var r := a % U64 + b;
    assert a + b == U64 * (a / U64) + r;
    assert (U64 * (a / U64) + r) % U64 == r % U64;
  }

  method Summarize(es: seq<Entry>, keep: Entry -> bool) returns (r: Summary)
    ensures r == Wrapped(PeriodTotals(es, keep))
    ensures r.promptTokens < 0x1_0000_0000_0000_0000 && r.completionTokens < 0x1_0000_0000_0000_0000
    ensures r.costUsd == PeriodTotals(es, keep).costUsd && r.count == PeriodTotals(es, keep).count
  {
    var prompt: nat, completion: nat, cost: real, count: nat := 0, 0, 0.0, 0;
    for i := 0 to |es|
      invariant Summary(prompt, completion, cost, count) == Wrapped(PeriodTotals(es[..i], keep))
    {
      assert es[..i + 1][..i] == es[..i];
      if keep(es[i]) {
        WrapAdd(PeriodTotals(es[..i], keep).promptTokens, es[i].promptTokens);
        WrapAdd(PeriodTotals(es[..i], keep).completionTokens, es[i].completionTokens);
        prompt := (prompt + es[i].promptTokens) % U64;
        completion := (completion + es[i].completionTokens) % U64;
        cost := cost + es[i].costUsd;
        count := count + 1;
      }
    }
    assert es[..|es|] == es;
    r := Summary(prompt, completion, cost, count);
  }

  /** Indifferent to the order of the entries. */
  ghost predicate OrderFree(summary: seq<Entry> -> Summary) {
    forall es, fs | multiset(es) == multiset(fs) :: summary(es) == summary(fs)
  }

  function TotalsOf(keep: Entry -> bool): seq<Entry> -> Summary { es => PeriodTotals(es, keep) }

  lemma TotalsAreOrderFree(keep: Entry -> bool)
    ensures OrderFree(TotalsOf(keep))
  {
    PlusExchanges();
    forall es, fs | multiset(es) == multiset(fs) ensures PeriodTotals(es, keep) == PeriodTotals(fs, keep) {
      FoldPermuted(es, fs, Counting(keep), Plus, Summary(0, 0, 0.0, 0));
    }
  }

  /** Two runs that record the same entries, in any interleavings, give the same summary, such
      as the totals of any period. */
  lemma SummaryIgnoresInterleaving(c: Codec, todo: seq<seq<Entry>>, steps1: seq<Step>, s1: State,
                                   steps2: seq<Step>, s2: State, summary: seq<Entry> -> Summary)
    requires AllFaithful(c, todo) && OrderFree(summary)
    requires Run(c, Initial(todo), steps1, s1) && Fail !in steps1 && Drained(s1)
    requires Run(c, Initial(todo), steps2, s2) && Fail !in steps2 && Drained(s2)
    ensures summary(ReadBack(c, s1.file)) == summary(ReadBack(c, s2.file))
  {
    NothingLostOrDuplicated(c, todo, steps1, s1);
    NothingLostOrDuplicated(c, todo, steps2, s2);
  }

  // Token estimates ----------------------------------------------------------

  /** Saturating addition before the division. */
  function EstimateTokens(chars: nat): nat
    requires chars < U64
  {
    (if chars + (CHARS_PER_TOKEN - 1) < U64 then chars + (CHARS_PER_TOKEN - 1) else U64 - 1) / CHARS_PER_TOKEN
  }

  /** The estimate rounds up, except for the last three lengths a 64-bit count can hold. */
  lemma EstimateRoundsUpIff(chars: nat)
    requires chars < U64
    ensures (CHARS_PER_TOKEN * EstimateTokens(chars) >= chars) <==> chars <= U64 - CHARS_PER_TOKEN
    ensures CHARS_PER_TOKEN * (EstimateTokens(chars) - 1) < chars || chars == 0
  {
  }
}
