/** The evaluation watchdog: recent scores bucketed by scenario, each bucket trimmed to its newest
    records, and a verdict on whether the signal is dead. Scores are reals; the order in which
    a hash map yields its buckets is unspecified. */
module Watchdog {
  import opened Sequences
  import opened Sorting

  datatype ScoreRecord = ScoreRecord(scenario: string, score: real, time: int)

  datatype Config = Config(window: nat, minScenarios: nat, minRecords: nat)

  datatype Verdict =
    | Healthy
    | AllZero(count: nat, scenarios: nat)
    | Identical(score: real, count: nat, scenarios: nat)

  /** The double-precision machine epsilon, 2 to the power -52. */
  const EPSILON: real := 1.0 / 4503599627370496.0

  predicate Near(a: real, b: real) { -EPSILON < a - b < EPSILON }

  predicate Newer(a: ScoreRecord, b: ScoreRecord) { a.time > b.time }

  function Scenarios(records: seq<ScoreRecord>): set<string> { set r | r in records :: r.scenario }

  // Which records are inspected ----------------------------------------------

  /** Record `i` comes before record `j` in their scenario, newest first and then as listed. */
  predicate Ahead(records: seq<ScoreRecord>, i: nat, j: nat)
    requires i < |records| && j < |records|
  {
    && records[i].scenario == records[j].scenario
    && (records[i].time > records[j].time || (records[i].time == records[j].time && i < j))
  }

  ghost function AheadOf(records: seq<ScoreRecord>, j: nat): set<nat>
    requires j < |records|
  {
    set i: nat | i < |records| && Ahead(records, i, j)
  }

  /** The newest `window` records of every scenario. */
  ghost function Inspected(records: seq<ScoreRecord>, window: nat): set<nat> {
    set j: nat | j < |records| && |AheadOf(records, j)| < window
  }

  // Buckets ------------------------------------------------------------------

  function Places(records: seq<ScoreRecord>, sc: string): seq<nat> {
    if records == [] then [] else
    var n := |records| - 1;
    Places(records[..n], sc) + if records[n].scenario == sc then [n] else []
  }

  function Bucket(records: seq<ScoreRecord>, sc: string): seq<ScoreRecord> {
    if records == [] then [] else
    var n := |records| - 1;
    Bucket(records[..n], sc) + if records[n].scenario == sc then [records[n]] else []
  }

  function Trimmed(bucket: seq<ScoreRecord>, window: nat): seq<ScoreRecord> {
    var s := Sort(bucket, Newer);
    if |s| <= window then s else s[..window]
  }

  function RecordAt(records: seq<ScoreRecord>): nat -> ScoreRecord {
    (i: nat) => if i < |records| then records[i] else ScoreRecord("", 0.0, 0)
  }

  ghost function Pick(records: seq<ScoreRecord>, idx: seq<nat>): seq<ScoreRecord> { Map(idx, RecordAt(records)) }

  lemma {:induction false} PlacesListScenario(records: seq<ScoreRecord>, sc: string)
    ensures Increasing(Places(records, sc))
    ensures forall i | 0 <= i < |Places(records, sc)| :: Places(records, sc)[i] < |records|
    ensures forall i: nat :: i in Places(records, sc) <==> i < |records| && records[i].scenario == sc
  {
    if records != [] {
      var n := |records| - 1;
      PlacesListScenario(records[..n], sc);
    }
  }

  lemma {:induction false} BucketAtPlaces(records: seq<ScoreRecord>, sc: string)
    ensures Bucket(records, sc) == Pick(records, Places(records, sc))
  {
    if records != [] {
      var n := |records| - 1;
      var front := Places(records[..n], sc);
      BucketAtPlaces(records[..n], sc);
      PlacesListScenario(records[..n], sc);
      assert forall i | 0 <= i < |front| :: front[i] in front;
      assert Pick(records[..n], front) == Pick(records, front);
      MapSnoc<nat, ScoreRecord>(front, n, RecordAt(records));
    }
  }

  // Sorting records is sorting their places ----------------------------------

  function TimeAt(records: seq<ScoreRecord>, i: nat): int { RecordAt(records)(i).time }

  ghost function NewerAt(records: seq<ScoreRecord>): (nat, nat) -> bool {
    (i: nat, j: nat) => TimeAt(records, i) > TimeAt(records, j)
  }

  // A record's place in its bucket is its rank --------------------------------

  /** The places of a scenario's records, newest first. */
  ghost function Line(records: seq<ScoreRecord>, sc: string): seq<nat> {
    Sort(Places(records, sc), NewerAt(records))
  }

  ghost predicate Marches(records: seq<ScoreRecord>, line: seq<nat>) {
    && (forall i | 0 <= i < |line| :: line[i] < |records|)
    && forall p, q | 0 <= p < q < |line| :: Ahead(records, line[p], line[q])
  }

  ghost predicate IsLine(records: seq<ScoreRecord>, sc: string, line: seq<nat>) {
    Marches(records, line) && forall i: nat :: i in line <==> i < |records| && records[i].scenario == sc
  }

  lemma StableMarches(records: seq<ScoreRecord>, sc: string, line: seq<nat>)
    requires StablySorted(line, NewerAt(records))
    requires forall i | 0 <= i < |line| :: line[i] < |records| && records[line[i]].scenario == sc
    ensures Marches(records, line)
  {
    var newer := NewerAt(records);
    forall p, q | 0 <= p < q < |line|
      ensures Ahead(records, line[p], line[q])
    {
      assert newer(line[p], line[q]) || (!newer(line[q], line[p]) && line[p] < line[q]);
      assert RecordAt(records)(line[p]) == records[line[p]] && RecordAt(records)(line[q]) == records[line[q]];
    }
  }

  lemma LineIsLine(records: seq<ScoreRecord>, sc: string)
    ensures IsLine(records, sc, Line(records, sc))
  {
    PlacesListScenario(records, sc);
    var places, line := Places(records, sc), Line(records, sc);
    SortMembers(places, NewerAt(records));
    SortStable(places, NewerAt(records));
    forall i | 0 <= i < |line| ensures line[i] < |records| && records[line[i]].scenario == sc {
      assert line[i] in line;
    }
    StableMarches(records, sc, line);
  }

  lemma RankIsPosition(records: seq<ScoreRecord>, sc: string, line: seq<nat>, p: nat)
    requires IsLine(records, sc, line) && p < |line|
    ensures |AheadOf(records, line[p])| == p
  {
    var front, ahead := line[..p], AheadOf(records, line[p]);
    assert line[p] in line;
    assert forall q | p < q < |line| :: Ahead(records, line[p], line[q]);
    forall i: nat
      ensures i in front <==> i in ahead
    {
      if i in ahead {
        assert i in line;
        var q :| 0 <= q < |line| && line[q] == i;
      }
    }
    forall q, r | 0 <= q < r < |front| ensures front[q] != front[r] { assert Ahead(records, line[q], line[r]); }
    ListedCount(front, ahead);
  }

  ghost function Front(line: seq<nat>, window: nat): seq<nat> {
    if |line| <= window then line else line[..window]
  }

  ghost function InspectedOf(records: seq<ScoreRecord>, sc: string, window: nat): set<nat> {
    set j | j in Inspected(records, window) && records[j].scenario == sc
  }

  /** A trimmed bucket holds the newest `window` records of its scenario, each once. */
  lemma FrontIsInspected(records: seq<ScoreRecord>, sc: string, line: seq<nat>, window: nat)
    requires IsLine(records, sc, line)
    ensures Lists(Front(line, window), InspectedOf(records, sc, window))
  {
    var front := Front(line, window);
    forall j
      ensures j in front <==> j in InspectedOf(records, sc, window)
    {
      if j in line {
        var p :| 0 <= p < |line| && line[p] == j;
        RankIsPosition(records, sc, line, p);
        assert p < |front| ==> front[p] == j;
        if j in front {
          var q :| 0 <= q < |front| && front[q] == j;
          RankIsPosition(records, sc, line, q);
        }
      }
    }
    forall q, r | 0 <= q < r < |front| ensures front[q] != front[r] { assert Ahead(records, line[q], line[r]); }
  }

  lemma PickFront(records: seq<ScoreRecord>, line: seq<nat>, window: nat)
    ensures var s := Pick(records, line);
      Pick(records, Front(line, window)) == if |s| <= window then s else s[..window]
  {
  }

  lemma TrimmedIsFront(records: seq<ScoreRecord>, sc: string, window: nat)
    ensures Trimmed(Bucket(records, sc), window) == Pick(records, Front(Line(records, sc), window))
  {
    BucketAtPlaces(records, sc);
    SortMap<nat, ScoreRecord>(Places(records, sc), RecordAt(records), NewerAt(records), Newer);
    PickFront(records, Line(records, sc), window);
  }

  // The verdict --------------------------------------------------------------

  function TailOf(records: seq<ScoreRecord>, window: nat): string -> seq<ScoreRecord> {
    sc => Trimmed(Bucket(records, sc), window)
  }

  /** The buckets in the order in which the map yields the scenarios. */
  function Tails(order: seq<string>, tail: string -> seq<ScoreRecord>): seq<seq<ScoreRecord>> {
    seq(|order|, i requires 0 <= i < |order| => tail(order[i]))
  }

  function Retained(tails: seq<seq<ScoreRecord>>): (r: seq<seq<ScoreRecord>>)
    ensures forall i | 0 <= i < |r| :: r[i] != []
  {
    if tails == [] then [] else
    var n := |tails| - 1;
    Retained(tails[..n]) + if tails[n] != [] then [tails[n]] else []
  }

  function Flat(tails: seq<seq<ScoreRecord>>): (r: seq<ScoreRecord>)
    ensures r != [] ==> tails != []
  {
    if tails == [] then [] else
    var n := |tails| - 1;
    Flat(tails[..n]) + tails[n]
  }

  function Judge(tails: seq<seq<ScoreRecord>>, config: Config): Verdict
    requires forall i | 0 <= i < |tails| :: tails[i] != []
  {
    var flat := Flat(tails);
    if |tails| < config.minScenarios then Healthy
    else if forall i | 0 <= i < |flat| :: flat[i].score == 0.0 then AllZero(|flat|, |tails|)
    else
      var first := tails[0][0].score;
      if (forall i | 0 <= i < |flat| :: Near(flat[i].score, first)) && first != 0.0
      then Identical(first, |flat|, |tails|) else Healthy
  }

  function Detect(records: seq<ScoreRecord>, order: seq<string>, config: Config): Verdict {
    if |records| < config.minRecords then Healthy
    else Judge(Retained(Tails(order, TailOf(records, config.window))), config)
  }

  ghost function FlatPlaces(records: seq<ScoreRecord>, order: seq<string>, window: nat): seq<nat> {
    if order == [] then [] else
    var n := |order| - 1;
    FlatPlaces(records, order[..n], window) + Front(Line(records, order[n]), window)
  }

  ghost function InspectedIn(records: seq<ScoreRecord>, order: seq<string>, window: nat): set<nat> {
    set j | j in Inspected(records, window) && records[j].scenario in order
  }

  lemma InspectedSnoc(records: seq<ScoreRecord>, order: seq<string>, sc: string, window: nat)
    requires sc !in order
    ensures InspectedIn(records, order + [sc], window) ==
      InspectedIn(records, order, window) + InspectedOf(records, sc, window)
    ensures InspectedIn(records, order, window) !! InspectedOf(records, sc, window)
  {
  }

  lemma {:induction false} FlatIsInspected(records: seq<ScoreRecord>, order: seq<string>, window: nat)
    requires Distinct(order)
    ensures Lists(FlatPlaces(records, order, window), InspectedIn(records, order, window))
  {
    if order != [] {
      var front, sc := order[..|order| - 1], order[|order| - 1];
      FlatIsInspected(records, front, window);
      LineIsLine(records, sc);
      FrontIsInspected(records, sc, Line(records, sc), window);
      assert order == front + [sc] && sc !in front;
      InspectedSnoc(records, front, sc, window);
      ListsConcat(FlatPlaces(records, front, window), InspectedIn(records, front, window),
                  Front(Line(records, sc), window), InspectedOf(records, sc, window));
    }
  }

  lemma PickConcat(records: seq<ScoreRecord>, a: seq<nat>, b: seq<nat>)
    ensures Pick(records, a + b) == Pick(records, a) + Pick(records, b)
  {
  }

  lemma FlatSnoc(order: seq<string>, tail: string -> seq<ScoreRecord>)
    requires order != []
    ensures Flat(Tails(order, tail)) == Flat(Tails(order[..|order| - 1], tail)) + tail(order[|order| - 1])
  {
    assert Tails(order, tail)[..|order| - 1] == Tails(order[..|order| - 1], tail);
  }

  lemma {:induction false} FlatAtPlaces(records: seq<ScoreRecord>, order: seq<string>, window: nat)
    ensures Flat(Tails(order, TailOf(records, window))) == Pick(records, FlatPlaces(records, order, window))
  {
    if order != [] {
      var n := |order| - 1;
      FlatAtPlaces(records, order[..n], window);
      TrimmedIsFront(records, order[n], window);
      PickConcat(records, FlatPlaces(records, order[..n], window), Front(Line(records, order[n]), window));
      FlatSnoc(order, TailOf(records, window));
    }
  }

  lemma {:induction false} RetainAll(tails: seq<seq<ScoreRecord>>)
    requires forall i | 0 <= i < |tails| :: tails[i] != []
    ensures Retained(tails) == tails
  {
    if tails != [] { RetainAll(tails[..|tails| - 1]); }
  }

  lemma {:induction false} RetainNone(tails: seq<seq<ScoreRecord>>)
    requires forall i | 0 <= i < |tails| :: tails[i] == []
    ensures Retained(tails) == []
  {
    if tails != [] { RetainNone(tails[..|tails| - 1]); }
  }

  // What the verdict means ----------------------------------------------------

  ghost function Seen(records: seq<ScoreRecord>, window: nat): set<ScoreRecord> {
    set j | j in Inspected(records, window) :: records[j]
  }

  ghost predicate IsNewest(records: seq<ScoreRecord>, sc: string, j: nat) {
    j < |records| && records[j].scenario == sc && AheadOf(records, j) == {}
  }

  /** A window of zero leaves no scenario to judge. */
  ghost function Judged(records: seq<ScoreRecord>, config: Config): nat {
    if config.window == 0 then 0 else |Scenarios(records)|
  }

  ghost predicate NewestScore(records: seq<ScoreRecord>, sc: string, score: real) {
    exists j: nat :: IsNewest(records, sc, j) && records[j].score == score
  }

  ghost function Ruling(seen: set<ScoreRecord>, count: nat, scenarios: nat, config: Config, first: real): Verdict {
    if scenarios < config.minScenarios then Healthy
    else if forall r | r in seen :: r.score == 0.0 then AllZero(count, scenarios)
    else if first != 0.0 && forall r | r in seen :: Near(r.score, first) then Identical(first, count, scenarios)
    else Healthy
  }

  /** The verdict in terms of the inspected records and the newest score of the first scenario. */
  ghost function Expected(records: seq<ScoreRecord>, config: Config, first: real): Verdict {
    if |records| < config.minRecords then Healthy
    else
      var w := config.window;
      Ruling(Seen(records, w), |Inspected(records, w)|, Judged(records, config), config, first)
  }

  lemma FlatIsSeen(records: seq<ScoreRecord>, order: seq<string>, window: nat)
    requires Lists(order, Scenarios(records))
    ensures var flat := Flat(Tails(order, TailOf(records, window)));
      |flat| == |Inspected(records, window)| && forall r :: r in flat <==> r in Seen(records, window)
  {
    FlatIsInspected(records, order, window);
    FlatAtPlaces(records, order, window);
    AllScenariosIn(records, order, window);
    ListedCount(FlatPlaces(records, order, window), Inspected(records, window));
    PickMembers(records, FlatPlaces(records, order, window));
  }

  lemma AllScenariosIn(records: seq<ScoreRecord>, order: seq<string>, window: nat)
    requires Lists(order, Scenarios(records))
    ensures InspectedIn(records, order, window) == Inspected(records, window)
  {
    assert forall j | j in Inspected(records, window) :: records[j] in records && records[j].scenario in order;
  }

  lemma PickMembers(records: seq<ScoreRecord>, idx: seq<nat>)
    requires forall j | j in idx :: j < |records|
    ensures forall r :: r in Pick(records, idx) <==> exists j :: j in idx && j < |records| && records[j] == r
  {
    var s := Pick(records, idx);
    forall r | r in s ensures exists j :: j in idx && j < |records| && records[j] == r {
      var i :| 0 <= i < |s| && s[i] == r;
      assert idx[i] in idx;
    }
    forall j | j in idx ensures records[j] in s {
      var i :| 0 <= i < |idx| && idx[i] == j;
      assert s[i] == records[j];
    }
  }

  lemma LineStart(records: seq<ScoreRecord>, sc: string, j: nat)
    requires IsNewest(records, sc, j)
    ensures Line(records, sc) != [] && Line(records, sc)[0] == j
  {
    LineIsLine(records, sc);
    var line := Line(records, sc);
    assert j in line;
    var p :| 0 <= p < |line| && line[p] == j;
    RankIsPosition(records, sc, line, p);
  }

  lemma ScenarioHasNewest(records: seq<ScoreRecord>, sc: string) returns (j: nat)
    requires sc in Scenarios(records)
    ensures IsNewest(records, sc, j)
  {
    LineIsLine(records, sc);
    var i :| 0 <= i < |records| && records[i].scenario == sc;
    var line := Line(records, sc);
    assert i in line;
    j := line[0];
    assert j in line;
    RankIsPosition(records, sc, line, 0);
  }

  lemma TailStart(records: seq<ScoreRecord>, sc: string, j: nat, window: nat)
    requires IsNewest(records, sc, j) && window > 0
    ensures TailOf(records, window)(sc) != [] && TailOf(records, window)(sc)[0] == records[j]
  {
    LineStart(records, sc, j);
    TrimmedIsFront(records, sc, window);
  }

  lemma RetainedTails(records: seq<ScoreRecord>, order: seq<string>, window: nat)
    requires Lists(order, Scenarios(records))
    ensures var tails := Tails(order, TailOf(records, window));
      Retained(tails) == if window == 0 then [] else tails
  {
    var tails := Tails(order, TailOf(records, window));
    if window == 0 {
      RetainNone(tails);
    } else {
      forall i | 0 <= i < |tails|
        ensures tails[i] != []
      {
        assert order[i] in order;
        var j := ScenarioHasNewest(records, order[i]);
        TailStart(records, order[i], j, window);
      }
      RetainAll(tails);
    }
  }

  lemma JudgeBy(tails: seq<seq<ScoreRecord>>, config: Config, seen: set<ScoreRecord>, first: real)
    requires forall i | 0 <= i < |tails| :: tails[i] != []
    requires forall r :: r in Flat(tails) <==> r in seen
    requires tails != [] ==> tails[0][0].score == first
    ensures Judge(tails, config) == Ruling(seen, |Flat(tails)|, |tails|, config, first)
  {
    var flat := Flat(tails);
    assert forall i | 0 <= i < |flat| :: flat[i] in flat;
  }

  lemma NothingSeen(records: seq<ScoreRecord>)
    ensures Inspected(records, 0) == {} && Seen(records, 0) == {}
  {
  }

  lemma TailsJudged(records: seq<ScoreRecord>, order: seq<string>, config: Config, first: real)
    requires Lists(order, Scenarios(records)) && config.window > 0
    requires order != [] ==> NewestScore(records, order[0], first)
    ensures var w, tails := config.window, Tails(order, TailOf(records, config.window));
      Judge(Retained(tails), config) ==
        Ruling(Seen(records, w), |Inspected(records, w)|, |Scenarios(records)|, config, first)
  {
    var tails := Tails(order, TailOf(records, config.window));
    RetainedTails(records, order, config.window);
    FlatIsSeen(records, order, config.window);
    ListedCount(order, Scenarios(records));
    if order != [] {
      var j: nat :| IsNewest(records, order[0], j) && records[j].score == first;
      TailStart(records, order[0], j, config.window);
    }
    JudgeBy(Retained(tails), config, Seen(records, config.window), first);
  }

  /** Whatever the bucket order, the verdict is the expected one for the newest score of the
      scenario that comes first. */
  lemma DetectIsExpected(records: seq<ScoreRecord>, order: seq<string>, config: Config, first: real)
    requires Lists(order, Scenarios(records))
    requires order != [] ==> NewestScore(records, order[0], first)
    ensures Detect(records, order, config) == Expected(records, config, first)
  {
    if config.window == 0 {
      NothingSeen(records);
      RetainedTails(records, order, 0);
      JudgeBy([], config, {}, first);
    } else {
      TailsJudged(records, order, config, first);
    }
  }

  lemma SomeNewest(records: seq<ScoreRecord>, order: seq<string>) returns (first: real)
    requires Lists(order, Scenarios(records))
    ensures order != [] ==> NewestScore(records, order[0], first)
  {
    first := 0.0;
    if order != [] {
      assert order[0] in order;
      var j := ScenarioHasNewest(records, order[0]);
      first := records[j].score;
    }
  }

  /** With a window of at least one, the all-zero verdict is given exactly when there are enough
      records and scenarios and the newest records of every scenario are zero. */
  lemma AllZeroIff(records: seq<ScoreRecord>, order: seq<string>, config: Config)
    requires Lists(order, Scenarios(records)) && config.window >= 1
    ensures Detect(records, order, config).AllZero? <==>
      && |records| >= config.minRecords && |Scenarios(records)| >= config.minScenarios
      && forall j | j in Inspected(records, config.window) :: records[j].score == 0.0
    ensures Detect(records, order, config).AllZero? ==>
      Detect(records, order, config) == AllZero(|Inspected(records, config.window)|, |Scenarios(records)|)
  {
    var first := SomeNewest(records, order);
    DetectIsExpected(records, order, config, first);
    assert forall j | j in Inspected(records, config.window) :: records[j] in Seen(records, config.window);
  }

  /** Less than 2 to the power -52 apart, in either direction. */
  predicate Indistinct(a: real, b: real) { -1.0 < 4503599627370496.0 * (a - b) < 1.0 }

  lemma NearIff(a: real, b: real)
    ensures Near(a, b) <==> Indistinct(a, b)
    ensures Near(a, b) <==> Near(b, a)
  {
    assert 4503599627370496.0 * EPSILON == 1.0;
    assert (a - b) * 4503599627370496.0 - 1.0 == (a - b - EPSILON) * 4503599627370496.0;
    assert (a - b) * 4503599627370496.0 + 1.0 == (a - b + EPSILON) * 4503599627370496.0;
  }

  /** With a window of at least one, the identical verdict is given exactly when there are enough
      records and scenarios, the newest score of the first bucket is not zero and the newest
      records of every scenario are within the machine epsilon of it. */
  lemma IdenticalIff(records: seq<ScoreRecord>, order: seq<string>, config: Config, first: real)
    requires Lists(order, Scenarios(records)) && config.window >= 1
    requires order != [] && NewestScore(records, order[0], first)
    ensures Detect(records, order, config).Identical? <==>
      && |records| >= config.minRecords && |Scenarios(records)| >= config.minScenarios && first != 0.0
      && forall j | j in Inspected(records, config.window) :: Indistinct(records[j].score, first)
    ensures Detect(records, order, config).Identical? ==>
      Detect(records, order, config) == Identical(first, |Inspected(records, config.window)|, |Scenarios(records)|)
  {
    DetectIsExpected(records, order, config, first);
    FiresIff(records, config, order[0], first);
    forall j | j in Inspected(records, config.window)
      ensures Near(records[j].score, first) <==> Indistinct(records[j].score, first)
    {
      NearIff(records[j].score, first);
    }
  }

  /** With a window of zero nothing is inspected: the detector fires, with empty counts, exactly
      when no scenario is demanded. */
  lemma ZeroWindow(records: seq<ScoreRecord>, order: seq<string>, config: Config)
    requires Lists(order, Scenarios(records)) && config.window == 0
    ensures Detect(records, order, config) ==
      if |records| >= config.minRecords && config.minScenarios == 0 then AllZero(0, 0) else Healthy
  {
    var first := SomeNewest(records, order);
    DetectIsExpected(records, order, config, first);
    NothingSeen(records);
  }

  // Record order -------------------------------------------------------------

  /** No two records of a scenario have the same timestamp. */
  ghost predicate DistinctTimes(records: seq<ScoreRecord>) {
    forall i, j | 0 <= i < j < |records| && records[i].scenario == records[j].scenario ::
      records[i].time != records[j].time
  }

  ghost function NewerThan(all: set<ScoreRecord>, r: ScoreRecord): set<ScoreRecord> {
    set q | q in all && q.scenario == r.scenario && q.time > r.time
  }

  ghost function All(records: seq<ScoreRecord>): set<ScoreRecord> { set r | r in records }

  /** The newest `window` records of every scenario, without reference to any listing. */
  ghost function NewestFew(all: set<ScoreRecord>, window: nat): set<ScoreRecord> {
    set r | r in all && |NewerThan(all, r)| < window
  }

  lemma {:induction false} ImageSize(records: seq<ScoreRecord>, places: set<nat>, image: set<ScoreRecord>)
    requires Distinct(records) && forall j | j in places :: j < |records|
    requires forall r :: r in image <==> exists j :: j in places && records[j] == r
    ensures |image| == |places|
    decreases |places|
  {
    if places == {} {
      assert image == {};
    } else {
      var j :| j in places;
      ImageSize(records, places - {j}, image - {records[j]});
    }
  }

  lemma TimesDistinct(records: seq<ScoreRecord>)
    requires DistinctTimes(records)
    ensures Distinct(records)
  {
  }

  lemma RankBySet(records: seq<ScoreRecord>, j: nat)
    requires DistinctTimes(records) && j < |records|
    ensures |AheadOf(records, j)| == |NewerThan(All(records), records[j])|
  {
    TimesDistinct(records);
    var ahead, newer := AheadOf(records, j), NewerThan(All(records), records[j]);
    forall r
      ensures r in newer <==> exists i :: i in ahead && records[i] == r
    {
      if r in newer {
        var i :| 0 <= i < |records| && records[i] == r;
        assert i in ahead;
      }
    }
    ImageSize(records, ahead, newer);
  }

  lemma SeenBySet(records: seq<ScoreRecord>, window: nat)
    requires DistinctTimes(records)
    ensures Seen(records, window) == NewestFew(All(records), window)
    ensures |Inspected(records, window)| == |NewestFew(All(records), window)|
  {
    forall j: nat | j < |records|
      ensures j in Inspected(records, window) <==> records[j] in NewestFew(All(records), window)
    {
      RankBySet(records, j);
    }
    TimesDistinct(records);
    ImageSize(records, Inspected(records, window), Seen(records, window));
  }

  lemma NewestBySet(records: seq<ScoreRecord>, sc: string, score: real)
    requires DistinctTimes(records)
    ensures NewestScore(records, sc, score) <==>
      exists r :: r in All(records) && r.scenario == sc && r.score == score && NewerThan(All(records), r) == {}
  {
    forall j: nat | j < |records|
      ensures AheadOf(records, j) == {} <==> NewerThan(All(records), records[j]) == {}
    {
      RankBySet(records, j);
    }
    if NewestScore(records, sc, score) {
      var j: nat :| IsNewest(records, sc, j) && records[j].score == score;
      assert records[j] in All(records);
    }
  }

  lemma Reordered(a: seq<ScoreRecord>, b: seq<ScoreRecord>)
    requires multiset(a) == multiset(b) && DistinctTimes(a)
    ensures DistinctTimes(b) && All(a) == All(b) && |a| == |b|
  {
    assert forall r :: r in a <==> r in multiset(a);
    assert forall r :: r in b <==> r in multiset(b);
    assert |a| == |multiset(a)| && |b| == |multiset(b)|;
    TimesDistinct(a);
    forall i, j | 0 <= i < j < |b| && b[i].scenario == b[j].scenario
      ensures b[i].time != b[j].time
    {
      if b[i] == b[j] {
        CountTwo(b, i, j);
        CountAtMostOne(a, b[i]);
      } else {
        assert b[i] in a && b[j] in a;
      }
    }
  }

  /** With distinct timestamps in each scenario, verdict and counts ignore the record order. */
  lemma RecordOrderIgnored(a: seq<ScoreRecord>, b: seq<ScoreRecord>, order: seq<string>, config: Config)
    requires multiset(a) == multiset(b) && DistinctTimes(a) && Lists(order, Scenarios(a))
    ensures Detect(a, order, config) == Detect(b, order, config)
  {
    Reordered(a, b);
    SameScenarios(a, b);
    var first := SomeNewest(a, order);
    if order != [] {
      NewestBySet(a, order[0], first);
      NewestBySet(b, order[0], first);
    }
    DetectIsExpected(a, order, config, first);
    DetectIsExpected(b, order, config, first);
    SeenBySet(a, config.window);
    SeenBySet(b, config.window);
  }

  lemma SameScenarios(a: seq<ScoreRecord>, b: seq<ScoreRecord>)
    requires All(a) == All(b)
    ensures Scenarios(a) == Scenarios(b)
  {
    assert forall r :: r in a <==> r in All(a);
    assert forall r :: r in b <==> r in All(b);
  }

  // Bucket order -------------------------------------------------------------

  /** `score` is nonzero and every inspected score is within epsilon of it. */
  ghost predicate Fires(records: seq<ScoreRecord>, config: Config, score: real) {
    && |records| >= config.minRecords && |Scenarios(records)| >= config.minScenarios && config.window > 0
    && score != 0.0 && forall j | j in Inspected(records, config.window) :: Near(records[j].score, score)
  }

  lemma FiresIff(records: seq<ScoreRecord>, config: Config, sc: string, score: real)
    requires NewestScore(records, sc, score)
    ensures Expected(records, config, score).Identical? <==> Fires(records, config, score)
  {
    var w := config.window;
    var j: nat :| IsNewest(records, sc, j) && records[j].score == score;
    assert w > 0 ==> j in Inspected(records, w);
    assert w > 0 ==> records[j] in Seen(records, w);
    assert forall i | i in Inspected(records, w) :: records[i] in Seen(records, w);
    NothingSeen(records);
  }

  lemma {:induction false} FirstSeenHead<T>(s: seq<T>)
    requires s != []
    ensures FirstSeen(s) != [] && FirstSeen(s)[0] == s[0]
  {
    if |s| > 1 {
      FirstSeenHead(s[..|s| - 1]);
    } else {
      assert FirstSeen(s[..0]) == [];
    }
  }

  /** The map may yield any scenario first. */
  lemma AnyScenarioCanBeFirst(records: seq<ScoreRecord>, sc: string) returns (order: seq<string>)
    requires sc in Scenarios(records)
    ensures Lists(order, Scenarios(records)) && order != [] && order[0] == sc
  {
    var names := seq(|records|, i requires 0 <= i < |records| => records[i].scenario);
    order := FirstSeen([sc] + names);
    FirstSeenHead([sc] + names);
    assert forall i | 0 <= i < |names| :: names[i] == records[i].scenario && records[i] in records;
    forall x | x in Scenarios(records)
      ensures x in names
    {
      var i :| 0 <= i < |records| && records[i].scenario == x;
      assert names[i] == x;
    }
  }

  lemma SomeOrder(records: seq<ScoreRecord>) returns (order: seq<string>)
    ensures Lists(order, Scenarios(records))
  {
    order := [];
    if records != [] {
      assert records[0] in records;
      order := AnyScenarioCanBeFirst(records, records[0].scenario);
    }
  }

  /** Two scenarios have different newest scores, and one of these would fire. */
  ghost predicate Split(records: seq<ScoreRecord>, config: Config) {
    exists a, b, x, y ::
      NewestScore(records, a, x) && NewestScore(records, b, y) && x != y && Fires(records, config, x)
  }

  ghost predicate OrderMatters(records: seq<ScoreRecord>, config: Config) {
    exists o, p :: Lists(o, Scenarios(records)) && Lists(p, Scenarios(records)) &&
      Detect(records, o, config) != Detect(records, p, config)
  }

  lemma SplitMatters(records: seq<ScoreRecord>, config: Config)
    requires Split(records, config)
    ensures OrderMatters(records, config)
  {
    var a, b, x, y :|
      NewestScore(records, a, x) && NewestScore(records, b, y) && x != y && Fires(records, config, x);
    ScenarioOfNewest(records, a, x);
    ScenarioOfNewest(records, b, y);
    var o := AnyScenarioCanBeFirst(records, a);
    var p := AnyScenarioCanBeFirst(records, b);
    DetectIsExpected(records, o, config, x);
    DetectIsExpected(records, p, config, y);
    FiresIff(records, config, a, x);
  }

  lemma ScenarioOfNewest(records: seq<ScoreRecord>, sc: string, score: real)
    requires NewestScore(records, sc, score)
    ensures sc in Scenarios(records)
  {
    var j: nat :| IsNewest(records, sc, j) && records[j].score == score;
    assert records[j] in records;
  }

  lemma UnsplitIgnoresOrder(records: seq<ScoreRecord>, config: Config, o: seq<string>, p: seq<string>)
    requires !Split(records, config) && Lists(o, Scenarios(records)) && Lists(p, Scenarios(records))
    ensures Detect(records, o, config) == Detect(records, p, config)
  {
    ListedCount(o, Scenarios(records));
    ListedCount(p, Scenarios(records));
    var x := SomeNewest(records, o);
    var y := SomeNewest(records, p);
    DetectIsExpected(records, o, config, x);
    DetectIsExpected(records, p, config, y);
    if o != [] && x != y {
      FiresIff(records, config, o[0], x);
      FiresIff(records, config, p[0], y);
    } else if o == [] {
      DetectIsExpected(records, p, config, x);
    }
  }

  /** The bucket order changes the verdict exactly when the scenarios' newest scores differ and
      one of them is nonzero and within epsilon of every inspected score. */
  lemma BucketOrderMattersIff(records: seq<ScoreRecord>, config: Config)
    ensures OrderMatters(records, config) <==> Split(records, config)
  {
    if Split(records, config) {
      SplitMatters(records, config);
    } else {
      forall o, p | Lists(o, Scenarios(records)) && Lists(p, Scenarios(records))
        ensures Detect(records, o, config) == Detect(records, p, config)
      {
        UnsplitIgnoresOrder(records, config, o, p);
      }
    }
  }

  /** If unequal inspected scores are at least epsilon apart, the bucket order is irrelevant. */
  lemma SeparatedScoresIgnoreBucketOrder(records: seq<ScoreRecord>, config: Config)
    requires forall i, j | i in Inspected(records, config.window) && j in Inspected(records, config.window) ::
      records[i].score == records[j].score || !Near(records[i].score, records[j].score)
    ensures !OrderMatters(records, config)
  {
    BucketOrderMattersIff(records, config);
  }

  lemma TwoScenarios(a: string, b: string, x: real, y: real)
    requires a != b
    ensures var records := [ScoreRecord(a, x, 1), ScoreRecord(b, y, 1)];
      && Inspected(records, 1) == {0, 1} && Seen(records, 1) == {records[0], records[1]}
      && Scenarios(records) == {a, b} && NewestScore(records, a, x) && NewestScore(records, b, y)
  {
    var records := [ScoreRecord(a, x, 1), ScoreRecord(b, y, 1)];
    assert AheadOf(records, 0) == {} && AheadOf(records, 1) == {};
    assert records[0] in records && records[1] in records;
    assert IsNewest(records, a, 0) && IsNewest(records, b, 1);
  }

  lemma TwoOrders(a: string, b: string, order: seq<string>)
    requires a != b && (order == [a, b] || order == [b, a])
    ensures Lists(order, {a, b}) && |{a, b}| == 2
  {
    assert {a, b} - {a} == {b};
  }

  lemma TwoScenariosVerdict(a: string, b: string, x: real, y: real, order: seq<string>, first: real)
    requires a != b && ((order == [a, b] && first == x) || (order == [b, a] && first == y))
    ensures var records := [ScoreRecord(a, x, 1), ScoreRecord(b, y, 1)];
      Expected(records, Config(1, 2, 2), first) == Ruling({records[0], records[1]}, 2, 2, Config(1, 2, 2), first) &&
      Detect(records, order, Config(1, 2, 2)) == Expected(records, Config(1, 2, 2), first)
  {
    var records := [ScoreRecord(a, x, 1), ScoreRecord(b, y, 1)];
    TwoScenarios(a, b, x, y);
    TwoOrders(a, b, order);
    DetectIsExpected(records, order, Config(1, 2, 2), first);
  }

  lemma RulingOfTwo(r: ScoreRecord, q: ScoreRecord, config: Config, e: real)
    requires r.score == 0.0 && q.score == e && 0.0 < e < EPSILON && config.minScenarios <= 2
    ensures Ruling({r, q}, 2, 2, config, 0.0) == Healthy && Ruling({r, q}, 2, 2, config, e) == Identical(e, 2, 2)
  {
    assert q in {r, q} && Near(0.0, e) && Near(e, e);
  }

  /** One scenario at zero and one at less than an epsilon: whether the watchdog fires depends on
      which bucket comes first. */
  lemma BucketOrderCanDecide(a: string, b: string, e: real)
    requires a != b && 0.0 < e < EPSILON
    ensures var records := [ScoreRecord(a, 0.0, 1), ScoreRecord(b, e, 1)];
      && Detect(records, [a, b], Config(1, 2, 2)) == Healthy
      && Detect(records, [b, a], Config(1, 2, 2)) == Identical(e, 2, 2)
  {
    TwoScenariosVerdict(a, b, 0.0, e, [a, b], 0.0);
    TwoScenariosVerdict(a, b, 0.0, e, [b, a], e);
    RulingOfTwo(ScoreRecord(a, 0.0, 1), ScoreRecord(b, e, 1), Config(1, 2, 2), e);
  }

  // The detector ---------------------------------------------------------------

  function Extended(buckets: map<string, seq<ScoreRecord>>, r: ScoreRecord): map<string, seq<ScoreRecord>> {
    buckets[r.scenario := (if r.scenario in buckets then buckets[r.scenario] else []) + [r]]
  }

  function BucketMap(records: seq<ScoreRecord>): map<string, seq<ScoreRecord>> {
    if records == [] then map[] else Extended(BucketMap(records[..|records| - 1]), records[|records| - 1])
  }

  function BucketIn(buckets: map<string, seq<ScoreRecord>>, sc: string): seq<ScoreRecord> {
    if sc in buckets then buckets[sc] else []
  }

  lemma {:induction false} BucketMapAt(records: seq<ScoreRecord>, sc: string)
    ensures BucketIn(BucketMap(records), sc) == Bucket(records, sc)
  {
    if records != [] { BucketMapAt(records[..|records| - 1], sc); }
  }

  lemma ScenariosSnoc(records: seq<ScoreRecord>, r: ScoreRecord)
    ensures Scenarios(records + [r]) == Scenarios(records) + {r.scenario}
  {
    assert forall q :: q in records + [r] <==> q in records || q == r;
  }

  lemma {:induction false} BucketMapKeys(records: seq<ScoreRecord>)
    ensures BucketMap(records).Keys == Scenarios(records)
  {
    if records != [] {
      var front, last := records[..|records| - 1], records[|records| - 1];
      BucketMapKeys(front);
      ScenariosSnoc(front, last);
      assert records == front + [last];
    }
  }

  ghost predicate AreBuckets(buckets: map<string, seq<ScoreRecord>>, records: seq<ScoreRecord>) {
    buckets.Keys == Scenarios(records) && forall sc | sc in buckets :: buckets[sc] == Bucket(records, sc)
  }

  lemma BucketMapIsBuckets(records: seq<ScoreRecord>)
    ensures AreBuckets(BucketMap(records), records)
  {
    BucketMapKeys(records);
    forall sc | sc in BucketMap(records) ensures BucketMap(records)[sc] == Bucket(records, sc) {
      BucketMapAt(records, sc);
    }
  }

  method BucketByScenario(records: seq<ScoreRecord>) returns (buckets: map<string, seq<ScoreRecord>>)
    ensures AreBuckets(buckets, records)
  {
    buckets := map[];
    for i := 0 to |records|
      invariant buckets == BucketMap(records[..i])
    {
      assert records[..i + 1][..i] == records[..i];
      buckets := Extended(buckets, records[i]);
    }
    assert records[..|records|] == records;
    BucketMapIsBuckets(records);
  }

  method Trim(bucket: seq<ScoreRecord>, window: nat) returns (v: seq<ScoreRecord>)
    ensures v == Trimmed(bucket, window)
  {
    v := Sort(bucket, Newer);
    if |v| > window { v := v[..window]; }
  }

  lemma TailsSnoc(order: seq<string>, sc: string, tail: string -> seq<ScoreRecord>)
    ensures Tails(order + [sc], tail) == Tails(order, tail) + [tail(sc)]
  {
  }

  method TrimBuckets(buckets: map<string, seq<ScoreRecord>>, window: nat, ghost tail: string -> seq<ScoreRecord>)
    returns (tails: seq<seq<ScoreRecord>>)
    requires forall sc | sc in buckets :: Trimmed(buckets[sc], window) == tail(sc)
    ensures exists order :: Lists(order, buckets.Keys) && tails == Tails(order, tail)
  {
    ghost var order := [];
    tails := [];
    var keys := buckets.Keys;
    while keys != {}
      invariant keys <= buckets.Keys && Lists(order, buckets.Keys - keys)
      invariant tails == Tails(order, tail)
      decreases |keys|
    {
      var sc :| sc in keys;
      var v := Trim(buckets[sc], window);
      ListsSnoc(order, buckets.Keys - keys, sc);
      TailsSnoc(order, sc, tail);
      assert buckets.Keys - keys + {sc} == buckets.Keys - (keys - {sc});
      tails, order := tails + [v], order + [sc];
      keys := keys - {sc};
    }
    assert buckets.Keys - {} == buckets.Keys;
  }

  method RetainNonEmpty(tails: seq<seq<ScoreRecord>>) returns (kept: seq<seq<ScoreRecord>>)
    ensures kept == Retained(tails)
  {
    kept := [];
    for i := 0 to |tails|
      invariant kept == Retained(tails[..i])
    {
      assert tails[..i + 1][..i] == tails[..i];
      if tails[i] != [] { kept := kept + [tails[i]]; }
    }
    assert tails[..|tails|] == tails;
  }

  method Inspect(tails: seq<seq<ScoreRecord>>, config: Config) returns (v: Verdict)
    requires forall i | 0 <= i < |tails| :: tails[i] != []
    ensures v == Judge(tails, config)
  {
    if |tails| < config.minScenarios { return Healthy; }
    var count, zero := 0, true;
    for i := 0 to |tails|
      invariant count == |Flat(tails[..i])|
      invariant zero <==> forall r | r in Flat(tails[..i]) :: r.score == 0.0
    {
      assert tails[..i + 1][..i] == tails[..i];
      count := count + |tails[i]|;
      zero := zero && forall r | r in tails[i] :: r.score == 0.0;
    }
    assert tails[..|tails|] == tails;
    InAll(Flat(tails));
    if zero { return AllZero(count, |tails|); }
    var first, same := tails[0][0].score, true;
    for i := 0 to |tails|
      invariant same <==> forall r | r in Flat(tails[..i]) :: Near(r.score, first)
    {
      assert tails[..i + 1][..i] == tails[..i];
      same := same && forall r | r in tails[i] :: Near(r.score, first);
    }
    if same && first != 0.0 { return Identical(first, count, |tails|); }
    v := Healthy;
  }

  lemma InAll(flat: seq<ScoreRecord>)
    ensures forall i | 0 <= i < |flat| :: flat[i] in flat
  {
  }

  /** The verdict for some order of the buckets. */
  method DetectDeadSignal(records: seq<ScoreRecord>, config: Config) returns (v: Verdict)
    ensures exists order :: Lists(order, Scenarios(records)) && v == Detect(records, order, config)
    ensures config.window >= 1 ==> (v.AllZero? <==>
      && |records| >= config.minRecords && |Scenarios(records)| >= config.minScenarios
      && forall j | j in Inspected(records, config.window) :: records[j].score == 0.0)
  {
    if |records| < config.minRecords {
      ghost var any := SomeOrder(records);
      assert Detect(records, any, config) == Healthy;
      return Healthy;
    }
    var buckets := BucketByScenario(records);
    var tails := TrimBuckets(buckets, config.window, TailOf(records, config.window));
    ghost var order :| Lists(order, Scenarios(records)) && tails == Tails(order, TailOf(records, config.window));
    if config.window >= 1 { AllZeroIff(records, order, config); }
    var kept := RetainNonEmpty(tails);
    v := Inspect(kept, config);
  }
}
