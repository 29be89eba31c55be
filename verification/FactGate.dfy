/** The write gate for distilled facts: score, threshold, identity dedup through two bounded
    scans, persist.

    `Rules` says which characters are alphanumeric, how a character is lower-cased and how a
    concept is canonicalized; the lemmas hold for every choice whose labels are stable, and
    `FactRules.ShippedRules` are the ones with the runtime's canonicalizer. A scan returns stored
    facts of the backend's choosing, may fail, and may leave out a matching fact only by filling
    the limit with facts at least as confident (`IsScan`). */
module FactGate {
  import opened Text
  import opened ConceptLabel
  import opened Sorting

  const RELIABILITY_THRESHOLD: real := 0.5
  const DEDUP_PRIOR_SCAN_LIMIT: nat := 5
  const FULL_CONTENT_WORD_BUCKET: nat := 3

  datatype Rules = Rules(alnum: char -> bool, lower: char -> string, canon: string -> Option<string>)

  /** A canonical label is its own canonical label. */
  ghost predicate Stable(l: Rules) {
    forall s :: SelfLabelled(l.canon, s)
  }

  // Content ------------------------------------------------------------------

  /** A token lower-cased, with everything but its alphanumeric characters dropped. */
  function Normalize(l: Rules, token: string): string {
    if token == "" then "" else
    (if l.alnum(token[0]) then l.lower(token[0]) else "") + Normalize(l, token[1..])
  }

  lemma {:induction false} NormalizeConcat(l: Rules, a: string, b: string)
    ensures Normalize(l, a + b) == Normalize(l, a) + Normalize(l, b)
  {
    if a == "" {
      assert a + b == b;
    } else {
      assert (a + b)[1..] == a[1..] + b;
      NormalizeConcat(l, a[1..], b);
    }
  }

  /** Words that differ in the case of a letter, or in a character that is not alphanumeric, are
      one word. */
  lemma WordsIgnoreCaseAndPunctuation(l: Rules, a: string, c: char, d: char, b: string)
    ensures l.alnum(c) && l.alnum(d) && l.lower(c) == l.lower(d) ==>
      Normalize(l, a + [c] + b) == Normalize(l, a + [d] + b)
    ensures !l.alnum(c) ==> Normalize(l, a + [c] + b) == Normalize(l, a + b)
  {
    NormalizeConcat(l, a + [c], b);
    NormalizeConcat(l, a, [c]);
    NormalizeConcat(l, a + [d], b);
    NormalizeConcat(l, a, [d]);
    NormalizeConcat(l, a, b);
    assert Normalize(l, [c]) == (if l.alnum(c) then l.lower(c) else "") + Normalize(l, "");
    assert Normalize(l, [d]) == (if l.alnum(d) then l.lower(d) else "") + Normalize(l, "");
  }

  /** A token is no word exactly when it has no alphanumeric character. */
  lemma {:induction false} WordIffAlphanumeric(l: Rules, token: string)
    requires forall c :: l.lower(c) != ""
    ensures Normalize(l, token) != "" <==> exists i :: 0 <= i < |token| && l.alnum(token[i])
  {
    if token != "" {
      WordIffAlphanumeric(l, token[1..]);
      if i :| 0 <= i < |token| && l.alnum(token[i]) {
        assert i > 0 ==> token[1..][i - 1] == token[i];
      }
    }
  }

  /** The distinct informative words of the tokens. */
  function Informative(l: Rules, tokens: seq<string>): set<string> {
    set t | t in tokens && Normalize(l, t) != "" :: Normalize(l, t)
  }

  function InformativeWords(l: Rules, content: string): set<string> { Informative(l, Tokens(content, IsSpace)) }

  function Min(a: nat, b: nat): nat { if a < b then a else b }

  /** The early-exit scan counts the distinct informative words up to the cap (a cap of zero
      acts as one). */
  method DistinctInformativeWords(l: Rules, content: string, cap: nat) returns (n: nat)
    ensures n == Min(if cap == 0 then 1 else cap, |InformativeWords(l, content)|)
  {
    n := CountDistinct(l, Tokens(content, IsSpace), cap);
  }

  method CountDistinct(l: Rules, tokens: seq<string>, cap: nat) returns (n: nat)
    ensures n == Min(if cap == 0 then 1 else cap, |Informative(l, tokens)|)
  {
    var seen: set<string> := {};
    for i := 0 to |tokens|
      invariant seen == Informative(l, tokens[..i])
      invariant seen == {} || |seen| < cap
    {
      var normalized := Normalize(l, tokens[i]);
      InformativeSnoc(l, tokens, i);
      if normalized == "" { continue; }
      ghost var was := |seen|;
      seen := seen + {normalized};
      assert 0 < |seen| <= was + 1;
      if |seen| >= cap {
        InformativeGrows(l, tokens, i + 1);
        return |seen|;
      }
    }
    assert tokens[..|tokens|] == tokens;
    n := |seen|;
  }

  lemma InformativeSnoc(l: Rules, tokens: seq<string>, i: nat)
    requires i < |tokens|
    ensures var w := Normalize(l, tokens[i]);
      Informative(l, tokens[..i + 1]) == Informative(l, tokens[..i]) + if w == "" then {} else {w}
  {
    assert tokens[..i + 1] == tokens[..i] + [tokens[i]];
  }

  lemma InformativeGrows(l: Rules, tokens: seq<string>, i: nat)
    requires i <= |tokens|
    ensures |Informative(l, tokens[..i])| <= |Informative(l, tokens)|
  {
    var a, b := Informative(l, tokens[..i]), Informative(l, tokens);
    assert a <= b;
    SubsetSize(a, b);
  }

  lemma SubsetSize<T>(a: set<T>, b: set<T>)
    requires a <= b
    ensures |a| <= |b|
  {
    assert b == a + (b - a);
    assert |b| == |a| + |b - a|;
  }

  // Score --------------------------------------------------------------------

  /** The reliability score in terms of the informative words. */
  function Score(l: Rules, concept: string, content: string, grounded: bool): real {
    var words := |InformativeWords(l, content)|;
    if words == 0 then 0.0 else
    (if grounded then 0.5 else 0.0)
    + (if words >= FULL_CONTENT_WORD_BUCKET then 0.3 else 0.15)
    + (if l.canon(concept).Some? then 0.1 else 0.0)
  }

  method ScoreFactReliability(l: Rules, concept: string, content: string, grounded: bool) returns (score: real)
    requires l.canon == Canonical
    ensures score == Score(l, concept, content, grounded)
    ensures 0.0 <= score <= 1.0
  {
    var words := DistinctInformativeWords(l, content, FULL_CONTENT_WORD_BUCKET);
    if words == 0 { return 0.0; }
    score := 0.0;
    if grounded { score := score + 0.5; }
    if words >= FULL_CONTENT_WORD_BUCKET { score := score + 0.3; } else { score := score + 0.15; }
    var known := CanonicalConcept(concept);
    if known.Some? { score := score + 0.1; }
    score := if score < 0.0 then 0.0 else if score > 1.0 then 1.0 else score;
  }

  /** A fact passes exactly when it is grounded and says something, whatever its concept. */
  lemma PassesIffGroundedAndInformative(l: Rules, concept: string, content: string, grounded: bool)
    ensures Score(l, concept, content, grounded) >= RELIABILITY_THRESHOLD
       <==> grounded && InformativeWords(l, content) != {}
  {
    assert |InformativeWords(l, content)| == 0 <==> InformativeWords(l, content) == {};
  }

  /** Every confidence the gate can compute: nothing without words; with words, half for
      grounding, less for fewer than three distinct words, and a little for a known concept. */
  lemma ScoreLevels(l: Rules, concept: string, content: string, grounded: bool)
    ensures var words, s := |InformativeWords(l, content)|, Score(l, concept, content, grounded);
      && (words == 0 ==> s == 0.0)
      && (words in {1, 2} && grounded ==> s == if l.canon(concept).Some? then 0.75 else 0.65)
      && (words >= 3 && grounded ==> s == if l.canon(concept).Some? then 0.9 else 0.8)
      && (words in {1, 2} && !grounded ==> s == if l.canon(concept).Some? then 0.25 else 0.15)
      && (words >= 3 && !grounded ==> s == if l.canon(concept).Some? then 0.4 else 0.3)
  {
  }

  // Identity -----------------------------------------------------------------

  function DedupKey(content: string): string { Join(Tokens(content, IsSpace), " ") }

  /** Keys agree exactly when the contents differ in whitespace only; a key is its own key. */
  lemma KeysAgreeIff(a: string, b: string)
    ensures DedupKey(a) == DedupKey(b) <==> Tokens(a, IsSpace) == Tokens(b, IsSpace)
    ensures DedupKey(DedupKey(a)) == DedupKey(a)
  {
    TokensAreTokens(a, IsSpace);
    TokensAreTokens(b, IsSpace);
    TokensOfJoin(Tokens(a, IsSpace), ' ', IsSpace);
    TokensOfJoin(Tokens(b, IsSpace), ' ', IsSpace);
  }

  function LabelOf(l: Rules, concept: string): string {
    if l.canon(concept).Some? then l.canon(concept).value else concept
  }

  datatype Identity = Identity(concept: string, key: string)

  function IdentityOf(l: Rules, concept: string, content: string): Identity {
    Identity(LabelOf(l, concept), DedupKey(content))
  }

  lemma LabelIsStable(l: Rules, concept: string)
    requires Stable(l)
    ensures LabelOf(l, LabelOf(l, concept)) == LabelOf(l, concept)
    ensures l.canon(LabelOf(l, concept)) == l.canon(concept)
  {
    assert SelfLabelled(l.canon, concept);
  }

  /** Facts of one identity score alike, so an equal restatement is never stronger. */
  lemma SameIdentitySameScore(l: Rules, c1: string, t1: string, c2: string, t2: string, grounded: bool)
    requires Stable(l) && IdentityOf(l, c1, t1) == IdentityOf(l, c2, t2)
    ensures Score(l, c1, t1, grounded) == Score(l, c2, t2, grounded)
  {
    KeysAgreeIff(t1, t2);
    LabelIsStable(l, c1);
    LabelIsStable(l, c2);
  }

  // The store ----------------------------------------------------------------

  datatype Fact = Fact(concept: string, content: string, confidence: real)

  datatype Request = Request(concept: string, content: string, grounded: bool)

  datatype Decision = Stored(confidence: real) | Quarantined(confidence: real) | StoreFailed

  /** `rows` is a scan for `query`: stored facts, each at most as often as it is stored, at most
      `limit`, and a matching fact that is strong enough is left out only when the rows fill the
      limit and are all at least as confident. */
  ghost predicate IsScan(hits: (string, Fact) -> bool, facts: seq<Fact>, query: string, limit: nat, min: real,
                         rows: seq<Fact>) {
    && |rows| <= limit && multiset(rows) <= multiset(facts)
    && forall f | f in facts && hits(query, f) && f.confidence >= min ::
         f in rows || (|rows| == limit && forall g | g in rows :: g.confidence >= f.confidence)
  }

  ghost predicate ScanOk(hits: (string, Fact) -> bool, facts: seq<Fact>, query: string, min: real,
                         scan: Option<seq<Fact>>) {
    scan.Some? ==> IsScan(hits, facts, query, DEDUP_PRIOR_SCAN_LIMIT, min, scan.value)
  }

  /** A failed scan counts as an empty one. */
  function RowsOf(scan: Option<seq<Fact>>): seq<Fact> { if scan.Some? then scan.value else [] }

  predicate Blocks(l: Rules, f: Fact, concept: string, content: string, confidence: real) {
    LabelOf(l, f.concept) == concept && DedupKey(f.content) == DedupKey(content) && f.confidence >= confidence
  }

  /** Some candidate is an equal-or-stronger prior of the same identity. */
  predicate Blocked(l: Rules, candidates: seq<Fact>, concept: string, content: string, confidence: real) {
    exists f :: f in candidates && Blocks(l, f, concept, content, confidence)
  }

  method AnyBlocks(l: Rules, candidates: seq<Fact>, concept: string, content: string, confidence: real)
    returns (b: bool)
    ensures b <==> Blocked(l, candidates, concept, content, confidence)
  {
    for i := 0 to |candidates|
      invariant forall j | 0 <= j < i :: !Blocks(l, candidates[j], concept, content, confidence)
    {
      if Blocks(l, candidates[i], concept, content, confidence) { return true; }
    }
    b := false;
  }

  /** The gate's decision, given what the two scans returned. */
  function Decide(l: Rules, r: Request, byConcept: Option<seq<Fact>>, byContent: Option<seq<Fact>>,
                  storeOk: bool): Decision {
    var concept := LabelOf(l, r.concept);
    var confidence := Score(l, concept, r.content, r.grounded);
    if confidence < RELIABILITY_THRESHOLD then Quarantined(confidence)
    else if Blocked(l, RowsOf(byConcept) + RowsOf(byContent), concept, r.content, confidence)
    then Quarantined(confidence)
    else if storeOk then Stored(confidence) else StoreFailed
  }

  function FactOf(l: Rules, r: Request): Fact {
    Fact(LabelOf(l, r.concept), r.content, Score(l, LabelOf(l, r.concept), r.content, r.grounded))
  }

  predicate SameIdentity(l: Rules, f: Fact, g: Fact) {
    IdentityOf(l, f.concept, f.content) == IdentityOf(l, g.concept, g.content)
  }

  /** Requests whose concepts have the same canonical label and whose contents differ in
      whitespace only make one fact under that label; an unknown concept is kept as it is. */
  lemma VariantsAreOneFact(l: Rules, r: Request, q: Request)
    requires Stable(l) && l.canon(r.concept) == l.canon(q.concept) && r.grounded == q.grounded
    requires Tokens(r.content, IsSpace) == Tokens(q.content, IsSpace)
    ensures l.canon(r.concept).Some? ==>
      && FactOf(l, r).concept == FactOf(l, q).concept == l.canon(r.concept).value
      && SameIdentity(l, FactOf(l, r), FactOf(l, q)) && FactOf(l, r).confidence == FactOf(l, q).confidence
    ensures l.canon(r.concept).None? ==> FactOf(l, r).concept == r.concept
  {
    KeysAgreeIff(r.content, q.content);
    if l.canon(r.concept).Some? {
      SameIdentitySameScore(l, FactOf(l, r).concept, r.content, FactOf(l, q).concept, q.content, r.grounded);
    }
  }

  predicate MoreConfident(f: Fact, g: Fact) { f.confidence > g.confidence }

  /** The strongest rows, most confident first. */
  function Ranked(rows: seq<Fact>, limit: nat): seq<Fact> {
    Sort(rows, MoreConfident)[..if |rows| < limit then |rows| else limit]
  }

  lemma RankedRowsAreScan(hits: (string, Fact) -> bool, facts: seq<Fact>, query: string, limit: nat, min: real,
                          rows: seq<Fact>)
    requires multiset(rows) <= multiset(facts)
    requires forall f | f in facts && hits(query, f) && f.confidence >= min :: f in rows
    ensures IsScan(hits, facts, query, limit, min, Ranked(rows, limit))
  {
    var sorted, top := Sort(rows, MoreConfident), Ranked(rows, limit);
    SortSorted(rows, MoreConfident);
    SortMembers(rows, MoreConfident);
    assert forall i | 0 <= i < |top| :: top[i] == sorted[i];
    assert sorted == top + sorted[|top|..];
    assert multiset(sorted) == multiset(top) + multiset(sorted[|top|..]);
    forall f | f in facts && hits(query, f) && f.confidence >= min
      ensures f in top || (|top| == limit && forall g | g in top :: g.confidence >= f.confidence)
    {
      var j :| 0 <= j < |sorted| && sorted[j] == f;
      if j >= |top| {
        assert forall i | 0 <= i < |top| :: !MoreConfident(sorted[j], sorted[i]);
      } else {
        assert top[j] == f;
      }
    }
  }

  /** The memory backend: the stored facts and its own notion of which facts a query hits. */
  class Memory {
    var facts: seq<Fact>
    const hits: (string, Fact) -> bool

    constructor (hits: (string, Fact) -> bool)
      ensures facts == [] && this.hits == hits
    {
      this.facts, this.hits := [], hits;
    }

    /** `ok` says whether the backend answers. */
    method SearchFacts(query: string, limit: nat, min: real, ok: bool) returns (scan: Option<seq<Fact>>)
      ensures scan.Some? <==> ok
      ensures scan.Some? ==> IsScan(hits, facts, query, limit, min, scan.value)
    {
      if !ok { return None; }
      var rows: seq<Fact> := [];
      for i := 0 to |facts|
        invariant multiset(rows) <= multiset(facts[..i])
        invariant forall f | f in facts[..i] && hits(query, f) && f.confidence >= min :: f in rows
      {
        var f := facts[i];
        assert facts[..i + 1] == facts[..i] + [f];
        if hits(query, f) && f.confidence >= min { rows := rows + [f]; }
      }
      assert facts[..|facts|] == facts;
      RankedRowsAreScan(hits, facts, query, limit, min, rows);
      scan := Some(Ranked(rows, limit));
    }

    /** `conceptScanOk` and `contentScanOk` say whether the backend answers the two scans. */
    method CommitGatedFact(l: Rules, r: Request, conceptScanOk: bool, contentScanOk: bool, storeOk: bool)
      returns (d: Decision, ghost byConcept: Option<seq<Fact>>, ghost byContent: Option<seq<Fact>>)
      requires Stable(l) && l.canon == Canonical
      modifies this
      ensures ScanOk(hits, old(facts), LabelOf(l, r.concept), Score(l, r.concept, r.content, r.grounded), byConcept)
      ensures ScanOk(hits, old(facts), r.content, Score(l, r.concept, r.content, r.grounded), byContent)
      ensures d == Decide(l, r, byConcept, byContent, storeOk)
      ensures facts == if d.Stored? then old(facts) + [FactOf(l, r)] else old(facts)
      ensures Score(l, r.concept, r.content, r.grounded) >= RELIABILITY_THRESHOLD ==>
        (byConcept.Some? <==> conceptScanOk) && (byContent.Some? <==> contentScanOk)
      ensures Repeats(l, hits, old(facts), r, conceptScanOk, contentScanOk) ==> d.Quarantined? && facts == old(facts)
      ensures IsNew(l, old(facts), r) ==> d == if storeOk then Stored(FactOf(l, r).confidence) else StoreFailed
    {
      byConcept, byContent := None, None;
      var concept := LabelConcept(l, r.concept);
      LabelIsStable(l, r.concept);
      var confidence := ScoreFactReliability(l, concept, r.content, r.grounded);
      if confidence < RELIABILITY_THRESHOLD {
        NewPasses(l, facts, r);
        return Quarantined(confidence), None, None;
      }
      var scan1 := SearchFacts(concept, DEDUP_PRIOR_SCAN_LIMIT, confidence, conceptScanOk);
      var scan2 := SearchFacts(r.content, DEDUP_PRIOR_SCAN_LIMIT, confidence, contentScanOk);
      byConcept, byContent := scan1, scan2;
      NewIsStored(l, hits, facts, Commit(r, scan1, scan2, storeOk));
      RepeatIsQuarantined(l, hits, facts, Commit(r, scan1, scan2, storeOk), conceptScanOk, contentScanOk);
      var blocked := AnyBlocks(l, RowsOf(scan1) + RowsOf(scan2), concept, r.content, confidence);
      if blocked {
        d := Quarantined(confidence);
      } else if storeOk {
        facts := facts + [Fact(concept, r.content, confidence)];
        d := Stored(confidence);
      } else {
        d := StoreFailed;
      }
    }
  }

  method LabelConcept(l: Rules, raw: string) returns (concept: string)
    requires l.canon == Canonical
    ensures concept == LabelOf(l, raw)
  {
    var known := CanonicalConcept(raw);
    concept := if known.Some? then known.value else raw;
  }

  // Runs ---------------------------------------------------------------------

  datatype Commit = Commit(request: Request, byConcept: Option<seq<Fact>>, byContent: Option<seq<Fact>>, storeOk: bool)

  function After(l: Rules, facts: seq<Fact>, c: Commit): seq<Fact> {
    if Decide(l, c.request, c.byConcept, c.byContent, c.storeOk).Stored? then facts + [FactOf(l, c.request)] else facts
  }

  ghost predicate CommitOk(l: Rules, hits: (string, Fact) -> bool, facts: seq<Fact>, c: Commit) {
    var min := Score(l, c.request.concept, c.request.content, c.request.grounded);
    && ScanOk(hits, facts, LabelOf(l, c.request.concept), min, c.byConcept)
    && ScanOk(hits, facts, c.request.content, min, c.byContent)
  }

  /** The store after a run of commits, from an empty store. */
  function StoreAfter(l: Rules, run: seq<Commit>): seq<Fact> {
    if run == [] then [] else After(l, StoreAfter(l, run[..|run| - 1]), run[|run| - 1])
  }

  ghost predicate RunOk(l: Rules, hits: (string, Fact) -> bool, run: seq<Commit>) {
    forall i | 0 <= i < |run| :: CommitOk(l, hits, StoreAfter(l, run[..i]), run[i])
  }

  /** A stored fact is some grounded, informative request, verbatim but for a canonical label. */
  ghost predicate Vetted(l: Rules, f: Fact) {
    && LabelOf(l, f.concept) == f.concept && InformativeWords(l, f.content) != {}
    && f.confidence == Score(l, f.concept, f.content, true) >= RELIABILITY_THRESHOLD
  }

  lemma FactIsVetted(l: Rules, r: Request)
    requires Stable(l) && Score(l, LabelOf(l, r.concept), r.content, r.grounded) >= RELIABILITY_THRESHOLD
    ensures Vetted(l, FactOf(l, r)) && r.grounded
    ensures FactOf(l, r).confidence == Score(l, r.concept, r.content, r.grounded)
  {
    LabelIsStable(l, r.concept);
    PassesIffGroundedAndInformative(l, LabelOf(l, r.concept), r.content, r.grounded);
  }

  /** The fact is what a grounded request of the run asked to store. */
  ghost predicate Requested(l: Rules, run: seq<Commit>, f: Fact) {
    exists c :: c in run && c.request.grounded && f == FactOf(l, c.request)
  }

  /** Over every run, whatever the scans return, every stored fact is vetted and came from a
      grounded request with that content. */
  lemma {:induction false} StoreIsVetted(l: Rules, run: seq<Commit>)
    requires Stable(l)
    ensures forall f | f in StoreAfter(l, run) :: Vetted(l, f) && Requested(l, run, f)
  {
    if run != [] {
      var n := |run| - 1;
      StoreIsVetted(l, run[..n]);
      assert run == run[..n] + [run[n]];
      var r := run[n].request;
      forall f | f in StoreAfter(l, run)
        ensures Vetted(l, f) && Requested(l, run, f)
      {
        if f in StoreAfter(l, run[..n]) {
          var c :| c in run[..n] && c.request.grounded && f == FactOf(l, c.request);
          assert c in run;
        } else {
          StoredIsVetted(l, run[n]);
          assert f == FactOf(l, r) && run[n] in run;
        }
      }
    }
  }

  /** Over every run, a stored confidence says exactly two things about the fact: whether it has
      three distinct words and whether its concept is known. */
  lemma StoredConfidence(l: Rules, run: seq<Commit>, f: Fact)
    requires Stable(l) && f in StoreAfter(l, run)
    ensures f.confidence ==
      if |InformativeWords(l, f.content)| >= 3
      then if l.canon(f.concept).Some? then 0.9 else 0.8
      else if l.canon(f.concept).Some? then 0.75 else 0.65
  {
    StoreIsVetted(l, run);
    ScoreLevels(l, f.concept, f.content, true);
    assert |InformativeWords(l, f.content)| != 0;
  }

  lemma StoredIsVetted(l: Rules, c: Commit)
    requires Stable(l) && Decide(l, c.request, c.byConcept, c.byContent, c.storeOk).Stored?
    ensures Vetted(l, FactOf(l, c.request)) && c.request.grounded
  {
    FactIsVetted(l, c.request);
  }

  /** A scan hides a prior by failing, by not hitting it, or by a full window of facts at
      least as confident. */
  ghost predicate Hidden(hits: (string, Fact) -> bool, query: string, scan: Option<seq<Fact>>, prior: Fact) {
    || scan.None? || !hits(query, prior)
    || (&& |scan.value| == DEDUP_PRIOR_SCAN_LIMIT && prior !in scan.value
        && forall g | g in scan.value :: g.confidence >= prior.confidence)
  }

  /** A second fact of one identity is stored only when both scans hid the first. */
  lemma DuplicateOnlyIfHidden(l: Rules, hits: (string, Fact) -> bool, facts: seq<Fact>, c: Commit, prior: Fact)
    requires Stable(l) && CommitOk(l, hits, facts, c) && prior in facts && Vetted(l, prior)
    requires Decide(l, c.request, c.byConcept, c.byContent, c.storeOk).Stored?
    requires SameIdentity(l, prior, FactOf(l, c.request))
    ensures Hidden(hits, LabelOf(l, c.request.concept), c.byConcept, prior)
    ensures Hidden(hits, c.request.content, c.byContent, prior)
  {
    var r := c.request;
    FactIsVetted(l, r);
    LabelIsStable(l, r.concept);
    SameIdentitySameScore(l, prior.concept, prior.content, r.concept, r.content, true);
    assert Blocks(l, prior, LabelOf(l, r.concept), r.content, Score(l, LabelOf(l, r.concept), r.content, r.grounded));
    assert prior !in RowsOf(c.byConcept) + RowsOf(c.byContent);
  }

  /** With a vetted store, a request is stored exactly when the backend accepts the write, the
      request is grounded and informative, and neither scan shows a fact of its identity. */
  lemma StoredIffNothingVisible(l: Rules, hits: (string, Fact) -> bool, facts: seq<Fact>, c: Commit)
    requires Stable(l) && CommitOk(l, hits, facts, c) && forall f | f in facts :: Vetted(l, f)
    ensures Decide(l, c.request, c.byConcept, c.byContent, c.storeOk).Stored? <==>
      && c.storeOk && c.request.grounded && InformativeWords(l, c.request.content) != {}
      && forall f | f in RowsOf(c.byConcept) + RowsOf(c.byContent) :: !SameIdentity(l, f, FactOf(l, c.request))
  {
    var r := c.request;
    var rows := RowsOf(c.byConcept) + RowsOf(c.byContent);
    var score := Score(l, LabelOf(l, r.concept), r.content, r.grounded);
    LabelIsStable(l, r.concept);
    PassesIffGroundedAndInformative(l, LabelOf(l, r.concept), r.content, r.grounded);
    if score >= RELIABILITY_THRESHOLD {
      forall f | f in rows
        ensures Blocks(l, f, LabelOf(l, r.concept), r.content, score) <==> SameIdentity(l, f, FactOf(l, r))
      {
        RowIsFact(hits, facts, c, l, f);
        if SameIdentity(l, f, FactOf(l, r)) {
          SameIdentitySameScore(l, f.concept, f.content, r.concept, r.content, true);
        }
      }
    }
  }

  // What a commit does to a repeated and to a new fact ----------------------------

  /** The facts at least as confident as `c`. */
  function Strong(facts: seq<Fact>, c: real): seq<Fact> {
    if facts == [] then [] else
    var last := facts[|facts| - 1];
    Strong(facts[..|facts| - 1], c) + if last.confidence >= c then [last] else []
  }

  lemma {:induction false} StrongCounts(facts: seq<Fact>, c: real, f: Fact)
    ensures multiset(Strong(facts, c))[f] == if f.confidence >= c then multiset(facts)[f] else 0
  {
    if facts != [] {
      StrongCounts(facts[..|facts| - 1], c, f);
      assert facts == facts[..|facts| - 1] + [facts[|facts| - 1]];
    }
  }

  lemma StrongRows(rows: seq<Fact>, facts: seq<Fact>, c: real)
    requires multiset(rows) <= multiset(facts) && forall f | f in rows :: f.confidence >= c
    ensures |rows| <= |Strong(facts, c)|
  {
    var a, b := multiset(rows), multiset(Strong(facts, c));
    forall f ensures a[f] <= b[f] {
      StrongCounts(facts, c, f);
      if a[f] > 0 { assert f in rows; }
    }
    assert b == a + (b - a);
  }

  /** A fact of the request's identity, at least as confident. */
  ghost predicate IsPrior(l: Rules, r: Request, f: Fact) {
    SameIdentity(l, f, FactOf(l, r)) && f.confidence >= FactOf(l, r).confidence
  }

  /** The store has such a fact already, among the five most confident, and a working scan hits
      it. */
  ghost predicate Repeats(l: Rules, hits: (string, Fact) -> bool, facts: seq<Fact>, r: Request,
                          conceptScanOk: bool, contentScanOk: bool) {
    exists f ::
      && f in facts && IsPrior(l, r, f) && |Strong(facts, f.confidence)| <= DEDUP_PRIOR_SCAN_LIMIT
      && ((conceptScanOk && hits(LabelOf(l, r.concept), f)) || (contentScanOk && hits(r.content, f)))
  }

  lemma StrongIsShown(hits: (string, Fact) -> bool, facts: seq<Fact>, query: string, min: real,
                      rows: seq<Fact>, prior: Fact)
    requires IsScan(hits, facts, query, DEDUP_PRIOR_SCAN_LIMIT, min, rows)
    requires prior in facts && hits(query, prior) && prior.confidence >= min
    requires |Strong(facts, prior.confidence)| <= DEDUP_PRIOR_SCAN_LIMIT
    ensures prior in rows
  {
    if prior !in rows {
      assert multiset(rows + [prior]) == multiset(rows) + multiset{prior};
      StrongRows(rows + [prior], facts, prior.confidence);
    }
  }

  lemma BlocksIff(l: Rules, r: Request, f: Fact)
    requires Stable(l)
    ensures Blocks(l, f, LabelOf(l, r.concept), r.content, FactOf(l, r).confidence) <==> IsPrior(l, r, f)
    ensures FactOf(l, r).confidence == Score(l, r.concept, r.content, r.grounded)
  {
    LabelIsStable(l, r.concept);
  }

  /** A repeated fact is never stored again. */
  lemma RepeatIsQuarantined(l: Rules, hits: (string, Fact) -> bool, facts: seq<Fact>, c: Commit,
                            conceptScanOk: bool, contentScanOk: bool)
    requires Stable(l) && CommitOk(l, hits, facts, c)
    requires (conceptScanOk ==> c.byConcept.Some?) && (contentScanOk ==> c.byContent.Some?)
    ensures Repeats(l, hits, facts, c.request, conceptScanOk, contentScanOk) ==>
      Decide(l, c.request, c.byConcept, c.byContent, c.storeOk).Quarantined?
  {
    var r := c.request;
    if Repeats(l, hits, facts, r, conceptScanOk, contentScanOk) {
      var f :|
        && f in facts && IsPrior(l, r, f) && |Strong(facts, f.confidence)| <= DEDUP_PRIOR_SCAN_LIMIT
        && ((conceptScanOk && hits(LabelOf(l, r.concept), f)) || (contentScanOk && hits(r.content, f)));
      BlocksIff(l, r, f);
      var min := Score(l, r.concept, r.content, r.grounded);
      if conceptScanOk && hits(LabelOf(l, r.concept), f) {
        StrongIsShown(hits, facts, LabelOf(l, r.concept), min, c.byConcept.value, f);
      } else {
        StrongIsShown(hits, facts, r.content, min, c.byContent.value, f);
      }
      assert f in RowsOf(c.byConcept) + RowsOf(c.byContent);
    }
  }

  /** A grounded, informative request without a prior: at most weaker facts have its identity. */
  ghost predicate IsNew(l: Rules, facts: seq<Fact>, r: Request) {
    r.grounded && InformativeWords(l, r.content) != {} && forall f | f in facts :: !IsPrior(l, r, f)
  }

  lemma NewPasses(l: Rules, facts: seq<Fact>, r: Request)
    ensures IsNew(l, facts, r) ==> Score(l, LabelOf(l, r.concept), r.content, r.grounded) >= RELIABILITY_THRESHOLD
  {
    PassesIffGroundedAndInformative(l, LabelOf(l, r.concept), r.content, r.grounded);
  }

  /** A new fact is stored if the backend accepts it. */
  lemma NewIsStored(l: Rules, hits: (string, Fact) -> bool, facts: seq<Fact>, c: Commit)
    requires Stable(l) && CommitOk(l, hits, facts, c)
    ensures IsNew(l, facts, c.request) ==>
      Decide(l, c.request, c.byConcept, c.byContent, c.storeOk)
      == if c.storeOk then Stored(FactOf(l, c.request).confidence) else StoreFailed
  {
    var r := c.request;
    NewPasses(l, facts, r);
    if IsNew(l, facts, r) {
      forall f | f in RowsOf(c.byConcept) + RowsOf(c.byContent)
        ensures !Blocks(l, f, LabelOf(l, r.concept), r.content, FactOf(l, r).confidence)
      {
        RowIsFact(hits, facts, c, l, f);
        BlocksIff(l, r, f);
      }
    }
  }

  lemma RowIsFact(hits: (string, Fact) -> bool, facts: seq<Fact>, c: Commit, l: Rules, f: Fact)
    requires CommitOk(l, hits, facts, c) && f in RowsOf(c.byConcept) + RowsOf(c.byContent)
    ensures f in facts
  {
    assert f in multiset(RowsOf(c.byConcept)) || f in multiset(RowsOf(c.byContent));
    assert f in multiset(facts);
  }

  /** The backend hits a fact when asked for its own label. */
  ghost predicate HitsOwnLabel(hits: (string, Fact) -> bool) {
    forall f: Fact :: hits(f.concept, f)
  }

  ghost predicate Unique(l: Rules, facts: seq<Fact>) {
    forall i, j | 0 <= i < j < |facts| :: !SameIdentity(l, facts[i], facts[j])
  }

  /** Every stored fact of the request's identity is shown by at least one of the two scans. */
  ghost predicate Covered(l: Rules, hits: (string, Fact) -> bool, facts: seq<Fact>, c: Commit) {
    forall f | f in facts && SameIdentity(l, f, FactOf(l, c.request)) ::
      || !Hidden(hits, LabelOf(l, c.request.concept), c.byConcept, f)
      || !Hidden(hits, c.request.content, c.byContent, f)
  }

  /** A commit that one of the scans covers keeps identities unique. */
  lemma CoveredCommitKeepsUnique(l: Rules, hits: (string, Fact) -> bool, facts: seq<Fact>, c: Commit)
    requires Stable(l) && CommitOk(l, hits, facts, c) && Covered(l, hits, facts, c)
    requires Unique(l, facts) && forall f | f in facts :: Vetted(l, f)
    ensures Unique(l, After(l, facts, c))
  {
    if Decide(l, c.request, c.byConcept, c.byContent, c.storeOk).Stored? {
      forall f | f in facts
        ensures !SameIdentity(l, f, FactOf(l, c.request))
      {
        if SameIdentity(l, f, FactOf(l, c.request)) {
          DuplicateOnlyIfHidden(l, hits, facts, c, f);
        }
      }
    }
  }

  ghost predicate CoveredRun(l: Rules, hits: (string, Fact) -> bool, run: seq<Commit>) {
    forall i | 0 <= i < |run| :: Covered(l, hits, StoreAfter(l, run[..i]), run[i])
  }

  lemma RunFront(l: Rules, hits: (string, Fact) -> bool, run: seq<Commit>, n: nat)
    requires n < |run| && RunOk(l, hits, run) && CoveredRun(l, hits, run)
    ensures RunOk(l, hits, run[..n]) && CoveredRun(l, hits, run[..n])
    ensures CommitOk(l, hits, StoreAfter(l, run[..n]), run[n]) && Covered(l, hits, StoreAfter(l, run[..n]), run[n])
  {
    forall i | 0 <= i < n
      ensures CommitOk(l, hits, StoreAfter(l, run[..n][..i]), run[..n][i])
      ensures Covered(l, hits, StoreAfter(l, run[..n][..i]), run[..n][i])
    {
      assert run[..n][..i] == run[..i] && run[..n][i] == run[i];
    }
  }

  /** Over any run, no identity is stored twice if at each commit at least one scan works, hits
      each prior of that identity and is not cut before it. */
  lemma {:induction false} NoDuplicatesUnlessHidden(l: Rules, hits: (string, Fact) -> bool, run: seq<Commit>)
    requires Stable(l) && RunOk(l, hits, run) && CoveredRun(l, hits, run)
    ensures Unique(l, StoreAfter(l, run))
  {
    if run != [] {
      var n := |run| - 1;
      RunFront(l, hits, run, n);
      NoDuplicatesUnlessHidden(l, hits, run[..n]);
      StoreIsVetted(l, run[..n]);
      CoveredCommitKeepsUnique(l, hits, StoreAfter(l, run[..n]), run[n]);
    }
  }

  /** An uncut concept scan covers the commit by itself. */
  lemma UncutScanCovers(l: Rules, hits: (string, Fact) -> bool, facts: seq<Fact>, c: Commit)
    requires Stable(l) && HitsOwnLabel(hits) && forall f | f in facts :: Vetted(l, f)
    requires c.byConcept.Some? && |c.byConcept.value| < DEDUP_PRIOR_SCAN_LIMIT
    ensures Covered(l, hits, facts, c)
  {
    LabelIsStable(l, c.request.concept);
    assert forall f | f in facts :: hits(f.concept, f);
  }

  /** With working concept scans that are never cut by the limit, no identity is stored twice,
      over any run. */
  lemma NoDuplicatesUnlessCut(l: Rules, hits: (string, Fact) -> bool, run: seq<Commit>)
    requires Stable(l) && HitsOwnLabel(hits) && RunOk(l, hits, run)
    requires forall c | c in run :: c.byConcept.Some? && |c.byConcept.value| < DEDUP_PRIOR_SCAN_LIMIT
    ensures Unique(l, StoreAfter(l, run))
  {
    forall i | 0 <= i < |run|
      ensures Covered(l, hits, StoreAfter(l, run[..i]), run[i])
    {
      assert run[i] in run;
      StoreIsVetted(l, run[..i]);
      UncutScanCovers(l, hits, StoreAfter(l, run[..i]), run[i]);
    }
    NoDuplicatesUnlessHidden(l, hits, run);
  }
}
