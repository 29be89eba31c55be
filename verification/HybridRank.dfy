/** The hybrid query: the three signals are fused, the candidates sorted by (score
    descending, title, section) and the list cut to the limit. */
module HybridRank {
  import opened Text
  import opened Citation
  import opened Sequences
  import opened Fusion
  import opened Sorting
  import opened Sums

  // What fusing a list of signals leaves at a key ------------------------------

  /** The URL one signal offers for a key. */
  function OfferedUrl(s: Signal, k: Key): Option<string> {
    if k in Surfaced(s) && Best(s, k).Some? then Best(s, k).value.source.url else None
  }

  /** The first URL offered for a key, in signal order. */
  function CitedUrl(ws: seq<Weighted>, k: Key): Option<string> {
    if ws == [] then None else
    var u := CitedUrl(ws[..|ws| - 1], k);
    if u.Some? then u else OfferedUrl(ws[|ws| - 1].signal, k)
  }

  function FusedRow(ws: seq<Weighted>, k: Key): Row {
    Row(Total(ws, k), Source(k.title, k.section, CitedUrl(ws, k)))
  }

  lemma FusedRowSnoc(ws: seq<Weighted>, i: nat, acc: Fused, k: Key)
    requires i < |ws|
    requires k in acc <==> k in Candidates(ws[..i])
    requires k in acc ==> acc[k] == FusedRow(ws[..i], k)
    ensures Candidates(ws[..i + 1]) == Candidates(ws[..i]) + Surfaced(ws[i].signal)
    ensures (k in acc || k in Surfaced(ws[i].signal)) && (k in acc || Best(ws[i].signal, k).Some?) ==>
              Outcome(acc, ws[i], k) == FusedRow(ws[..i + 1], k)
  {
    assert ws[..i + 1] == ws[..i] + [ws[i]];
    assert ws[..i + 1][..i] == ws[..i];
    BestIsHighest(ws[i].signal, k);
    if k !in Candidates(ws[..i]) { NoCandidateNoTrace(ws[..i], k); }
  }

  lemma {:induction false} NoCandidateNoTrace(ws: seq<Weighted>, k: Key)
    requires k !in Candidates(ws)
    ensures Total(ws, k) == 0.0 && CitedUrl(ws, k) == None
  {
    if ws != [] {
      var n := |ws| - 1;
      NoCandidateNoTrace(ws[..n], k);
    }
  }

  method FuseAll(ws: seq<Weighted>) returns (acc: Fused, order: seq<Key>)
    ensures acc.Keys == Candidates(ws) && Lists(order, acc.Keys)
    ensures forall k | k in acc :: acc[k] == FusedRow(ws, k)
  {
    acc, order := map[], [];
    for i := 0 to |ws|
      invariant acc.Keys == Candidates(ws[..i]) && Lists(order, acc.Keys)
      invariant forall k | k in acc :: acc[k] == FusedRow(ws[..i], k)
    {
      forall k { FusedRowSnoc(ws, i, acc, k); }
      acc, order := FuseSignal(acc, order, ws[i]);
    }
    assert ws[..|ws|] == ws;
  }

  // Ranking ------------------------------------------------------------------

  /** The comparator: higher score, then smaller title, then smaller section. */
  predicate Before(a: Row, b: Row) {
    || a.raw > b.raw
    || (a.raw == b.raw && (Less(a.source.title, b.source.title)
                           || (a.source.title == b.source.title && Less(a.source.section, b.source.section))))
  }

  lemma BeforeOrder(a: Row, b: Row, c: Row)
    ensures !(Before(a, b) && Before(b, a))
    ensures KeyOf(a.source) != KeyOf(b.source) ==> Before(a, b) || Before(b, a)
    ensures !Before(b, a) && !Before(c, b) ==> !Before(c, a)
  {
    LessTotal(a.source.title, b.source.title);
    LessTotal(a.source.section, b.source.section);
    LessTotal(b.source.title, c.source.title);
    LessTotal(b.source.section, c.source.section);
    LessTotal(a.source.title, c.source.title);
    LessTotal(a.source.section, c.source.section);
    if Less(c.source.title, a.source.title) && Less(a.source.title, b.source.title) {
      LessTransitive(c.source.title, a.source.title, b.source.title);
    }
    if Less(b.source.title, c.source.title) && Less(c.source.title, a.source.title) {
      LessTransitive(b.source.title, c.source.title, a.source.title);
    }
    if Less(c.source.section, a.source.section) && Less(a.source.section, b.source.section) {
      LessTransitive(c.source.section, a.source.section, b.source.section);
    }
    if Less(b.source.section, c.source.section) && Less(c.source.section, a.source.section) {
      LessTransitive(b.source.section, c.source.section, a.source.section);
    }
  }

  lemma BeforeIsStrictWeak()
    ensures StrictWeakOrder(Before)
  {
    forall a, b | Before(a, b) ensures !Before(b, a) { BeforeOrder(a, b, a); }
    forall a, b, c | !Before(b, a) && !Before(c, b) ensures !Before(c, a) { BeforeOrder(a, b, c); }
  }

  // The top list -------------------------------------------------------------

  /** The ranking of candidates by their fused rows. */
  ghost function KeyBefore(ws: seq<Weighted>): (Key, Key) -> bool {
    (a, b) => Before(FusedRow(ws, a), FusedRow(ws, b))
  }

  /** The one list of the `limit` best candidates, best first. */
  ghost predicate IsBest(ws: seq<Weighted>, list: seq<Key>, limit: nat) {
    IsTop(list, Candidates(ws), limit, KeyBefore(ws))
  }

  /** At most one list is best, and it depends on which rows each signal holds, not on their
      order or repetition. */
  lemma BestListIgnoresRowOrder(ws: seq<Weighted>, vs: seq<Weighted>, l1: seq<Key>, l2: seq<Key>, limit: nat)
    requires SameRows(ws, vs) && IsBest(ws, l1, limit) && IsBest(vs, l2, limit)
    ensures l1 == l2
  {
    forall k ensures Total(ws, k) == Total(vs, k) { TotalIgnoresRowOrder(ws, vs, k); }
    TotalIgnoresRowOrder(ws, vs, Key("", ""));
    var f, g := KeyBefore(ws), KeyBefore(vs);
    forall a, b ensures f(a, b) == g(a, b) && (f(a, b) ==> !f(b, a)) {
      BeforeOrder(FusedRow(ws, a), FusedRow(ws, b), FusedRow(ws, a));
    }
    assert IsTop(l2, Candidates(ws), limit, f);
    TopIsUnique(l1, l2, Candidates(ws), limit, f);
  }

  /** The candidates' rows, sorted by the comparator, start with the best list. */
  lemma SortedRowsAreBest(ws: seq<Weighted>, rows: seq<Row>, order: seq<Key>, limit: nat)
    requires Lists(order, Candidates(ws)) && |rows| == |order|
    requires forall i | 0 <= i < |order| :: rows[i] == FusedRow(ws, order[i])
    ensures var keys := KeySeq(Sort(rows, Before));
      && |keys| == |Candidates(ws)|
      && IsBest(ws, keys[..if |keys| < limit then |keys| else limit], limit)
      && forall i | 0 <= i < |keys| :: Sort(rows, Before)[i] == FusedRow(ws, keys[i])
  {
    var sorted := Sort(rows, Before);
    var keys := KeySeq(sorted);
    SortedKeys(ws, rows, sorted, order);
    BeforeIsStrictWeak();
    SortSorted(rows, Before);
    var lt := KeyBefore(ws);
    forall i, j | 0 <= i < j < |keys|
      ensures lt(keys[i], keys[j])
    {
      BeforeOrder(sorted[i], sorted[j], sorted[j]);
    }
    FrontIsTop(keys, Candidates(ws), limit, lt);
  }

  /** Sorting keeps one row per candidate. */
  lemma SortedKeys(ws: seq<Weighted>, rows: seq<Row>, sorted: seq<Row>, order: seq<Key>)
    requires Lists(order, Candidates(ws)) && |rows| == |order| == |sorted|
    requires forall i | 0 <= i < |order| :: rows[i] == FusedRow(ws, order[i])
    requires multiset(sorted) == multiset(rows)
    ensures Lists(KeySeq(sorted), Candidates(ws))
    ensures forall i | 0 <= i < |sorted| :: sorted[i] == FusedRow(ws, KeySeq(sorted)[i])
  {
    var keys := KeySeq(sorted);
    forall i | 0 <= i < |sorted|
      ensures sorted[i] == FusedRow(ws, keys[i]) && keys[i] in Candidates(ws)
    {
      assert sorted[i] in multiset(rows);
      var m :| 0 <= m < |rows| && rows[m] == sorted[i];
      assert order[m] in order;
    }
    forall k | k in Candidates(ws) ensures k in keys {
      assert k in order;
      var m :| 0 <= m < |order| && order[m] == k;
      assert rows[m] in multiset(sorted);
      var i :| 0 <= i < |sorted| && sorted[i] == rows[m];
      assert keys[i] == k;
    }
    DistinctWhenOnto(keys, Candidates(ws), order);
  }

  /** A sequence as long as a listing of `xs` that reaches all of `xs` repeats nothing. */
  lemma DistinctWhenOnto(s: seq<Key>, xs: set<Key>, listing: seq<Key>)
    requires Lists(listing, xs) && |s| == |listing|
    requires forall x :: x in s <==> x in xs
    ensures Distinct(s)
  {
    ListedCount(listing, xs);
    ListedCount(FirstSeen(s), xs);
    FirstSeenLength(s);
  }

  lemma {:induction false} FirstSeenLength(s: seq<Key>)
    ensures |FirstSeen(s)| <= |s|
    ensures |FirstSeen(s)| == |s| ==> FirstSeen(s) == s
  {
    if s != [] {
      FirstSeenLength(s[..|s| - 1]);
      assert s == s[..|s| - 1] + [s[|s| - 1]];
    }
  }

  // The query ----------------------------------------------------------------

  function HybridSignals(keyword: Signal, vector: Signal, graph: Signal): seq<Weighted> {
    [Weighted(keyword, HYBRID_W_KEYWORD), Weighted(vector, HYBRID_W_VECTOR), Weighted(graph, HYBRID_W_GRAPH)]
  }

  /** The answer is the best list, one citation per candidate; there is none exactly when no
      signal surfaced a candidate or the limit is zero. The graph narrative is used exactly
      when a returned source came from the graph signal. */
  method QueryHybrid(keyword: Signal, vector: Signal, graph: Signal, limit: nat)
    returns (result: Option<seq<Source>>, graphGrounded: bool)
    ensures exists list ::
      && IsBest(HybridSignals(keyword, vector, graph), list, limit)
      && result == (if list == [] then None else Some(Citations(HybridSignals(keyword, vector, graph), list)))
      && (graphGrounded <==> exists k :: k in list && k in KeysOf(graph))
  {
    ghost var ws := HybridSignals(keyword, vector, graph);
    if keyword == [] && vector == [] && graph == [] {
      NoSignalNoList(limit);
      return None, false;
    }
    var ranked := RankAll(HybridSignals(keyword, vector, graph), limit);
    ghost var list := KeySeq(ranked)[..if |ranked| < limit then |ranked| else limit];
    var sources;
    sources, graphGrounded := TakeSources(ws, ranked, list, graph, limit);
    result := if sources == [] then None else Some(sources);
  }

  method RankAll(ws: seq<Weighted>, ghost limit: nat) returns (ranked: seq<Row>)
    ensures IsBest(ws, KeySeq(ranked)[..if |ranked| < limit then |ranked| else limit], limit)
    ensures forall i | 0 <= i < |ranked| :: ranked[i] == FusedRow(ws, KeyOf(ranked[i].source))
  {
    var acc, order := FuseAll(ws);
    var rows := RowsInOrder(acc, order);
    ranked := Sort(rows, Before);
    SortedRowsAreBest(ws, rows, order, limit);
  }

  method TakeSources(ghost ws: seq<Weighted>, ranked: seq<Row>, ghost list: seq<Key>, graph: Signal, limit: nat)
    returns (sources: seq<Source>, graphGrounded: bool)
    requires |list| == if |ranked| < limit then |ranked| else limit
    requires forall i | 0 <= i < |list| :: list[i] == KeyOf(ranked[i].source) && ranked[i] == FusedRow(ws, list[i])
    ensures sources == Citations(ws, list)
    ensures graphGrounded <==> exists k :: k in list && k in KeysOf(graph)
  {
    var n := if |ranked| < limit then |ranked| else limit;
    var graphKeys := KeysOf(graph);
    sources, graphGrounded := [], false;
    for i := 0 to n
      invariant sources == Citations(ws, list[..i])
      invariant graphGrounded <==> exists k :: k in list[..i] && k in graphKeys
    {
      var s := ranked[i].source;
      assert list[..i + 1] == list[..i] + [KeyOf(s)];
      sources := sources + [s];
      graphGrounded := graphGrounded || KeyOf(s) in graphKeys;
    }
    assert list[..n] == list;
  }

  function Citations(ws: seq<Weighted>, list: seq<Key>): (r: seq<Source>)
    ensures |r| == |list|
  {
    seq(|list|, i requires 0 <= i < |list| => FusedRow(ws, list[i]).source)
  }

  method RowsInOrder(acc: Fused, order: seq<Key>) returns (rows: seq<Row>)
    requires Lists(order, acc.Keys)
    ensures |rows| == |order| && forall j | 0 <= j < |order| :: order[j] in acc && rows[j] == acc[order[j]]
  {
    rows := [];
    for i := 0 to |order|
      invariant |rows| == i && forall j | 0 <= j < i :: order[j] in acc && rows[j] == acc[order[j]]
    {
      assert order[i] in order;
      rows := rows + [acc[order[i]]];
    }
  }

  lemma HybridTotal(keyword: Signal, vector: Signal, graph: Signal, k: Key)
    ensures Total(HybridSignals(keyword, vector, graph), k) ==
      Contribution(Weighted(keyword, HYBRID_W_KEYWORD), k) + Contribution(Weighted(vector, HYBRID_W_VECTOR), k)
      + Contribution(Weighted(graph, HYBRID_W_GRAPH), k)
    ensures Candidates(HybridSignals(keyword, vector, graph)) == Surfaced(keyword) + Surfaced(vector) + Surfaced(graph)
  {
    var ws := HybridSignals(keyword, vector, graph);
    FoldThree(ws[0], ws[1], ws[2], ContributionTo(k), RealPlus, 0.0);
    FoldThree(ws[0], ws[1], ws[2], SurfacedBy, Union, {});
    assert ws == [ws[0], ws[1], ws[2]];
  }

  /** The fused score is the weighted sum of a candidate's shares of the three signals. */
  lemma HybridScore(keyword: Signal, vector: Signal, graph: Signal, k: Key, p: Place, q: Place, r: Place)
    requires PlaceIs(keyword, k, p) && PlaceIs(vector, k, q) && PlaceIs(graph, k, r)
    ensures Total(HybridSignals(keyword, vector, graph), k) == 0.2 * Share(p) + 0.5 * Share(q) + 0.3 * Share(r)
    ensures k in Candidates(HybridSignals(keyword, vector, graph)) <==> p.Placed? || q.Placed? || r.Placed?
  {
    PlaceOfBest(keyword, k, p);
    PlaceOfBest(vector, k, q);
    PlaceOfBest(graph, k, r);
    HybridTotal(keyword, vector, graph, k);
    ContributionByShare(Weighted(keyword, HYBRID_W_KEYWORD), k, p);
    ContributionByShare(Weighted(vector, HYBRID_W_VECTOR), k, q);
    ContributionByShare(Weighted(graph, HYBRID_W_GRAPH), k, r);
  }

  /** Any candidate after a listed one scores less, or the same with a later title, or the same
      with that title and a later section. */
  lemma BestListDescends(ws: seq<Weighted>, list: seq<Key>, limit: nat, i: nat, k: Key)
    requires IsBest(ws, list, limit) && i < |list| && k in Candidates(ws) && k !in list[..i + 1]
    ensures Total(ws, list[i]) >= Total(ws, k)
    ensures Total(ws, list[i]) == Total(ws, k) ==>
      Less(list[i].title, k.title) || (list[i].title == k.title && Less(list[i].section, k.section))
  {
    assert KeyBefore(ws)(list[i], k);
  }

  lemma NoSignalNoList(limit: nat)
    ensures IsBest(HybridSignals([], [], []), [], limit)
  {
    HybridTotal([], [], [], Key("", ""));
  }

  /** A candidate that only the keyword signal surfaced ranks strictly below the best vector
      candidate and below the best graph candidate. */
  lemma KeywordOnlyRanksBelow(keyword: Signal, vector: Signal, graph: Signal, k: Key, top: Key)
    requires Nonnegative(keyword) && Nonnegative(vector) && Nonnegative(graph)
    requires k !in Surfaced(vector) && k !in Surfaced(graph)
    requires top in TopKeys(vector) || top in TopKeys(graph)
    ensures KeyBefore(HybridSignals(keyword, vector, graph))(top, k)
  {
    HybridTotal(keyword, vector, graph, k);
    HybridTotal(keyword, vector, graph, top);
    ContributionBounded(Weighted(keyword, HYBRID_W_KEYWORD), k);
    ContributionBounded(Weighted(keyword, HYBRID_W_KEYWORD), top);
    ContributionBounded(Weighted(vector, HYBRID_W_VECTOR), top);
    ContributionBounded(Weighted(graph, HYBRID_W_GRAPH), top);
  }

  // Citations and row order ----------------------------------------------------

  /** The same signals with the rows of each in some other order. */
  ghost predicate Permuted(ws: seq<Weighted>, vs: seq<Weighted>) {
    && |ws| == |vs|
    && forall i | 0 <= i < |ws| :: ws[i].weight == vs[i].weight && multiset(ws[i].signal) == multiset(vs[i].signal)
  }

  /** The URLs of a key's highest rows. */
  function UrlChoices(s: Signal, k: Key): set<Option<string>> {
    if k in Surfaced(s) && Best(s, k).Some?
    then set row | row in s && KeyOf(row.source) == k && row.raw == Best(s, k).value.raw :: row.source.url
    else {None}
  }

  /** The URLs a key can end up with. */
  function UrlOutcomes(ws: seq<Weighted>, k: Key): set<Option<string>> {
    if ws == [] then {None} else
    var before, offered := UrlOutcomes(ws[..|ws| - 1], k), UrlChoices(ws[|ws| - 1].signal, k);
    (set u | u in before && u.Some?) + if None in before then offered else {}
  }

  lemma OfferIsChoice(s: Signal, t: Signal, k: Key)
    requires multiset(s) == multiset(t)
    ensures OfferedUrl(t, k) in UrlChoices(s, k)
  {
    assert forall row :: row in s <==> row in multiset(s);
    assert forall row :: row in t <==> row in multiset(t);
    ContributionIgnoresRowOrder(s, t, 1.0, k);
    BestIsHighest(s, k);
    BestIsHighest(t, k);
  }

  lemma {:induction false} CitedIsOutcome(ws: seq<Weighted>, vs: seq<Weighted>, k: Key)
    requires Permuted(ws, vs)
    ensures CitedUrl(vs, k) in UrlOutcomes(ws, k)
  {
    if ws != [] {
      var n := |ws| - 1;
      CitedIsOutcome(ws[..n], vs[..n], k);
      OfferIsChoice(ws[n].signal, vs[n].signal, k);
    }
  }

  lemma {:induction false} BestOfHead(r: Row, rest: Signal, k: Key)
    requires KeyOf(r.source) == k && forall row | row in rest && KeyOf(row.source) == k :: row.raw <= r.raw
    ensures Best([r] + rest, k) == Some(r)
  {
    var s := [r] + rest;
    if rest == [] {
      assert s[..0] == [];
    } else {
      BestOfHead(r, rest[..|rest| - 1], k);
      assert s[..|s| - 1] == [r] + rest[..|rest| - 1];
      assert rest[|rest| - 1] in rest;
    }
  }

  /** The same rows with `r` first. */
  lemma Fronted(s: Signal, r: Row) returns (rest: Signal)
    requires r in s
    ensures multiset([r] + rest) == multiset(s)
    ensures forall row | row in rest :: row in s
    ensures forall row :: row in s <==> row in [r] + rest
  {
    var i := TakeOut(s, r);
    rest := s[..i] + s[i + 1..];
    assert multiset([r] + rest) == multiset{r} + multiset(rest);
    assert forall row :: row in [r] + rest <==> row in multiset([r] + rest);
  }

  lemma ChoiceIsOffered(s: Signal, k: Key, u: Option<string>) returns (t: Signal)
    requires u in UrlChoices(s, k)
    ensures multiset(t) == multiset(s) && OfferedUrl(t, k) == u
  {
    if k in Surfaced(s) && Best(s, k).Some? {
      BestIsHighest(s, k);
      var r :| r in s && KeyOf(r.source) == k && r.raw == Best(s, k).value.raw && r.source.url == u;
      var rest := Fronted(s, r);
      t := [r] + rest;
      BestOfHead(r, rest, k);
      ContributionIgnoresRowOrder(s, t, 1.0, k);
    } else {
      t := s;
    }
  }

  lemma PermutedSnoc(ws: seq<Weighted>, w: Weighted, vs: seq<Weighted>, t: Signal)
    requires Permuted(ws, vs) && multiset(t) == multiset(w.signal)
    ensures Permuted(ws + [w], vs + [Weighted(t, w.weight)])
  {
  }

  lemma CitedSnoc(vs: seq<Weighted>, w: Weighted, k: Key)
    ensures CitedUrl(vs + [w], k) == if CitedUrl(vs, k).Some? then CitedUrl(vs, k) else OfferedUrl(w.signal, k)
  {
    assert (vs + [w])[..|vs|] == vs;
  }

  lemma {:induction false} OutcomeIsCited(ws: seq<Weighted>, k: Key, u: Option<string>) returns (vs: seq<Weighted>)
    requires u in UrlOutcomes(ws, k)
    ensures Permuted(ws, vs) && CitedUrl(vs, k) == u
  {
    if ws == [] {
      vs := [];
    } else {
      var ws', w := ws[..|ws| - 1], ws[|ws| - 1];
      var kept := u.Some? && u in UrlOutcomes(ws', k);
      var front := OutcomeIsCited(ws', k, if kept then u else None);
      var t := w.signal;
      if !kept { t := ChoiceIsOffered(w.signal, k, u); }
      vs := front + [Weighted(t, w.weight)];
      CitedSnoc(front, Weighted(t, w.weight), k);
      PermutedSnoc(ws', w, front, t);
      assert ws == ws' + [w];
    }
  }

  /** The cited URL is independent of row order exactly when the highest rows leave one
      outcome. Scores and ranks never depend on it. */
  lemma UrlIgnoresRowOrderIff(ws: seq<Weighted>, k: Key)
    ensures (forall vs | Permuted(ws, vs) :: CitedUrl(vs, k) == CitedUrl(ws, k)) <==> |UrlOutcomes(ws, k)| == 1
  {
    var outcomes, u := UrlOutcomes(ws, k), CitedUrl(ws, k);
    CitedIsOutcome(ws, ws, k);
    if |outcomes| == 1 {
      assert |outcomes - {u}| == 0;
      forall vs | Permuted(ws, vs)
        ensures CitedUrl(vs, k) == u
      {
        CitedIsOutcome(ws, vs, k);
        assert CitedUrl(vs, k) !in outcomes - {u};
      }
    } else {
      assert outcomes != {u};
      var v :| v in outcomes && v != u;
      var vs := OutcomeIsCited(ws, k, v);
    }
  }

  lemma FirstOfTwoOffered(x: Row, y: Row, k: Key)
    requires KeyOf(x.source) == k && KeyOf(y.source) == k && x.raw == y.raw > 0.0
    ensures OfferedUrl([x, y], k) == x.source.url
  {
    BestOfHead(x, [y], k);
    assert [x] + [y] == [x, y];
    MaxIsMax([x, y]);
    assert x in [x, y];
  }

  lemma FirstSignalDecides(keyword: Signal, vector: Signal, graph: Signal, k: Key)
    requires OfferedUrl(keyword, k).Some?
    ensures CitedUrl(HybridSignals(keyword, vector, graph), k) == OfferedUrl(keyword, k)
  {
    var ws := HybridSignals(keyword, vector, graph);
    assert ws[..2][..1] == [ws[0]] && [ws[0]][..0] == [];
    assert CitedUrl([ws[0]], k) == OfferedUrl(keyword, k);
    assert CitedUrl(ws[..2], k) == OfferedUrl(keyword, k);
  }

  /** Two equally scored rows of one candidate with different URLs: the query cites the one that
      comes first. */
  lemma UrlCanDependOnRowOrder(x: Row, y: Row, vector: Signal, graph: Signal, k: Key)
    requires KeyOf(x.source) == k && KeyOf(y.source) == k && x.raw == y.raw > 0.0
    requires x.source.url.Some? && y.source.url.Some? && x.source.url != y.source.url
    ensures Permuted(HybridSignals([x, y], vector, graph), HybridSignals([y, x], vector, graph))
    ensures CitedUrl(HybridSignals([x, y], vector, graph), k) != CitedUrl(HybridSignals([y, x], vector, graph), k)
  {
    FirstOfTwoOffered(x, y, k);
    FirstOfTwoOffered(y, x, k);
    FirstSignalDecides([x, y], vector, graph, k);
    FirstSignalDecides([y, x], vector, graph, k);
    assert multiset([x, y]) == multiset([y, x]);
  }
}
