/** GraphRAG retrieval: the bounded breadth-first walk over a pack's `entities` and
    `relationships` tables, and the rank scores read off its discovery order.

    The two tables are sequences of rows. A fetch promises which rows it returns and
    nothing about their order, so every result holds for every row order. */
module GraphWalk {
  import opened Text
  import opened Citation
  import opened Sequences

  const MAX_GRAPH_HOPS := 2

  type Id = string

  datatype Entity = Entity(id: Id, name: string, etype: string, description: string, url: Option<string>)
  datatype Edge = Edge(source: Id, target: Id, relation: string)
  datatype Pack = Pack(entities: seq<Entity>, relationships: seq<Edge>)

  function IdsOf(rows: seq<Entity>): set<Id> { set e | e in rows :: e.id }

  lemma IdsOfSnoc(rows: seq<Entity>, i: nat)
    requires i < |rows|
    ensures IdsOf(rows[..i + 1]) == IdsOf(rows[..i]) + {rows[i].id}
  {
    assert rows[..i + 1] == rows[..i] + [rows[i]];
  }

  predicate Touches(r: Edge, ids: set<Id>) { r.source in ids || r.target in ids }

  /** `r` joins `id` to a member of `ids`, in either direction. */
  predicate Joins(r: Edge, id: Id, ids: set<Id>) {
    (r.source == id && r.target in ids) || (r.target == id && r.source in ids)
  }

  /** `id` is an existing entity that some relationship joins to a member of `ids`. */
  ghost predicate Linked(p: Pack, id: Id, ids: set<Id>) {
    id in IdsOf(p.entities) && exists r :: r in p.relationships && Joins(r, id, ids)
  }

  // Hop distance -------------------------------------------------------------

  /** One more hop out. */
  ghost function Expand(p: Pack, w: set<Id>): set<Id> {
    w + set id | id in IdsOf(p.entities) && Linked(p, id, w)
  }

  /** The existing entities at most `k` relationship hops from a seed. */
  ghost function Within(p: Pack, seeds: set<Id>, k: nat): set<Id> {
    if k == 0 then seeds else Expand(p, Within(p, seeds, k - 1))
  }

  /** The entities nearer than `k` hops. */
  ghost function Nearer(p: Pack, seeds: set<Id>, k: nat): set<Id> {
    if k == 0 then {} else Within(p, seeds, k - 1)
  }

  /** A walk along relationships, in either direction, through existing entities. */
  ghost predicate IsPath(p: Pack, seeds: set<Id>, path: seq<Id>) {
    && path != [] && path[0] in seeds
    && forall i | 0 < i < |path| :: Linked(p, path[i], {path[i - 1]})
  }

  ghost predicate ReachedBy(p: Pack, seeds: set<Id>, path: seq<Id>, id: Id, k: nat) {
    IsPath(p, seeds, path) && |path| <= k + 1 && path[|path| - 1] == id
  }

  lemma LinkedGrows(p: Pack, id: Id, a: Id, ids: set<Id>)
    requires Linked(p, id, {a}) && a in ids
    ensures Linked(p, id, ids)
  {
    var r :| r in p.relationships && Joins(r, id, {a});
    assert Joins(r, id, ids);
  }

  lemma LinkedVia(p: Pack, id: Id, ids: set<Id>) returns (a: Id)
    requires Linked(p, id, ids)
    ensures a in ids && Linked(p, id, {a})
  {
    var r :| r in p.relationships && Joins(r, id, ids);
    a := if r.source == id && r.target in ids then r.target else r.source;
    assert Joins(r, id, {a});
  }

  lemma {:induction false} PathStaysWithin(p: Pack, seeds: set<Id>, path: seq<Id>, k: nat)
    requires IsPath(p, seeds, path) && |path| <= k + 1
    ensures path[|path| - 1] in Within(p, seeds, k)
    decreases k
  {
    var n := |path|;
    if n > 1 {
      PathStaysWithin(p, seeds, path[..n - 1], k - 1);
      LinkedGrows(p, path[n - 1], path[n - 2], Within(p, seeds, k - 1));
    } else {
      WithinMonotone(p, seeds, 0, k);
    }
  }

  lemma {:induction false} WithinHasPath(p: Pack, seeds: set<Id>, id: Id, k: nat) returns (path: seq<Id>)
    requires id in Within(p, seeds, k)
    ensures ReachedBy(p, seeds, path, id, k)
    decreases k
  {
    if k == 0 {
      path := [id];
    } else if id in Within(p, seeds, k - 1) {
      path := WithinHasPath(p, seeds, id, k - 1);
    } else {
      var a := LinkedVia(p, id, Within(p, seeds, k - 1));
      var front := WithinHasPath(p, seeds, a, k - 1);
      path := front + [id];
      assert forall i | 0 <= i < |front| :: path[i] == front[i];
    }
  }

  /** `Within` is reachability by a path of at most `k` relationships. */
  lemma WithinIsPathDistance(p: Pack, seeds: set<Id>, id: Id, k: nat)
    ensures id in Within(p, seeds, k) <==> exists path :: ReachedBy(p, seeds, path, id, k)
  {
    if id in Within(p, seeds, k) {
      var path := WithinHasPath(p, seeds, id, k);
    }
    forall path | ReachedBy(p, seeds, path, id, k)
      ensures id in Within(p, seeds, k)
    {
      PathStaysWithin(p, seeds, path, k);
    }
  }

  lemma {:induction false} WithinMonotone(p: Pack, seeds: set<Id>, j: nat, k: nat)
    requires j <= k
    ensures Within(p, seeds, j) <= Within(p, seeds, k)
    decreases k - j
  {
    if j < k { WithinMonotone(p, seeds, j, k - 1); }
  }

  /** Once a hop discovers nothing, no later hop does. */
  lemma {:induction false} WithinStable(p: Pack, seeds: set<Id>, h: nat, k: nat)
    requires h <= k
    requires Within(p, seeds, h) == Nearer(p, seeds, h)
    ensures Within(p, seeds, k) == Within(p, seeds, h) == Nearer(p, seeds, k)
    decreases k
  {
    if h < k {
      WithinStable(p, seeds, h, k - 1);
      if k == 1 { assert Expand(p, {}) == {}; }
    }
  }

  // Fetches ------------------------------------------------------------------

  /** Rows of `relationships` with an endpoint in `ids`, in any order. */
  method FetchEdges(p: Pack, ids: seq<Id>) returns (rows: seq<Edge>)
    ensures forall r :: r in rows <==> r in p.relationships && (r.source in ids || r.target in ids)
  {
    rows := [];
    for i := 0 to |p.relationships|
      invariant forall r :: r in rows <==> r in p.relationships[..i] && (r.source in ids || r.target in ids)
    {
      var r := p.relationships[i];
      if r.source in ids || r.target in ids { rows := rows + [r]; }
      assert p.relationships[..i + 1] == p.relationships[..i] + [r];
    }
    assert p.relationships[..|p.relationships|] == p.relationships;
  }

  /** Rows of `entities` whose id is in `ids`, in any order. */
  method FetchEntitiesById(p: Pack, ids: seq<Id>) returns (rows: seq<Entity>)
    ensures forall e :: e in rows <==> e in p.entities && e.id in ids
  {
    rows := [];
    for i := 0 to |p.entities|
      invariant forall e :: e in rows <==> e in p.entities[..i] && e.id in ids
    {
      var e := p.entities[i];
      if e.id in ids { rows := rows + [e]; }
      assert p.entities[..i + 1] == p.entities[..i] + [e];
    }
    assert p.entities[..|p.entities|] == p.entities;
  }

  // The walk -----------------------------------------------------------------

  /** Each known id carries a row of the table with that id. */
  ghost predicate Grounded(p: Pack, known: map<Id, Entity>) {
    forall id | id in known :: known[id] in p.entities && known[id].id == id
  }

  /** `order` never lists a farther entity before a nearer one. */
  ghost predicate Layered(p: Pack, seeds: set<Id>, order: seq<Id>) {
    forall i, j, k: nat | 0 <= i < j < |order| && order[j] in Within(p, seeds, k) ::
      order[i] in Within(p, seeds, k)
  }

  function IdSeq(rows: seq<Entity>): (r: seq<Id>)
    ensures |r| == |rows| && forall i | 0 <= i < |rows| :: r[i] == rows[i].id
  {
    seq(|rows|, i requires 0 <= i < |rows| => rows[i].id)
  }

  lemma SeedOrderSnoc(seeds: seq<Entity>, i: nat, known: set<Id>)
    requires i < |seeds| && known == IdsOf(seeds[..i])
    ensures FirstSeen(IdSeq(seeds[..i + 1])) ==
      if seeds[i].id in known then FirstSeen(IdSeq(seeds[..i])) else FirstSeen(IdSeq(seeds[..i])) + [seeds[i].id]
  {
    var ids, now := IdSeq(seeds), seeds[..i];
    assert IdSeq(seeds[..i + 1]) == ids[..i + 1] && IdSeq(now) == ids[..i];
    FirstSeenSnoc(ids, i);
    if seeds[i].id in known {
      var e :| e in now && e.id == seeds[i].id;
      var j :| 0 <= j < i && now[j] == e;
      assert ids[..i][j] == seeds[i].id;
    } else {
      assert forall j | 0 <= j < i :: now[j] in now && ids[..i][j] == now[j].id;
    }
  }

  method CollectSeeds(p: Pack, seeds: seq<Entity>) returns (known: map<Id, Entity>, order: seq<Id>)
    requires forall e | e in seeds :: e in p.entities
    ensures known.Keys == IdsOf(seeds) && Grounded(p, known)
    ensures Lists(order, known.Keys) && order == FirstSeen(IdSeq(seeds))
  {
    known, order := map[], [];
    for i := 0 to |seeds|
      invariant known.Keys == IdsOf(seeds[..i]) && Grounded(p, known)
      invariant Lists(order, known.Keys) && order == FirstSeen(IdSeq(seeds[..i]))
    {
      var e := seeds[i];
      IdsOfSnoc(seeds, i);
      SeedOrderSnoc(seeds, i, known.Keys);
      if e.id !in known {
        ListsSnoc(order, known.Keys, e.id);
        order := order + [e.id];
      }
      known := known[e.id := e];
    }
    assert seeds[..|seeds|] == seeds;
  }

  method CollectHop(hopEdges: seq<Edge>, edges0: seq<Edge>, known: map<Id, Entity>)
    returns (edges: seq<Edge>, newIds: seq<Id>)
    requires Distinct(edges0)
    ensures Distinct(edges)
    ensures forall r :: r in edges <==> r in edges0 || r in hopEdges
    ensures forall id :: id in newIds <==>
      id !in known && exists r :: r in hopEdges && (r.source == id || r.target == id)
  {
    edges, newIds := edges0, [];
    var seen := set r | r in edges0;
    for i := 0 to |hopEdges|
      invariant Distinct(edges) && seen == set r | r in edges
      invariant forall r :: r in edges <==> r in edges0 || r in hopEdges[..i]
      invariant forall id :: id in newIds <==>
        id !in known && exists r :: r in hopEdges[..i] && (r.source == id || r.target == id)
    {
      var edge := hopEdges[i];
      assert hopEdges[..i + 1] == hopEdges[..i] + [edge];
      if edge !in seen {
        assert edge !in edges;
        seen := seen + {edge};
        edges := edges + [edge];
      }
      if edge.source !in known && edge.source !in newIds { newIds := newIds + [edge.source]; }
      if edge.target !in known && edge.target !in newIds { newIds := newIds + [edge.target]; }
    }
    assert hopEdges[..|hopEdges|] == hopEdges;
  }

  method AddNeighbours(p: Pack, rows: seq<Entity>, known0: map<Id, Entity>, order0: seq<Id>)
    returns (known: map<Id, Entity>, order: seq<Id>, frontier: seq<Id>)
    requires forall e | e in rows :: e in p.entities
    requires Grounded(p, known0) && Lists(order0, known0.Keys)
    ensures Grounded(p, known) && known.Keys == known0.Keys + IdsOf(rows)
    ensures order == order0 + frontier && Lists(order, known.Keys)
    ensures forall id :: id in frontier <==> id in IdsOf(rows) && id !in known0
  {
    known, order, frontier := known0, order0, [];
    ghost var done: set<Id> := {};
    for i := 0 to |rows|
      invariant done == IdsOf(rows[..i])
      invariant Grounded(p, known) && known.Keys == known0.Keys + done
      invariant order == order0 + frontier && Lists(order, known.Keys)
      invariant forall id :: id in frontier <==> id in done && id !in known0
    {
      var e := rows[i];
      IdsOfSnoc(rows, i);
      done := done + {e.id};
      if e.id !in known {
        ListsSnoc(order, known.Keys, e.id);
        assert order + [e.id] == order0 + (frontier + [e.id]);
        order := order + [e.id];
        frontier := frontier + [e.id];
        known := known[e.id := e];
      }
    }
    assert rows[..|rows|] == rows;
  }

  /** What the walk knows after `h` hops. */
  ghost predicate Explored(p: Pack, seeds: set<Id>, h: nat, known: map<Id, Entity>, order: seq<Id>,
                           frontier: seq<Id>, edges: seq<Edge>) {
    && Grounded(p, known) && known.Keys == Within(p, seeds, h)
    && Lists(order, known.Keys) && Layered(p, seeds, order)
    && (forall id :: id in frontier <==> id in Within(p, seeds, h) && id !in Nearer(p, seeds, h))
    && Distinct(edges)
    && forall r :: r in edges <==> r in p.relationships && Touches(r, Nearer(p, seeds, h))
  }

  /** The entities one hop past the frontier are the ones one hop past everything known. */
  lemma NextRing(p: Pack, seeds: set<Id>, h: nat, frontier: set<Id>, rows: set<Id>)
    requires frontier == Within(p, seeds, h) - Nearer(p, seeds, h)
    requires rows == set id | id in IdsOf(p.entities) && id !in Within(p, seeds, h)
                              && exists r :: r in p.relationships && Touches(r, frontier)
                                             && (r.source == id || r.target == id)
    ensures Within(p, seeds, h + 1) == Within(p, seeds, h) + rows
    ensures rows == Within(p, seeds, h + 1) - Within(p, seeds, h)
  {
    var w, n := Within(p, seeds, h), Nearer(p, seeds, h);
    forall id | id in IdsOf(p.entities) && id !in w
      ensures id in rows <==> Linked(p, id, w)
    {
      if id in rows {
        var r :| r in p.relationships && Touches(r, frontier) && (r.source == id || r.target == id);
        assert Joins(r, id, w);
      }
      if r :| r in p.relationships && Joins(r, id, w) {
        assert !Joins(r, id, n) by { assert Joins(r, id, n) ==> h > 0 && Linked(p, id, n); }
        assert Touches(r, frontier);
      }
    }
  }

  /** Appending a whole ring keeps the order layered. */
  lemma RingKeepsLayers(p: Pack, seeds: set<Id>, h: nat, order: seq<Id>, ring: seq<Id>)
    requires Layered(p, seeds, order) && Lists(order, Within(p, seeds, h))
    requires forall id | id in ring :: id in Within(p, seeds, h + 1) && id !in Within(p, seeds, h)
    ensures Layered(p, seeds, order + ring)
  {
    var o := order + ring;
    forall i, j, k: nat | 0 <= i < j < |o| && o[j] in Within(p, seeds, k)
      ensures o[i] in Within(p, seeds, k)
    {
      if j >= |order| {
        assert o[j] in ring;
        if k <= h { WithinMonotone(p, seeds, k, h); }
        WithinMonotone(p, seeds, h, k);
        WithinMonotone(p, seeds, h + 1, k);
        assert i < |order| ==> o[i] == order[i] && o[i] in order;
        assert i >= |order| ==> o[i] in ring;
      }
    }
  }

  /** The rows fetched past the frontier are the next ring. */
  lemma FetchedRing(p: Pack, seeds: set<Id>, h: nat, known: map<Id, Entity>, frontier: seq<Id>,
                    hopEdges: seq<Edge>, newIds: seq<Id>, rows: seq<Entity>)
    requires known.Keys == Within(p, seeds, h)
    requires forall id :: id in frontier <==> id in Within(p, seeds, h) && id !in Nearer(p, seeds, h)
    requires forall r :: r in hopEdges <==> r in p.relationships && (r.source in frontier || r.target in frontier)
    requires forall id :: id in newIds <==>
      id !in known && exists r :: r in hopEdges && (r.source == id || r.target == id)
    requires forall e :: e in rows <==> e in p.entities && e.id in newIds
    ensures Within(p, seeds, h + 1) == Within(p, seeds, h) + IdsOf(rows)
    ensures IdsOf(rows) == Within(p, seeds, h + 1) - Within(p, seeds, h)
  {
    var fs := set id | id in frontier;
    assert fs == Within(p, seeds, h) - Nearer(p, seeds, h);
    var ring := set id | id in IdsOf(p.entities) && id !in Within(p, seeds, h)
                         && exists r :: r in p.relationships && Touches(r, fs) && (r.source == id || r.target == id);
    forall id
      ensures id in IdsOf(rows) <==> id in ring
    {
      if id in IdsOf(rows) {
        var r :| r in hopEdges && (r.source == id || r.target == id);
        assert Touches(r, fs);
      }
      if id in ring {
        var r :| r in p.relationships && Touches(r, fs) && (r.source == id || r.target == id);
        assert r in hopEdges;
        var e :| e in p.entities && e.id == id;
        assert e in rows;
      }
    }
    NextRing(p, seeds, h, fs, ring);
  }

  /** The edges fetched so far are the ones that touch an entity nearer than the new bound. */
  lemma FetchedEdges(p: Pack, seeds: set<Id>, h: nat, frontier: seq<Id>, hopEdges: seq<Edge>,
                     edges0: seq<Edge>, edges: seq<Edge>)
    requires forall id :: id in frontier <==> id in Within(p, seeds, h) && id !in Nearer(p, seeds, h)
    requires forall r :: r in hopEdges <==> r in p.relationships && (r.source in frontier || r.target in frontier)
    requires forall r :: r in edges0 <==> r in p.relationships && Touches(r, Nearer(p, seeds, h))
    requires forall r :: r in edges <==> r in edges0 || r in hopEdges
    ensures forall r :: r in edges <==> r in p.relationships && Touches(r, Nearer(p, seeds, h + 1))
  {
    if h > 0 { WithinMonotone(p, seeds, h - 1, h); }
  }

  method Hop(p: Pack, ghost seeds: set<Id>, ghost h: nat, known0: map<Id, Entity>, order0: seq<Id>,
             frontier0: seq<Id>, edges0: seq<Edge>)
    returns (known: map<Id, Entity>, order: seq<Id>, frontier: seq<Id>, edges: seq<Edge>)
    requires Explored(p, seeds, h, known0, order0, frontier0, edges0)
    ensures Explored(p, seeds, h + 1, known, order, frontier, edges) && order0 <= order
  {
    var hopEdges := FetchEdges(p, frontier0);
    var newIds;
    edges, newIds := CollectHop(hopEdges, edges0, known0);
    var rows := FetchEntitiesById(p, newIds);
    known, order, frontier := AddNeighbours(p, rows, known0, order0);
    FetchedRing(p, seeds, h, known0, frontier0, hopEdges, newIds, rows);
    FetchedEdges(p, seeds, h, frontier0, hopEdges, edges0, edges);
    RingKeepsLayers(p, seeds, h, order0, frontier);
  }

  /** The walk is exact: it knows the entities within `maxHops` of a seed, lists each once
      in nondecreasing distance, the seeds as they were ranked, and collects each relationship
      touching an entity nearer than `maxHops` once. */
  method Walk(p: Pack, seeds: seq<Entity>, maxHops: nat)
    returns (known: map<Id, Entity>, order: seq<Id>, edges: seq<Edge>)
    requires forall e | e in seeds :: e in p.entities
    ensures Grounded(p, known) && known.Keys == Within(p, IdsOf(seeds), maxHops)
    ensures Lists(order, known.Keys) && Layered(p, IdsOf(seeds), order) && FirstSeen(IdSeq(seeds)) <= order
    ensures Distinct(edges)
    ensures forall r :: r in edges <==> r in p.relationships && Touches(r, Nearer(p, IdsOf(seeds), maxHops))
  {
    known, order := CollectSeeds(p, seeds);
    var frontier := order;
    edges := [];
    ghost var s := IdsOf(seeds);
    assert Layered(p, s, order) by {
      forall i, j, k: nat | 0 <= i < j < |order| && order[j] in Within(p, s, k)
        ensures order[i] in Within(p, s, k)
      {
        assert order[i] in order;
        WithinMonotone(p, s, 0, k);
      }
    }
    var hop := 0;
    while hop < maxHops && frontier != []
      invariant 0 <= hop <= maxHops
      invariant Explored(p, s, hop, known, order, frontier, edges) && FirstSeen(IdSeq(seeds)) <= order
    {
      known, order, frontier, edges := Hop(p, s, hop, known, order, frontier, edges);
      hop := hop + 1;
    }
    if hop < maxHops {
      WithinMonotone(p, s, if hop == 0 then 0 else hop - 1, hop);
      assert Within(p, s, hop) == Nearer(p, s, hop);
      WithinStable(p, s, hop, maxHops);
    }
  }

  // Scored output ------------------------------------------------------------

  /** The citation of an entity: its name, its type or a stand-in, its URL. */
  function Cite(e: Entity): Source {
    Source(e.name, if e.etype == "" then "entity" else e.etype, e.url)
  }

  ghost predicate Cites(row: Row, e: Entity) {
    && row.source.title == e.name && row.source.url == e.url
    && row.source.section == (if e.etype == "" then "entity" else e.etype)
  }

  /** Decays with the position in discovery order. */
  function RankScore(idx: nat): real { 1.0 / (1.0 + idx as real) }

  /** The scored graph signal, or None when no seed matched. */
  method QueryGraphScored(p: Pack, seeds: seq<Entity>, limit: nat)
    returns (signal: Option<Signal>, ghost order: seq<Id>, ghost known: map<Id, Entity>)
    requires forall e | e in seeds :: e in p.entities
    ensures signal.None? <==> seeds == []
    ensures signal.Some? ==>
      && Lists(order, known.Keys) && Layered(p, IdsOf(seeds), order) && FirstSeen(IdSeq(seeds)) <= order
      && Grounded(p, known) && known.Keys == Within(p, IdsOf(seeds), MAX_GRAPH_HOPS)
      && |signal.value| == (if |order| < limit then |order| else limit)
      && (forall i | 0 <= i < |signal.value| ::
           Cites(signal.value[i], known[order[i]]) && signal.value[i].raw == RankScore(i))
  {
    if seeds == [] { return None, [], map[]; }
    var k, o, edges := Walk(p, seeds, MAX_GRAPH_HOPS);
    order, known := o, k;
    var out := CiteFront(k, o, if |o| < limit then |o| else limit);
    signal := Some(out);
  }

  method CiteFront(known: map<Id, Entity>, order: seq<Id>, n: nat) returns (out: Signal)
    requires Lists(order, known.Keys) && n <= |order|
    ensures |out| == n
    ensures forall i | 0 <= i < n :: order[i] in known && Cites(out[i], known[order[i]]) && out[i].raw == RankScore(i)
  {
    out := [];
    for i := 0 to n
      invariant |out| == i
      invariant forall j | 0 <= j < i ::
        order[j] in known && Cites(out[j], known[order[j]]) && out[j].raw == RankScore(j)
    {
      assert order[i] in order;
      out := out + [Row(RankScore(i), Cite(known[order[i]]))];
    }
  }

  /** The score of the entity at position `idx` is the reciprocal of its rank. */
  lemma ScoreIsReciprocalRank(idx: nat)
    ensures RankScore(idx) * (idx + 1) as real == 1.0
  {
    assert (idx + 1) as real == 1.0 + idx as real;
  }

  /** An entity nearer to the seeds always scores strictly above a farther one. */
  lemma NearerScoresHigher(p: Pack, seeds: set<Id>, order: seq<Id>, i: nat, j: nat, k: nat)
    requires Layered(p, seeds, order) && i < |order| && j < |order|
    requires order[i] in Within(p, seeds, k) && order[j] !in Within(p, seeds, k)
    ensures RankScore(i) > RankScore(j) > 0.0
  {
    assert i < j;
    ReciprocalDecreases(1.0 + i as real, 1.0 + j as real);
  }

  lemma ReciprocalDecreases(x: real, y: real)
    requires 0.0 < x < y
    ensures 1.0 / x > 1.0 / y > 0.0
  {
    assert (1.0 / x) * x == 1.0 && (1.0 / y) * y == 1.0;
  }
}
