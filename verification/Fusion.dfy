/** Hybrid ranking: three retrieval signals, each normalized by its own maximum, are folded
    into one score per (title, section) candidate, and the candidates are ranked by a total
    order and cut to the limit. Scores are reals. */
module Fusion {
  import opened Text
  import opened Citation
  import opened Sequences
  import opened Sums

  const HYBRID_W_VECTOR: real := 0.5
  const HYBRID_W_GRAPH: real := 0.3
  const HYBRID_W_KEYWORD: real := 0.2

  /** The accumulator: per candidate a fused score and the citation kept for it. */
  type Fused = map<Key, Row>

  datatype Weighted = Weighted(signal: Signal, weight: real)

  // One signal ---------------------------------------------------------------

  /** The fold of the raw scores with `max`, from zero. */
  function Max(s: Signal): real {
    if s == [] then 0.0 else
    var m := Max(s[..|s| - 1]);
    if s[|s| - 1].raw > m then s[|s| - 1].raw else m
  }

  /** The row a key collapses to: a later row wins only with a strictly higher score. */
  function Best(s: Signal, k: Key): Option<Row> {
    if s == [] then None else
    var b, row := Best(s[..|s| - 1], k), s[|s| - 1];
    if KeyOf(row.source) == k && (b.None? || row.raw > b.value.raw) then Some(row) else b
  }

  function KeysOf(s: Signal): set<Key> { set row | row in s :: KeyOf(row.source) }

  /** The candidates a signal puts forward: none when no score is positive. */
  function Surfaced(s: Signal): set<Key> { if Max(s) <= 0.0 then {} else KeysOf(s) }

  function Scaled(weight: real, raw: real, max: real): real
    requires max != 0.0
  {
    weight * (raw / max)
  }

  function Contribution(w: Weighted, k: Key): real {
    var b := Best(w.signal, k);
    if k in Surfaced(w.signal) && b.Some? then Scaled(w.weight, b.value.raw, Max(w.signal)) else 0.0
  }

  lemma {:induction false} MaxIsMax(s: Signal)
    ensures Max(s) >= 0.0
    ensures forall row | row in s :: row.raw <= Max(s)
    ensures Max(s) > 0.0 ==> exists row :: row in s && row.raw == Max(s)
  {
    if s != [] {
      MaxIsMax(s[..|s| - 1]);
      assert s == s[..|s| - 1] + [s[|s| - 1]];
      assert s[|s| - 1] in s;
    }
  }

  /** The kept row is the key's highest. */
  lemma {:induction false} BestIsHighest(s: Signal, k: Key)
    ensures Best(s, k).Some? <==> k in KeysOf(s)
    ensures Best(s, k).Some? ==>
      var b := Best(s, k).value;
      b in s && KeyOf(b.source) == k && forall row | row in s && KeyOf(row.source) == k :: row.raw <= b.raw
  {
    if s != [] {
      var n := |s| - 1;
      BestIsHighest(s[..n], k);
      assert s == s[..n] + [s[n]];
      assert KeysOf(s) == KeysOf(s[..n]) + {KeyOf(s[n].source)};
    }
  }

  lemma ScaledBounded(weight: real, raw: real, max: real)
    requires weight >= 0.0 && 0.0 <= raw <= max && max > 0.0
    ensures 0.0 <= Scaled(weight, raw, max) <= weight
    ensures raw == max ==> Scaled(weight, raw, max) == weight
  {
    var q := raw / max;
    assert q * max == raw;
    assert (1.0 - q) * max == max - raw;
    assert 0.0 <= q <= 1.0;
    assert raw == max ==> q == 1.0;
    assert weight * (1.0 - q) >= 0.0;
  }

  predicate Nonnegative(s: Signal) { forall row | row in s :: row.raw >= 0.0 }

  /** The candidates holding a positive signal's maximum. */
  function TopKeys(s: Signal): set<Key> {
    set row | row in s && row.raw == Max(s) && Max(s) > 0.0 :: KeyOf(row.source)
  }

  /** A signal never gives a candidate more than its weight, and gives its best candidate
      exactly its weight. */
  lemma ContributionBounded(w: Weighted, k: Key)
    requires Nonnegative(w.signal) && w.weight >= 0.0
    ensures 0.0 <= Contribution(w, k) <= w.weight
    ensures k in TopKeys(w.signal) ==> Contribution(w, k) == w.weight
  {
    MaxIsMax(w.signal);
    BestIsHighest(w.signal, k);
    if k in Surfaced(w.signal) {
      ScaledBounded(w.weight, Best(w.signal, k).value.raw, Max(w.signal));
    }
  }

  /** Row order and repetition inside a signal do not matter to any score. */
  lemma ContributionIgnoresRowOrder(s: Signal, t: Signal, weight: real, k: Key)
    requires forall row :: row in s <==> row in t
    ensures Max(s) == Max(t) && Surfaced(s) == Surfaced(t)
    ensures Contribution(Weighted(s, weight), k) == Contribution(Weighted(t, weight), k)
  {
    MaxIsMax(s);
    MaxIsMax(t);
    BestIsHighest(s, k);
    BestIsHighest(t, k);
  }

  // Contributions in raw scores ------------------------------------------------

  ghost predicate IsHighest(s: Signal, row: Row) {
    row in s && forall r | r in s && KeyOf(r.source) == KeyOf(row.source) :: r.raw <= row.raw
  }

  ghost predicate IsPeak(s: Signal, row: Row) { row in s && row.raw > 0.0 && forall r | r in s :: r.raw <= row.raw }

  lemma ScaledIsShare(weight: real, raw: real, max: real)
    requires max != 0.0
    ensures Scaled(weight, raw, max) * max == weight * raw
  {
    var q := raw / max;
    assert q * max == raw;
    assert weight * q * max == weight * (q * max);
  }

  /** A signal puts a key forward exactly when it has a row of it and some positive score. */
  lemma SurfacedIff(s: Signal, k: Key)
    ensures k in Surfaced(s) <==>
      (exists row :: row in s && KeyOf(row.source) == k) && exists top :: IsPeak(s, top)
  {
    MaxIsMax(s);
    if Max(s) > 0.0 {
      var top :| top in s && top.raw == Max(s);
      assert IsPeak(s, top);
    }
  }

  lemma ContributionAt(w: Weighted, row: Row)
    requires IsHighest(w.signal, row)
    ensures Contribution(w, KeyOf(row.source)) ==
      if Max(w.signal) > 0.0 then Scaled(w.weight, row.raw, Max(w.signal)) else 0.0
  {
    BestIsHighest(w.signal, KeyOf(row.source));
  }

  lemma PeakIsMax(s: Signal, top: Row)
    requires IsPeak(s, top)
    ensures top.raw == Max(s) > 0.0
  {
    MaxIsMax(s);
  }

  /** A candidate gets the weight times its highest raw score over the signal's highest. */
  lemma ContributionIsShare(w: Weighted, row: Row, top: Row)
    requires IsHighest(w.signal, row) && IsPeak(w.signal, top)
    ensures Contribution(w, KeyOf(row.source)) * top.raw == w.weight * row.raw
  {
    ContributionAt(w, row);
    PeakIsMax(w.signal, top);
    ScaledIsShare(w.weight, row.raw, top.raw);
  }

  lemma ScaledIsProportional(weight: real, a: real, b: real, max: real)
    requires max != 0.0
    ensures Scaled(weight, a, max) * b == Scaled(weight, b, max) * a
  {
    var p, q := a / max, b / max;
    assert p * max == a && q * max == b;
    assert p * b == p * (q * max) == q * (p * max) == q * a;
    assert weight * p * b == weight * (p * b) && weight * q * a == weight * (q * a);
  }

  /** Within a signal, contributions are proportional to the highest raw scores. */
  lemma ContributionsAreProportional(w: Weighted, a: Row, b: Row)
    requires IsHighest(w.signal, a) && IsHighest(w.signal, b)
    ensures Contribution(w, KeyOf(a.source)) * b.raw == Contribution(w, KeyOf(b.source)) * a.raw
  {
    ContributionAt(w, a);
    ContributionAt(w, b);
    var m := Max(w.signal);
    if m > 0.0 { ScaledIsProportional(w.weight, a.raw, b.raw, m); }
  }

  /** Where a key stands in a signal: its highest row and the signal's highest, or nowhere. */
  datatype Place = Nowhere | Placed(row: Row, top: Row)

  ghost predicate PlaceIs(s: Signal, k: Key, place: Place) {
    match place
    case Nowhere => (forall row | row in s :: KeyOf(row.source) != k) || forall row | row in s :: row.raw <= 0.0
    case Placed(row, top) => IsHighest(s, row) && KeyOf(row.source) == k && IsPeak(s, top)
  }

  lemma PlaceExists(s: Signal, k: Key) returns (place: Place)
    ensures PlaceIs(s, k, place)
  {
    BestIsHighest(s, k);
    SurfacedIff(s, k);
    MaxIsMax(s);
    place := Nowhere;
    if k in Surfaced(s) {
      var top :| IsPeak(s, top);
      place := Placed(Best(s, k).value, top);
    }
  }

  function Share(place: Place): real {
    if place.Placed? && place.top.raw != 0.0 then place.row.raw / place.top.raw else 0.0
  }

  lemma PlaceOfBest(s: Signal, k: Key, place: Place)
    requires PlaceIs(s, k, place)
    ensures k in Surfaced(s) <==> place.Placed?
    ensures place.Placed? ==>
      place.top.raw == Max(s) > 0.0 && Best(s, k).Some? && Best(s, k).value.raw == place.row.raw
  {
    MaxIsMax(s);
    BestIsHighest(s, k);
    SurfacedIff(s, k);
  }

  lemma ContributionByShare(w: Weighted, k: Key, place: Place)
    requires PlaceIs(w.signal, k, place)
    ensures Contribution(w, k) == w.weight * Share(place)
  {
    PlaceOfBest(w.signal, k, place);
  }

  // All signals --------------------------------------------------------------

  function ContributionTo(k: Key): Weighted -> real { w => Contribution(w, k) }

  function Total(ws: seq<Weighted>, k: Key): real { Fold(ws, ContributionTo(k), RealPlus, 0.0) }

  function SurfacedBy(w: Weighted): set<Key> { Surfaced(w.signal) }

  function Union(a: set<Key>, b: set<Key>): set<Key> { a + b }

  function Candidates(ws: seq<Weighted>): set<Key> { Fold(ws, SurfacedBy, Union, {}) }

  lemma UnionExchanges()
    ensures Exchanges(Union)
  {
    forall a, b, c ensures Union(Union(a, b), c) == Union(Union(a, c), b) { assert a + b + c == a + c + b; }
  }

  /** The fused scores do not depend on the order in which signals are folded in. */
  lemma TotalIgnoresSignalOrder(ws: seq<Weighted>, vs: seq<Weighted>, k: Key)
    requires multiset(ws) == multiset(vs)
    ensures Total(ws, k) == Total(vs, k) && Candidates(ws) == Candidates(vs)
  {
    UnionExchanges();
    FoldPermuted(ws, vs, ContributionTo(k), RealPlus, 0.0);
    FoldPermuted(ws, vs, SurfacedBy, Union, {});
  }

  /** Signals that hold the same rows give the same scores and the same candidates. */
  lemma {:induction false} TotalIgnoresRowOrder(ws: seq<Weighted>, vs: seq<Weighted>, k: Key)
    requires SameRows(ws, vs)
    ensures Total(ws, k) == Total(vs, k) && Candidates(ws) == Candidates(vs)
  {
    if ws != [] {
      var n := |ws| - 1;
      ContributionIgnoresRowOrder(ws[n].signal, vs[n].signal, ws[n].weight, k);
      TotalIgnoresRowOrder(ws[..n], vs[..n], k);
    }
  }

  ghost predicate SameRows(ws: seq<Weighted>, vs: seq<Weighted>) {
    && |ws| == |vs|
    && forall i | 0 <= i < |ws| ::
         ws[i].weight == vs[i].weight && forall row :: row in ws[i].signal <==> row in vs[i].signal
  }

  // The fold -----------------------------------------------------------------

  function ScoreIn(acc: Fused, k: Key): real { if k in acc then acc[k].raw else 0.0 }

  function Filled(kept: Source, url: Option<string>): Source {
    if kept.url.None? then kept.(url := url) else kept
  }

  /** What folding `w` into `acc` leaves at a key: the contribution added, and the citation
      already kept (its missing URL filled in) or else the signal's best row. */
  function Outcome(acc: Fused, w: Weighted, k: Key): Row
    requires k in acc || Best(w.signal, k).Some?
  {
    Row(ScoreIn(acc, k) + Contribution(w, k),
        if k !in acc then Best(w.signal, k).value.source
        else if k in Surfaced(w.signal) && Best(w.signal, k).Some?
        then Filled(acc[k].source, Best(w.signal, k).value.source.url)
        else acc[k].source)
  }

  function KeySeq(s: Signal): (r: seq<Key>)
    ensures |r| == |s| && forall i | 0 <= i < |s| :: r[i] == KeyOf(s[i].source)
  {
    seq(|s|, i requires 0 <= i < |s| => KeyOf(s[i].source))
  }

  lemma KeySeqMembers(s: Signal)
    ensures forall k :: k in KeySeq(s) <==> k in KeysOf(s)
  {
    forall k | k in KeySeq(s)
      ensures k in KeysOf(s)
    {
      var i :| 0 <= i < |s| && KeySeq(s)[i] == k;
      assert s[i] in s;
    }
    forall k | k in KeysOf(s)
      ensures k in KeySeq(s)
    {
      var row :| row in s && KeyOf(row.source) == k;
      var i :| 0 <= i < |s| && s[i] == row;
      assert KeySeq(s)[i] == k;
    }
  }

  lemma KeySeqSnoc(s: Signal, i: nat)
    requires i < |s|
    ensures FirstSeen(KeySeq(s[..i + 1])) ==
      if KeyOf(s[i].source) in KeysOf(s[..i]) then FirstSeen(KeySeq(s[..i]))
      else FirstSeen(KeySeq(s[..i])) + [KeyOf(s[i].source)]
  {
    var keys := KeySeq(s[..i + 1]);
    assert keys[..i] == KeySeq(s[..i]) && keys[i] == KeyOf(s[i].source);
    KeySeqMembers(s[..i]);
    FirstSeenSnoc(keys, i);
    assert keys[..i + 1] == keys;
  }

  ghost predicate Collapsed(s: Signal, best: Fused) {
    best.Keys == KeysOf(s) && forall k :: Best(s, k) == if k in best then Some(best[k]) else None
  }

  lemma CollapsedSnoc(s: Signal, row: Row, best: Fused)
    requires Collapsed(s, best)
    ensures var key := KeyOf(row.source);
      Collapsed(s + [row], if key in best && row.raw <= best[key].raw then best else best[key := row])
  {
    var t := s + [row];
    assert t[..|s|] == s;
    assert KeysOf(t) == KeysOf(s) + {KeyOf(row.source)};
  }

  /** Collapse duplicate keys within the signal, keeping first-seen order. */
  method Collapse(s: Signal) returns (best: Fused, order: seq<Key>)
    ensures best.Keys == KeysOf(s) && order == FirstSeen(KeySeq(s))
    ensures forall k | k in best :: Best(s, k) == Some(best[k])
  {
    best, order := map[], [];
    for i := 0 to |s|
      invariant Collapsed(s[..i], best) && order == FirstSeen(KeySeq(s[..i]))
    {
      var row := s[i];
      var key := KeyOf(row.source);
      assert s[..i + 1] == s[..i] + [row];
      CollapsedSnoc(s[..i], row, best);
      KeySeqSnoc(s, i);
      if key in best {
        if row.raw > best[key].raw { best := best[key := row]; }
      } else {
        order := order + [key];
        best := best[key := row];
      }
    }
    assert s[..|s|] == s;
  }

  /** The accumulator once the keys in `done` have been folded in. */
  ghost predicate Midway(acc0: Fused, w: Weighted, done: set<Key>, acc: Fused)
    requires forall k | k in done :: Best(w.signal, k).Some?
  {
    && acc.Keys == acc0.Keys + done
    && forall k | k in acc :: acc[k] == if k in done then Outcome(acc0, w, k) else acc0[k]
  }

  function Folded(acc: Fused, key: Key, row: Row, contrib: real): Row {
    if key in acc then Row(acc[key].raw + contrib, Filled(acc[key].source, row.source.url))
    else Row(contrib, row.source)
  }

  lemma MidwayStep(acc0: Fused, w: Weighted, done: set<Key>, acc: Fused, key: Key, row: Row)
    requires Max(w.signal) > 0.0 && (forall k | k in done :: Best(w.signal, k).Some?)
    requires Midway(acc0, w, done, acc) && key !in done
    requires key in KeysOf(w.signal) && Best(w.signal, key) == Some(row)
    ensures Midway(acc0, w, done + {key}, acc[key := Folded(acc, key, row, Scaled(w.weight, row.raw, Max(w.signal)))])
  {
  }

  lemma MidwayDone(acc0: Fused, w: Weighted, acc: Fused)
    requires Max(w.signal) > 0.0 && (forall k | k in KeysOf(w.signal) :: Best(w.signal, k).Some?)
    requires Midway(acc0, w, KeysOf(w.signal), acc)
    ensures forall k | k in acc :: (k in acc0 || Best(w.signal, k).Some?) && acc[k] == Outcome(acc0, w, k)
  {
  }

  method FoldRow(acc0: Fused, order0: seq<Key>, key: Key, row: Row, contrib: real)
    returns (acc: Fused, order: seq<Key>)
    requires Lists(order0, acc0.Keys)
    ensures acc == acc0[key := Folded(acc0, key, row, contrib)] && Lists(order, acc.Keys)
    ensures order == if key in acc0 then order0 else order0 + [key]
  {
    order := order0;
    if key in acc0 {
      var kept := acc0[key].source;
      if kept.url.None? && row.source.url.Some? { kept := kept.(url := row.source.url); }
      acc := acc0[key := Row(acc0[key].raw + contrib, kept)];
      assert acc.Keys == acc0.Keys;
    } else {
      ListsSnoc(order, acc0.Keys, key);
      order := order + [key];
      acc := acc0[key := Row(contrib, row.source)];
      assert acc.Keys == acc0.Keys + {key};
    }
  }

  method FuseSignal(acc0: Fused, order0: seq<Key>, w: Weighted) returns (acc: Fused, order: seq<Key>)
    requires Lists(order0, acc0.Keys)
    ensures Lists(order, acc.Keys)
    ensures acc.Keys == acc0.Keys + Surfaced(w.signal)
    ensures forall k | k in acc ::
      (k in acc0 || Best(w.signal, k).Some?) && acc[k] == Outcome(acc0, w, k)
  {
    acc, order := acc0, order0;
    var max := Max(w.signal);
    if max <= 0.0 { return; }
    var best, signalOrder := Collapse(w.signal);
    KeySeqMembers(w.signal);
    ghost var done: set<Key> := {};
    for i := 0 to |signalOrder|
      invariant done <= best.Keys && Lists(signalOrder[..i], done)
      invariant Lists(order, acc.Keys) && Midway(acc0, w, done, acc)
    {
      var key := signalOrder[i];
      assert key in signalOrder;
      PrefixGrows(signalOrder, i, done);
      var row := best[key];
      MidwayStep(acc0, w, done, acc, key, row);
      acc, order := FoldRow(acc, order, key, row, Scaled(w.weight, row.raw, max));
      done := done + {key};
    }
    assert signalOrder[..|signalOrder|] == signalOrder;
    assert done == KeysOf(w.signal);
    MidwayDone(acc0, w, acc);
  }
}
