/** Memory snapshots: the newest-loadable walk, pruning, the file-name order, and restoring a
    store only when it is confirmed empty.

    A directory maps file names to contents; a content that does not load is None. Directory
    listings come in any order. */
module Snapshots {
  import opened Text
  import opened Sequences
  import opened Sorting

  datatype Item = Fact(text: string) | Procedure(name: string)

  datatype Snapshot = Snapshot(facts: seq<string>, procedures: seq<string>)

  type Directory = map<string, Option<Snapshot>>

  /** A nonempty stem followed by the `json` extension. */
  predicate IsSnapshotName(name: string) { |name| > 5 && name[|name| - 5..] == ".json" }

  function SnapshotsIn(names: set<string>): set<string> { set n | n in names && IsSnapshotName(n) }

  function SnapshotNames(dir: Directory): set<string> { SnapshotsIn(dir.Keys) }

  predicate Loadable(dir: Directory, n: string) { n in SnapshotNames(dir) && dir[n].Some? }

  // The newest loadable snapshot ---------------------------------------------

  /** `latest` names the loadable snapshot with the greatest name, or there is none. */
  ghost predicate LatestIs(dir: Directory, latest: Option<string>) {
    match latest
    case None => forall n :: !Loadable(dir, n)
    case Some(n) => Loadable(dir, n) && forall m | Loadable(dir, m) && m != n :: Less(m, n)
  }

  lemma LatestIsUnique(dir: Directory, a: Option<string>, b: Option<string>)
    requires LatestIs(dir, a) && LatestIs(dir, b)
    ensures a == b
  {
    if a.Some? && b.Some? && a != b { LessTotal(a.value, b.value); }
  }

  lemma LessIsStrictWeak()
    ensures StrictWeakOrder(Less)
  {
    forall a, b | Less(a, b) ensures !Less(b, a) { LessTotal(a, b); }
    forall a, b, c | !Less(b, a) && !Less(c, b) ensures !Less(c, a) {
      LessTotal(a, b);
      LessTotal(b, c);
      if Less(a, b) && Less(b, c) { LessTransitive(a, b, c); }
      LessTotal(a, c);
    }
  }

  /** A listing of distinct names, sorted, ascends strictly. */
  lemma SortedListing(names: seq<string>, xs: set<string>)
    requires Lists(names, xs)
    ensures Lists(Sort(names, Less), xs)
    ensures forall i, j | 0 <= i < j < |names| :: Less(Sort(names, Less)[i], Sort(names, Less)[j])
  {
    LessIsStrictWeak();
    SortSorted(names, Less);
    SortMembers(names, Less);
    var s := Sort(names, Less);
    SortDistinct(names, Less);
    forall i, j | 0 <= i < j < |s| ensures Less(s[i], s[j]) { LessTotal(s[i], s[j]); }
  }

  /** Keep the snapshot files of a listing. */
  method KeepSnapshotNames(listing: seq<string>, ghost dir: Directory) returns (names: seq<string>)
    requires Lists(listing, dir.Keys)
    ensures Lists(names, SnapshotNames(dir))
  {
    names := [];
    ghost var done: set<string> := {};
    for i := 0 to |listing|
      invariant Lists(listing[..i], done) && done <= dir.Keys
      invariant Lists(names, SnapshotsIn(done))
    {
      PrefixGrows(listing, i, done);
      assert listing[i] in listing;
      if IsSnapshotName(listing[i]) {
        ListsSnoc(names, SnapshotsIn(done), listing[i]);
        assert SnapshotsIn(done) + {listing[i]} == SnapshotsIn(done + {listing[i]});
        names := names + [listing[i]];
      } else {
        assert SnapshotsIn(done) == SnapshotsIn(done + {listing[i]});
      }
      done := done + {listing[i]};
    }
    assert listing[..|listing|] == listing;
    assert done == dir.Keys;
  }

  /** The walk from the newest name down returns the newest snapshot that loads; an unreadable
      directory gives nothing. */
  method LoadLatestSnapshot(dir: Directory, listing: Option<seq<string>>)
    returns (snapshot: Option<Snapshot>, ghost latest: Option<string>)
    requires listing.Some? ==> Lists(listing.value, dir.Keys)
    ensures listing.None? ==> latest.None?
    ensures listing.Some? ==> LatestIs(dir, latest)
    ensures snapshot == ContentOf(dir, latest)
  {
    latest := None;
    if listing.None? { return None, None; }
    var names := KeepSnapshotNames(listing.value, dir);
    var sorted := Sort(names, Less);
    SortedListing(names, SnapshotNames(dir));
    var i := |sorted|;
    while i > 0
      invariant 0 <= i <= |sorted|
      invariant forall j | i <= j < |sorted| :: !Loadable(dir, sorted[j])
    {
      i := i - 1;
      assert sorted[i] in sorted;
      if dir[sorted[i]].Some? {
        latest := Some(sorted[i]);
        FirstLoadableIsLatest(dir, sorted, i);
        return dir[sorted[i]], latest;
      }
    }
    snapshot := None;
    NoneLoadable(dir, sorted);
  }

  lemma FirstLoadableIsLatest(dir: Directory, sorted: seq<string>, i: nat)
    requires Lists(sorted, SnapshotNames(dir)) && i < |sorted| && Loadable(dir, sorted[i])
    requires forall a, b | 0 <= a < b < |sorted| :: Less(sorted[a], sorted[b])
    requires forall j | i < j < |sorted| :: !Loadable(dir, sorted[j])
    ensures LatestIs(dir, Some(sorted[i]))
  {
    forall m | Loadable(dir, m) && m != sorted[i]
      ensures Less(m, sorted[i])
    {
      var j :| 0 <= j < |sorted| && sorted[j] == m;
    }
  }

  lemma NoneLoadable(dir: Directory, sorted: seq<string>)
    requires Lists(sorted, SnapshotNames(dir)) && forall j | 0 <= j < |sorted| :: !Loadable(dir, sorted[j])
    ensures LatestIs(dir, None)
  {
    forall n ensures !Loadable(dir, n) {
      if n in SnapshotNames(dir) { assert n in sorted; }
    }
  }

  // Pruning ------------------------------------------------------------------

  function NewerThan(dir: Directory, n: string): set<string> { set m | m in SnapshotNames(dir) && Less(n, m) }

  /** The snapshot names with at least `keep` newer ones. */
  function Oldest(dir: Directory, keep: nat): set<string> {
    set n | n in SnapshotNames(dir) && |NewerThan(dir, n)| >= keep
  }

  lemma NewerCount(dir: Directory, sorted: seq<string>, i: nat)
    requires Lists(sorted, SnapshotNames(dir)) && i < |sorted|
    requires forall a, b | 0 <= a < b < |sorted| :: Less(sorted[a], sorted[b])
    ensures |NewerThan(dir, sorted[i])| == |sorted| - 1 - i
  {
    var above := sorted[i + 1..];
    assert forall j | 0 <= j < |above| :: above[j] == sorted[i + 1 + j];
    forall n ensures n in above <==> n in NewerThan(dir, sorted[i]) {
      if n in above {
        var j :| 0 <= j < |above| && above[j] == n;
        assert n in sorted;
      }
      if n in NewerThan(dir, sorted[i]) {
        var j :| 0 <= j < |sorted| && sorted[j] == n;
        LessTotal(sorted[i], n);
        assert j > i;
        assert above[j - i - 1] == n;
      }
    }
    ListedCount(above, NewerThan(dir, sorted[i]));
  }

  /** Pruning deletes exactly the snapshot files with at least `keep` newer ones, except those
      whose deletion fails. */
  method PruneSnapshots(dir: Directory, listing: seq<string>, keep: nat, stuck: set<string>) returns (left: Directory)
    requires Lists(listing, dir.Keys)
    ensures left == dir - (Oldest(dir, keep) - stuck)
  {
    var names := KeepSnapshotNames(listing, dir);
    SortedListing(names, SnapshotNames(dir));
    left := dir;
    var sorted := Sort(names, Less);
    ghost var gone: set<string> := {};
    var toRemove := if |sorted| <= keep then 0 else |sorted| - keep;
    for i := 0 to toRemove
      invariant Lists(sorted[..i], gone)
      invariant left == dir - (gone - stuck)
    {
      PrefixGrows(sorted, i, gone);
      gone := gone + {sorted[i]};
      if sorted[i] !in stuck { left := left - {sorted[i]}; }
    }
    assert gone == Oldest(dir, keep) by { PrunedAreOldest(dir, sorted, keep, gone, toRemove); }
  }

  lemma PrunedAreOldest(dir: Directory, sorted: seq<string>, keep: nat, gone: set<string>, k: nat)
    requires Lists(sorted, SnapshotNames(dir))
    requires forall a, b | 0 <= a < b < |sorted| :: Less(sorted[a], sorted[b])
    requires k == (if |sorted| <= keep then 0 else |sorted| - keep) && Lists(sorted[..k], gone)
    ensures gone == Oldest(dir, keep)
  {
    forall n ensures n in gone <==> n in Oldest(dir, keep) {
      if n in SnapshotNames(dir) {
        var i :| 0 <= i < |sorted| && sorted[i] == n;
        NewerCount(dir, sorted, i);
        assert i < k ==> sorted[..k][i] == n;
        if n in sorted[..k] {
          var j :| 0 <= j < k && sorted[..k][j] == n;
          assert sorted[j] == n;
        }
      } else if n in sorted[..k] {
        assert n in sorted;
      }
    }
  }

  /** Anything older than a pruned name is pruned too. */
  lemma OldestIsDownwardClosed(dir: Directory, keep: nat, m: string, n: string)
    requires n in Oldest(dir, keep) && m in SnapshotNames(dir) && Less(m, n)
    ensures m in Oldest(dir, keep)
  {
    var a, b := NewerThan(dir, n), NewerThan(dir, m);
    forall x | x in a ensures x in b { LessTransitive(m, n, x); }
    assert b == a + (b - a);
  }

  /** Whatever subset of the pruned files is really deleted, the snapshot that loads stays the
      same, exactly when one of the `keep` newest files loads or none does. */
  lemma PruneKeepsLatestIff(dir: Directory, keep: nat, latest: Option<string>)
    requires LatestIs(dir, latest)
    ensures (forall gone | gone <= Oldest(dir, keep) :: LatestIs(dir - gone, latest)) <==>
      (latest.None? || exists n :: Loadable(dir, n) && n !in Oldest(dir, keep))
  {
    var prunable := Oldest(dir, keep);
    if n :| Loadable(dir, n) && n !in prunable {
      if n != latest.value && latest.value in prunable { OldestIsDownwardClosed(dir, keep, n, latest.value); }
      assert latest.value !in prunable;
    }
    if latest.None? || latest.value !in prunable {
      forall gone | gone <= prunable ensures LatestIs(dir - gone, latest) {
        assert forall m :: Loadable(dir - gone, m) <==> Loadable(dir, m) && m !in gone;
      }
    } else {
      assert !LatestIs(dir - prunable, latest);
    }
  }

  /** Keeping one file when the newest does not load: the only snapshot that loads is lost. */
  lemma PruneCanLoseLatest(older: string, newer: string, snapshot: Snapshot)
    requires IsSnapshotName(older) && IsSnapshotName(newer) && Less(older, newer)
    ensures var dir: Directory := map[older := Some(snapshot), newer := None];
      LatestIs(dir, Some(older)) && LatestIs(dir - Oldest(dir, 1), None)
  {
    var dir: Directory := map[older := Some(snapshot), newer := None];
    LessTotal(older, newer);
    assert NewerThan(dir, older) == {newer};
  }

  // File names ---------------------------------------------------------------

  function Digit(d: nat): char
    requires d < 10
  {
    (48 + d) as char
  }

  function Decimal(n: nat): (s: string)
    ensures s != ""
  {
    if n < 10 then [Digit(n)] else Decimal(n / 10) + [Digit(n % 10)]
  }

  /** The number left when the last `k` decimal digits are dropped. */
  function Leading(n: nat, k: nat): nat { if k == 0 then n else Leading(n / 10, k - 1) }

  function FileName(agent: string, epoch: nat): string { agent + "-" + Decimal(epoch) + ".json" }

  lemma {:induction false} DecimalLength(m: nat, n: nat)
    requires m <= n
    ensures |Decimal(m)| <= |Decimal(n)|
    decreases n
  {
    if m >= 10 { DecimalLength(m / 10, n / 10); }
  }

  lemma DigitOrder(a: nat, b: nat, x: string, y: string)
    requires a < b < 10
    ensures Less([Digit(a)] + x, [Digit(b)] + y)
  {
  }

  lemma DecimalSplit(m: nat, x: string)
    requires m >= 10
    ensures Decimal(m) + x == Decimal(m / 10) + ([Digit(m % 10)] + x)
  {
  }

  /** Numbers of equal digit count compare as their texts do, whatever follows. */
  lemma {:induction false} DecimalOrder(m: nat, n: nat, x: string, y: string)
    requires m < n && |Decimal(m)| == |Decimal(n)|
    ensures Less(Decimal(m) + x, Decimal(n) + y)
    decreases n
  {
    if n < 10 {
      DigitOrder(m, n, x, y);
    } else {
      assert |Decimal(n)| == |Decimal(n / 10)| + 1 >= 2;
      assert m >= 10;
      var dm, dn := [Digit(m % 10)] + x, [Digit(n % 10)] + y;
      DecimalSplit(m, x);
      DecimalSplit(n, y);
      if m / 10 < n / 10 {
        DecimalOrder(m / 10, n / 10, dm, dn);
      } else {
        DigitOrder(m % 10, n % 10, x, y);
        LessPrefix(Decimal(m / 10), dm, dn);
      }
    }
  }

  lemma {:induction false} DecimalFront(n: nat, k: nat) returns (low: string)
    requires k < |Decimal(n)|
    ensures Decimal(n) == Decimal(Leading(n, k)) + low && |low| == k
    ensures forall i | 0 <= i < k :: low[i] >= '0'
    decreases k
  {
    if k == 0 {
      low := "";
    } else {
      assert n >= 10;
      var front := DecimalFront(n / 10, k - 1);
      low := front + [Digit(n % 10)];
      assert Decimal(Leading(n, k)) + front + [Digit(n % 10)] == Decimal(Leading(n, k)) + low;
    }
  }

  /** Comparing a number's text with the text of a leading part extended by more digits. */
  lemma NumberOrderIff(m: nat, p: nat, low: string)
    requires |Decimal(m)| == |Decimal(p)| && (low == "" ==> m != p)
    requires forall i | 0 <= i < |low| :: low[i] >= '0'
    ensures Less(Decimal(m) + ".json", Decimal(p) + (low + ".json")) <==> m <= p
  {
    var rest := low + ".json";
    if m < p {
      DecimalOrder(m, p, ".json", rest);
    } else if m == p {
      LessPrefix(Decimal(m), ".json", rest);
      assert rest[0] == low[0];
    } else {
      DecimalOrder(p, m, rest, ".json");
      LessTotal(Decimal(m) + ".json", Decimal(p) + rest);
    }
  }

  lemma NameParts(agent: string, epoch: nat)
    ensures FileName(agent, epoch) == (agent + "-") + (Decimal(epoch) + ".json")
  {
  }

  /** For one agent, an earlier epoch's file sorts first exactly when the epoch is at most the
      leading digits of the later one. */
  lemma NameOrderIff(agent: string, m: nat, n: nat)
    requires m < n
    ensures |Decimal(m)| <= |Decimal(n)|
    ensures Less(FileName(agent, m), FileName(agent, n)) <==> m <= Leading(n, |Decimal(n)| - |Decimal(m)|)
  {
    DecimalLength(m, n);
    var k := |Decimal(n)| - |Decimal(m)|;
    var low := DecimalFront(n, k);
    var p := Leading(n, k);
    var a, b := Decimal(m) + ".json", Decimal(n) + ".json";
    NameParts(agent, m);
    NameParts(agent, n);
    LessPrefix(agent + "-", a, b);
    assert b == Decimal(p) + (low + ".json");
    NumberOrderIff(m, p, low);
  }

  /** With equal digit counts, file-name order is epoch order. */
  lemma EqualDigitsOrder(agent: string, m: nat, n: nat)
    requires |Decimal(m)| == |Decimal(n)|
    ensures m < n <==> Less(FileName(agent, m), FileName(agent, n))
  {
    LessTotal(FileName(agent, m), FileName(agent, n));
    if m < n { NameOrderIff(agent, m, n); }
    if n < m { NameOrderIff(agent, n, m); }
  }

  /** The file of second 10 sorts before the file of second 9. */
  lemma NameOrderCanInvert(agent: string)
    ensures Less(FileName(agent, 10), FileName(agent, 9))
  {
    var m, n := 9, 10;
    NameOrderIff(agent, m, n);
    assert |Decimal(n)| == 2 && |Decimal(m)| == 1;
    assert Leading(n, 1) == 1;
    LessTotal(FileName(agent, m), FileName(agent, n));
    assert |FileName(agent, m)| != |FileName(agent, n)|;
  }

  // Restoring ----------------------------------------------------------------

  function Items(s: Snapshot): seq<Item> {
    seq(|s.facts|, i requires 0 <= i < |s.facts| => Fact(s.facts[i]))
    + seq(|s.procedures|, i requires 0 <= i < |s.procedures| => Procedure(s.procedures[i]))
  }

  datatype Outcome = ProbeFailed | Skipped | Restored(count: nat) | ImportFailed

  /** The store after an attempt, `room` being how many writes succeed before one fails. */
  function AfterRestore(items: seq<Item>, readable: bool, snapshot: Option<Snapshot>, room: nat): seq<Item> {
    if !readable || items != [] || snapshot.None? then items
    else if room < |Items(snapshot.value)| then Items(snapshot.value)[..room] else Items(snapshot.value)
  }

  function OutcomeOf(items: seq<Item>, readable: bool, snapshot: Option<Snapshot>, room: nat): Outcome {
    if !readable then ProbeFailed
    else if items != [] || snapshot.None? then Skipped
    else if room < |Items(snapshot.value)| then ImportFailed
    else Restored(|Items(snapshot.value)|)
  }

  function ContentOf(dir: Directory, name: Option<string>): Option<Snapshot> {
    if name.Some? && name.value in dir then dir[name.value] else None
  }

  class MemoryStore {
    var items: seq<Item>

    constructor ()
      ensures items == []
    {
      items := [];
    }

    method Store(item: Item, room: nat) returns (ok: bool)
      modifies this
      ensures ok == (room > 0)
      ensures items == if ok then old(items) + [item] else old(items)
    {
      ok := room > 0;
      if ok { items := items + [item]; }
    }

    method ImportSnapshot(s: Snapshot, room: nat) returns (outcome: Outcome)
      modifies this
      ensures items == old(items) + Items(s)[..if room < |Items(s)| then room else |Items(s)|]
      ensures outcome == if room < |Items(s)| then ImportFailed else Restored(|s.facts| + |s.procedures|)
      ensures forall i | 0 <= i < |s.facts| && i < room :: items[|old(items)| + i] == Fact(s.facts[i])
      ensures forall i | 0 <= i < |s.procedures| && |s.facts| + i < room ::
        items[|old(items)| + |s.facts| + i] == Procedure(s.procedures[i])
    {
      var all := Items(s);
      for i := 0 to |s.facts|
        invariant items == old(items) + all[..i] && i <= room
      {
        assert all[..i + 1] == all[..i] + [Fact(s.facts[i])];
        var ok := Store(Fact(s.facts[i]), room - i);
        if !ok { return ImportFailed; }
      }
      for i := 0 to |s.procedures|
        invariant items == old(items) + all[..|s.facts| + i] && |s.facts| + i <= room
      {
        assert all[..|s.facts| + i + 1] == all[..|s.facts| + i] + [Procedure(s.procedures[i])];
        var ok := Store(Procedure(s.procedures[i]), room - |s.facts| - i);
        if !ok { return ImportFailed; }
      }
      outcome := Restored(|s.facts| + |s.procedures|);
    }

    /** The guarded restore: nothing is written unless the store was read and is empty, and then
        the newest snapshot that loads is imported. */
    method AutoRestoreLatestIfEmpty(readable: bool, dir: Directory, listing: Option<seq<string>>, room: nat)
      returns (outcome: Outcome, ghost latest: Option<string>)
      requires listing.Some? ==> Lists(listing.value, dir.Keys)
      modifies this
      ensures readable && old(items) == [] && listing.Some? ==> LatestIs(dir, latest)
      ensures readable && old(items) == [] && listing.None? ==> latest.None?
      ensures items == AfterRestore(old(items), readable, ContentOf(dir, latest), room)
      ensures outcome == OutcomeOf(old(items), readable, ContentOf(dir, latest), room)
      ensures forall n | readable && old(items) == [] && listing.Some? && LatestIs(dir, Some(n)) ::
        var all := Items(dir[n].value);
        if room >= |all| then items == all && outcome == Restored(|all|) else items == all[..room]
    {
      latest := None;
      if !readable { return ProbeFailed, None; }
      if items != [] { return Skipped, None; }
      var loaded;
      loaded, latest := LoadLatestSnapshot(dir, listing);
      forall n | listing.Some? && LatestIs(dir, Some(n)) ensures latest == Some(n) {
        LatestIsUnique(dir, latest, Some(n));
      }
      if loaded.None? { return Skipped, latest; }
      outcome := ImportSnapshot(loaded.value, room);
    }
  }

  // Runs of startups -----------------------------------------------------------

  /** What the store holds, with where it came from. */
  datatype Held = Imported(snapshot: Snapshot, index: nat) | Own(item: Item)

  datatype Event =
    | Startup(readable: bool, snapshot: Option<Snapshot>, room: nat) // a restore attempt
    | Session(added: seq<Item>)                                      // ordinary writes
    | Reset                                                          // the store is re-created empty

  function ImportedFront(s: Snapshot, k: nat): (r: seq<Held>)
    ensures |r| == k
  {
    seq(k, i requires 0 <= i < k => Imported(s, i))
  }

  function Owned(items: seq<Item>): (r: seq<Held>)
    ensures |r| == |items|
  {
    seq(|items|, i requires 0 <= i < |items| => Own(items[i]))
  }

  function Next(held: seq<Held>, e: Event): seq<Held> {
    match e
    case Startup(readable, snapshot, room) =>
      if !readable || held != [] || snapshot.None? then held
      else ImportedFront(snapshot.value, if room < |Items(snapshot.value)| then room else |Items(snapshot.value)|)
    case Session(added) => held + Owned(added)
    case Reset => []
  }

  function HeldAfter(run: seq<Event>): seq<Held> {
    if run == [] then [] else Next(HeldAfter(run[..|run| - 1]), run[|run| - 1])
  }

  function ItemOf(h: Held): Item {
    match h
    case Imported(s, i) => if i < |Items(s)| then Items(s)[i] else Fact("")
    case Own(item) => item
  }

  function ItemsOf(held: seq<Held>): seq<Item> {
    seq(|held|, i requires 0 <= i < |held| => ItemOf(held[i]))
  }

  /** A front of one snapshot, then the session's own items. */
  ghost predicate OneFront(held: seq<Held>, s: Snapshot, k: nat, own: seq<Item>) {
    k <= |Items(s)| && held == ImportedFront(s, k) + Owned(own)
  }

  /** The provenance machine is the store itself: each event changes the items as the guarded
      restore and the session writes do. */
  lemma StartupIsRestore(held: seq<Held>, readable: bool, snapshot: Option<Snapshot>, room: nat)
    ensures ItemsOf(Next(held, Startup(readable, snapshot, room))) ==
      AfterRestore(ItemsOf(held), readable, snapshot, room)
  {
    assert held == [] <==> ItemsOf(held) == [];
  }

  /** Over any run of startups, probe failures, broken imports, sessions and resets, the store
      holds a front of at most one snapshot, each item once, and nothing was imported over
      what was there. */
  lemma {:induction false} AtMostOneSnapshot(run: seq<Event>) returns (s: Snapshot, k: nat, own: seq<Item>)
    ensures OneFront(HeldAfter(run), s, k, own)
  {
    s, k, own := Snapshot([], []), 0, [];
    if run != [] {
      var n := |run| - 1;
      s, k, own := AtMostOneSnapshot(run[..n]);
      var before := HeldAfter(run[..n]);
      match run[n] {
        case Startup(readable, snapshot, room) =>
          if readable && before == [] && snapshot.Some? {
            s, own := snapshot.value, [];
            k := if room < |Items(s)| then room else |Items(s)|;
            assert ImportedFront(s, k) + Owned(own) == ImportedFront(s, k);
          }
        case Session(added) =>
          assert Owned(own) + Owned(added) == Owned(own + added);
          own := own + added;
        case Reset =>
          k, own := 0, [];
      }
    }
  }

  /** A startup that can read the store, load a snapshot with something in it and write at least
      one item leaves a nonempty store, and until a reset every later store starts with what is
      there. */
  lemma {:induction false} StartupFillsStore(run: seq<Event>, e: Event, more: seq<Event>)
    requires e.Startup? && e.readable && e.snapshot.Some? && Items(e.snapshot.value) != [] && e.room > 0
    requires Reset !in more
    ensures HeldAfter(run + [e]) != [] && HeldAfter(run + [e]) <= HeldAfter(run + [e] + more)
    ensures HeldAfter(run) == [] && e.room >= |Items(e.snapshot.value)| ==>
      ItemsOf(HeldAfter(run + [e])) == Items(e.snapshot.value)
  {
    assert (run + [e])[..|run|] == run;
    if more == [] {
      assert run + [e] + more == run + [e];
      StartupIsRestore(HeldAfter(run), true, e.snapshot, e.room);
      assert HeldAfter(run) == [] ==> ItemsOf(HeldAfter(run)) == [];
    } else {
      var n := |more| - 1;
      StartupFillsStore(run, e, more[..n]);
      assert (run + [e] + more)[..|run + [e] + more| - 1] == run + [e] + more[..n];
      assert more[n] in more;
    }
  }
}
