/** Identity-scoped curated collections: named lists of `{key, note}` items, each in its own
    file, saved through a temporary file and an atomic rename, and seeded once.

    `Codec` is the TOML serializer; it must parse back what it prints. A crash can happen
    before, during or after the temporary write; an I/O error at the same point leaves the
    same files. */
module CuratedState {
  import opened Text
  import opened Sequences

  datatype Item = Item(key: string, note: string)

  datatype Collection = Collection(version: nat, items: seq<Item>)

  datatype Codec = Codec(show: Collection -> string, parse: string -> Option<Collection>)

  ghost predicate RoundTrips(c: Codec) { forall x :: c.parse(c.show(x)) == Some(x) }

  // Paths --------------------------------------------------------------------

  predicate IsNameChar(c: char) {
    'a' <= c <= 'z' || 'A' <= c <= 'Z' || '0' <= c <= '9' || c == '.' || c == '_' || c == '-'
  }

  predicate IsSimpleName(name: string) {
    && name != "" && name[0] != '-'
    && (forall i | 0 <= i < |name| :: IsNameChar(name[i]))
    && forall i | 0 <= i < |name| - 1 :: !(name[i] == '.' && name[i + 1] == '.')
  }

  /** A path below `<state_root>/identity-state`, as its components; `.` is no component. */
  type Path = seq<string>

  function Resolve(collection: string, identity: string): Option<Path> {
    if !IsSimpleName(identity) || !IsSimpleName(collection) then None
    else if identity == "." then Some([collection + ".toml"])
    else Some([identity, collection + ".toml"])
  }

  /** The sibling the body is written to first. */
  function TempOf(p: Path): Path
    requires p != []
  {
    p[..|p| - 1] + [p[|p| - 1] + ".tmp"]
  }

  /** A name of letters, digits, dots, underscores and hyphens, without a hyphen in front and
      without two dots in a row. */
  predicate IsPlainName(name: string) {
    && name != "" && !StartsWith(name, "-") && !Contains(name, "..")
    && forall c | c in name :: 'a' <= c <= 'z' || 'A' <= c <= 'Z' || '0' <= c <= '9' || c in "._-"
  }

  lemma HasTwoDots(name: string)
    ensures Contains(name, "..") <==> exists i :: 0 <= i < |name| - 1 && name[i] == '.' && name[i + 1] == '.'
  {
    forall i | 0 <= i < |name| - 1
      ensures At(name, "..", i) <==> name[i] == '.' && name[i + 1] == '.'
    {
      assert name[i..i + 2] == [name[i], name[i + 1]];
    }
    if Contains(name, "..") {
      var i :| 0 <= i <= |name| && At(name, "..", i);
      assert name[i] == '.' && name[i + 1] == '.';
    }
    if i :| 0 <= i < |name| - 1 && name[i] == '.' && name[i + 1] == '.' {
      assert At(name, "..", i);
    }
  }

  lemma SimpleIsPlain(name: string)
    ensures IsSimpleName(name) <==> IsPlainName(name)
  {
    HasTwoDots(name);
    if name != "" { assert name[..1] == [name[0]]; }
    assert forall c: char :: IsNameChar(c) <==> 'a' <= c <= 'z' || 'A' <= c <= 'Z' || '0' <= c <= '9' || c in "._-";
    assert forall i | 0 <= i < |name| :: name[i] in name;
    assert forall c | c in name :: exists i :: 0 <= i < |name| && name[i] == c;
  }

  /** Exactly plain names have a file, which lies in the identity's directory, the identity `.`
      being the tree itself. */
  lemma PlainNamesResolve(collection: string, identity: string)
    ensures Resolve(collection, identity).Some? <==> IsPlainName(collection) && IsPlainName(identity)
    ensures Resolve(collection, identity).Some? ==>
      Resolve(collection, identity).value == (if identity == "." then [] else [identity]) + [collection + ".toml"]
  {
    SimpleIsPlain(collection);
    SimpleIsPlain(identity);
  }

  ghost predicate IsMain(p: Path) { exists c, i :: Resolve(c, i) == Some(p) }

  /** A collection's file stays below its tree, distinct names get distinct files, and no
      temporary file is ever some collection's file. */
  lemma PathsNeverMeet(c1: string, i1: string, c2: string, i2: string)
    requires Resolve(c1, i1).Some? && Resolve(c2, i2).Some?
    ensures Resolve(c1, i1) == Resolve(c2, i2) <==> c1 == c2 && i1 == i2
    ensures TempOf(Resolve(c1, i1).value) != Resolve(c2, i2).value
    ensures forall part | part in Resolve(c1, i1).value :: part != "" && part != ".." && '/' !in part
  {
    var p, q := Resolve(c1, i1).value, Resolve(c2, i2).value;
    var f, g := c1 + ".toml", c2 + ".toml";
    assert p[|p| - 1] == f && q[|q| - 1] == g;
    assert f[..|c1|] == c1 && g[..|c2|] == c2;
    var t := TempOf(p);
    assert t[|t| - 1] == f + ".tmp";
    assert (f + ".tmp")[|f + ".tmp"| - 1] == 'p' && g[|g| - 1] == 'l';
    assert f[|f| - 1] == 'l';
    assert !IsSimpleName("..") by { assert ".."[0] == '.' && ".."[0 + 1] == '.'; }
  }

  // Files --------------------------------------------------------------------

  type Files = map<Path, string>

  datatype Loaded = Absent | Found(collection: Collection) | Corrupt

  function Load(c: Codec, fs: Files, p: Path): Loaded {
    if p !in fs then Absent else
    match c.parse(fs[p])
    case Some(x) => Found(x)
    case None => Corrupt
  }

  /** How far a save gets. */
  datatype Crash = Before | During(written: nat) | Unrenamed | Never

  /** Write the temporary file, then rename it over the collection's file. */
  function Saved(c: Codec, fs: Files, p: Path, x: Collection, crash: Crash): Files
    requires p != []
  {
    var body, tmp := c.show(x), TempOf(p);
    match crash
    case Before => fs
    case During(n) => fs[tmp := body[..if n < |body| then n else |body|]]
    case Unrenamed => fs[tmp := body]
    case Never => (fs[tmp := body] - {tmp})[p := body]
  }

  /** At every crash point a load of the collection sees all of the old or all of the new, and
      every other collection is untouched. */
  lemma SaveIsAtomic(c: Codec, fs: Files, p: Path, x: Collection, crash: Crash, q: Path)
    requires RoundTrips(c) && IsMain(p) && IsMain(q)
    ensures Load(c, Saved(c, fs, p, x, crash), q) ==
      if crash == Never && q == p then Found(x) else Load(c, fs, q)
  {
    var c1, i1 :| Resolve(c1, i1) == Some(p);
    var c2, i2 :| Resolve(c2, i2) == Some(q);
    PathsNeverMeet(c1, i1, c2, i2);
    assert c.parse(c.show(x)) == Some(x);
  }

  // Items --------------------------------------------------------------------

  function Keys(items: seq<Item>): seq<string> {
    if items == [] then [] else [items[0].key] + Keys(items[1..])
  }

  /** The note under a key: the first item that has it. */
  function Lookup(items: seq<Item>, key: string): Option<string> {
    if items == [] then None
    else if items[0].key == key then Some(items[0].note)
    else Lookup(items[1..], key)
  }

  function Upserted(items: seq<Item>, item: Item): seq<Item> {
    if items == [] then [item]
    else if items[0].key == item.key then [items[0].(note := item.note)] + items[1..]
    else [items[0]] + Upserted(items[1..], item)
  }

  function Without(items: seq<Item>, key: string): seq<Item> {
    if items == [] then []
    else if items[0].key == key then Without(items[1..], key)
    else [items[0]] + Without(items[1..], key)
  }

  function KeysWithout(keys: seq<string>, key: string): seq<string> {
    if keys == [] then []
    else if keys[0] == key then KeysWithout(keys[1..], key)
    else [keys[0]] + KeysWithout(keys[1..], key)
  }

  /** Adding is map update. */
  lemma {:induction false} AddRefinesMap(items: seq<Item>, item: Item, k: string)
    ensures Lookup(Upserted(items, item), k) == if k == item.key then Some(item.note) else Lookup(items, k)
  {
    if items != [] {
      var r := Upserted(items, item);
      if items[0].key == item.key {
        assert r[1..] == items[1..];
      } else {
        AddRefinesMap(items[1..], item, k);
        assert r[1..] == Upserted(items[1..], item);
      }
    }
  }

  /** An existing key keeps its place and a new one goes last. */
  lemma {:induction false} AddKeepsOrder(items: seq<Item>, item: Item)
    ensures Keys(Upserted(items, item)) == if item.key in Keys(items) then Keys(items) else Keys(items) + [item.key]
  {
    if items == [] {
      assert [item][1..] == [];
    } else {
      var r := Upserted(items, item);
      if items[0].key == item.key {
        assert r[1..] == items[1..];
      } else {
        AddKeepsOrder(items[1..], item);
        assert r[1..] == Upserted(items[1..], item);
      }
    }
  }

  /** Removing is map removal, and the other keys keep their order. */
  lemma {:induction false} RemoveRefinesMap(items: seq<Item>, key: string, k: string)
    ensures Lookup(Without(items, key), k) == if k == key then None else Lookup(items, k)
    ensures Keys(Without(items, key)) == KeysWithout(Keys(items), key)
  {
    if items != [] {
      RemoveRefinesMap(items[1..], key, k);
      assert Keys(items)[1..] == Keys(items[1..]);
      if items[0].key != key {
        assert Without(items, key)[1..] == Without(items[1..], key);
      }
    }
  }

  lemma {:induction false} KeysWithoutDistinct(keys: seq<string>, key: string)
    requires Distinct(keys)
    ensures Distinct(KeysWithout(keys, key))
    ensures forall k :: k in KeysWithout(keys, key) <==> k in keys && k != key
  {
    if keys != [] {
      assert keys == [keys[0]] + keys[1..];
      assert keys[0] !in keys[1..];
      KeysWithoutDistinct(keys[1..], key);
      if keys[0] != key {
        var r := KeysWithout(keys[1..], key);
        assert keys[0] !in r;
        assert forall i | 1 <= i < |[keys[0]] + r| :: ([keys[0]] + r)[i] in r;
      }
    }
  }

  lemma UniqueKeysKept(items: seq<Item>, item: Item, key: string)
    requires Distinct(Keys(items))
    ensures Distinct(Keys(Upserted(items, item))) && Distinct(Keys(Without(items, key)))
  {
    AddKeepsOrder(items, item);
    RemoveRefinesMap(items, key, key);
    KeysWithoutDistinct(Keys(items), key);
  }

  method Upsert(items: seq<Item>, item: Item) returns (r: seq<Item>)
    ensures r == Upserted(items, item)
  {
    for i := 0 to |items|
      invariant Upserted(items, item) == items[..i] + Upserted(items[i..], item)
    {
      UpsertedStep(items, item, i);
      if items[i].key == item.key {
        return items[i := items[i].(note := item.note)];
      }
    }
    r := items + [item];
    assert items[..|items|] == items && items[|items|..] == [];
  }

  lemma UpsertedStep(items: seq<Item>, item: Item, i: nat)
    requires i < |items|
    ensures items[..i] + Upserted(items[i..], item) ==
      if items[i].key == item.key then items[i := items[i].(note := item.note)]
      else items[..i + 1] + Upserted(items[i + 1..], item)
  {
    var rest := items[i + 1..];
    assert items[i..] == [items[i]] + rest;
    UpsertedCons(items[i], rest, item);
    if items[i].key == item.key {
      ReplacedAt(items, i, items[i].(note := item.note));
    } else {
      MovedOver(items[..i], items[i], Upserted(rest, item));
      assert items[..i] + [items[i]] == items[..i + 1];
    }
  }

  lemma ReplacedAt(items: seq<Item>, i: nat, x: Item)
    requires i < |items|
    ensures items[..i] + ([x] + items[i + 1..]) == items[i := x]
  {
  }

  lemma MovedOver(front: seq<Item>, x: Item, rest: seq<Item>)
    ensures front + ([x] + rest) == front + [x] + rest
  {
  }

  lemma UpsertedCons(first: Item, rest: seq<Item>, item: Item)
    ensures Upserted([first] + rest, item) ==
      if first.key == item.key then [first.(note := item.note)] + rest else [first] + Upserted(rest, item)
  {
    assert ([first] + rest)[1..] == rest;
  }

  method Retain(items: seq<Item>, key: string) returns (r: seq<Item>)
    ensures r == Without(items, key)
  {
    r := [];
    for i := 0 to |items|
      invariant Without(items, key) == r + Without(items[i..], key)
    {
      assert items[i..][0] == items[i] && items[i..][1..] == items[i + 1..];
      if items[i].key != key { r := r + [items[i]]; }
    }
  }

  // Operations ---------------------------------------------------------------

  datatype Op =
    | Add(item: Item)
    | Remove(key: string)
    | LoadOrSeed(seed: Option<Collection>) // None: the seed closure fails

  datatype Effect = Effect(files: Files, seedUsed: bool, result: Option<Collection>)

  function ItemsIn(l: Loaded): Collection { if l.Found? then l.collection else Collection(1, []) }

  /** One operation on the collection at `p`, its save stopping at `crash`. */
  function Perform(c: Codec, fs: Files, p: Path, op: Op, crash: Crash): Effect
    requires p != []
  {
    var now := Load(c, fs, p);
    if now.Corrupt? then Effect(fs, false, None) else
    match op
    case Add(item) => SaveEffect(c, fs, p, ItemsIn(now).(items := Upserted(ItemsIn(now).items, item)), crash, false)
    case Remove(key) => SaveEffect(c, fs, p, ItemsIn(now).(items := Without(ItemsIn(now).items, key)), crash, false)
    case LoadOrSeed(seed) =>
      if now.Found? then Effect(fs, false, Some(now.collection))
      else if seed.None? then Effect(fs, true, None)
      else SaveEffect(c, fs, p, seed.value, crash, true)
  }

  function SaveEffect(c: Codec, fs: Files, p: Path, x: Collection, crash: Crash, seedUsed: bool): Effect
    requires p != []
  {
    Effect(Saved(c, fs, p, x, crash), seedUsed, if crash == Never then Some(x) else None)
  }

  class CuratedStore {
    var files: Files
    const codec: Codec

    constructor (codec: Codec)
      ensures files == map[] && this.codec == codec
    {
      this.files, this.codec := map[], codec;
    }

    method Save(p: Path, x: Collection, crash: Crash) returns (ok: bool)
      requires p != []
      modifies this
      ensures files == Saved(codec, old(files), p, x, crash) && ok == (crash == Never)
    {
      var body := codec.show(x);
      if crash == Before { return false; }
      if crash.During? {
        files := files[TempOf(p) := body[..if crash.written < |body| then crash.written else |body|]];
        return false;
      }
      files := files[TempOf(p) := body];
      if crash == Unrenamed { return false; }
      files := (files - {TempOf(p)})[p := body];
      ok := true;
    }

    method AddItem(collection: string, identity: string, item: Item, crash: Crash) returns (r: Option<Collection>)
      modifies this
      ensures Resolve(collection, identity).None? ==> files == old(files) && r.None?
      ensures Resolve(collection, identity).Some? ==>
        var e := Perform(codec, old(files), Resolve(collection, identity).value, Add(item), crash);
        files == e.files && r == e.result
    {
      var path := Resolve(collection, identity);
      if path.None? { return None; }
      var now := Load(codec, files, path.value);
      if now.Corrupt? { return None; }
      var current := if now.Found? then now.collection else Collection(1, []);
      var items := Upsert(current.items, item);
      current := current.(items := items);
      var ok := Save(path.value, current, crash);
      r := if ok then Some(current) else None;
    }

    method RemoveItem(collection: string, identity: string, key: string, crash: Crash) returns (r: Option<Collection>)
      modifies this
      ensures Resolve(collection, identity).None? ==> files == old(files) && r.None?
      ensures Resolve(collection, identity).Some? ==>
        var e := Perform(codec, old(files), Resolve(collection, identity).value, Remove(key), crash);
        files == e.files && r == e.result
    {
      var path := Resolve(collection, identity);
      if path.None? { return None; }
      var now := Load(codec, files, path.value);
      if now.Corrupt? { return None; }
      var current := if now.Found? then now.collection else Collection(1, []);
      var items := Retain(current.items, key);
      current := current.(items := items);
      var ok := Save(path.value, current, crash);
      r := if ok then Some(current) else None;
    }

    method LoadOrSeedCollection(collection: string, identity: string, seed: Option<Collection>, crash: Crash)
      returns (r: Option<Collection>, seedUsed: bool)
      modifies this
      ensures Resolve(collection, identity).None? ==> files == old(files) && r.None? && !seedUsed
      ensures Resolve(collection, identity).Some? ==>
        var e := Perform(codec, old(files), Resolve(collection, identity).value, LoadOrSeed(seed), crash);
        files == e.files && r == e.result && seedUsed == e.seedUsed
    {
      var path := Resolve(collection, identity);
      if path.None? { return None, false; }
      var now := Load(codec, files, path.value);
      if now.Corrupt? { return None, false; }
      if now.Found? { return Some(now.collection), false; }
      if seed.None? { return None, true; }
      var ok := Save(path.value, seed.value, crash);
      r, seedUsed := if ok then Some(seed.value) else None, true;
    }
  }

  // Runs ---------------------------------------------------------------------

  datatype Call = Call(collection: string, identity: string, op: Op, crash: Crash)

  function AfterCall(c: Codec, fs: Files, call: Call): Files {
    var p := Resolve(call.collection, call.identity);
    if p.None? then fs else Perform(c, fs, p.value, call.op, call.crash).files
  }

  function FilesFrom(c: Codec, fs: Files, run: seq<Call>): Files {
    if run == [] then fs else AfterCall(c, FilesFrom(c, fs, run[..|run| - 1]), run[|run| - 1])
  }

  function FilesAfter(c: Codec, run: seq<Call>): Files { FilesFrom(c, map[], run) }

  /** What the abstract collection at a path becomes under a call: a lookup table with an
      order, updated only by calls that complete. */
  function Updated(now: Option<Collection>, op: Op): Option<Collection> {
    match op
    case Add(item) =>
      var x := if now.Some? then now.value else Collection(1, []);
      Some(x.(items := Upserted(x.items, item)))
    case Remove(key) =>
      var x := if now.Some? then now.value else Collection(1, []);
      Some(x.(items := Without(x.items, key)))
    case LoadOrSeed(seed) => if now.Some? then now else seed
  }

  /** The collections by path after a run, crashes discarded. */
  function CollectionAfter(run: seq<Call>, p: Path): Option<Collection> {
    if run == [] then None else
    var now, call := CollectionAfter(run[..|run| - 1], p), run[|run| - 1];
    if Resolve(call.collection, call.identity) == Some(p) && call.crash == Never then Updated(now, call.op) else now
  }

  function LoadedAs(o: Option<Collection>): Loaded { if o.Some? then Found(o.value) else Absent }

  /** Over every run, with crashes anywhere, each file loads as exactly the collection that the
      completed calls built. */
  lemma {:induction false} FilesRefineCollections(c: Codec, run: seq<Call>, p: Path)
    requires RoundTrips(c) && IsMain(p)
    ensures Load(c, FilesAfter(c, run), p) == LoadedAs(CollectionAfter(run, p))
  {
    if run != [] {
      var n := |run| - 1;
      var call := run[n];
      FilesRefineCollections(c, run[..n], p);
      CallRefines(c, FilesAfter(c, run[..n]), CollectionAfter(run[..n], p), call, p);
    }
  }

  lemma CallRefines(c: Codec, fs: Files, now: Option<Collection>, call: Call, p: Path)
    requires RoundTrips(c) && IsMain(p) && Load(c, fs, p) == LoadedAs(now)
    ensures Load(c, AfterCall(c, fs, call), p) ==
      LoadedAs(if Resolve(call.collection, call.identity) == Some(p) && call.crash == Never
               then Updated(now, call.op) else now)
  {
    var r := Resolve(call.collection, call.identity);
    if r.Some? {
      var q := r.value;
      var l := Load(c, fs, q);
      if !l.Corrupt? {
        var x := match call.op
          case Add(item) => ItemsIn(l).(items := Upserted(ItemsIn(l).items, item))
          case Remove(key) => ItemsIn(l).(items := Without(ItemsIn(l).items, key))
          case LoadOrSeed(seed) => if seed.Some? then seed.value else Collection(1, []);
        SaveIsAtomic(c, fs, q, x, call.crash, p);
      }
    }
  }

  lemma {:induction false} CollectionStays(run: seq<Call>, more: seq<Call>, p: Path)
    requires CollectionAfter(run, p).Some?
    ensures CollectionAfter(run + more, p).Some?
  {
    if more == [] {
      assert run + more == run;
    } else {
      var n := |more| - 1;
      CollectionStays(run, more[..n], p);
      assert (run + more)[..|run + more| - 1] == run + more[..n];
    }
  }

  /** Once a save of a collection has completed, no later call consults the seed: it returns
      the collection the completed calls built. */
  lemma SeedUsedOnlyBeforeFirstSave(c: Codec, run: seq<Call>, more: seq<Call>, p: Path,
                                    seed: Option<Collection>, crash: Crash)
    requires RoundTrips(c) && IsMain(p) && CollectionAfter(run, p).Some?
    ensures var e := Perform(c, FilesAfter(c, run + more), p, LoadOrSeed(seed), crash);
      !e.seedUsed && e.result == CollectionAfter(run + more, p) && e.files == FilesAfter(c, run + more)
  {
    CollectionStays(run, more, p);
    FilesRefineCollections(c, run + more, p);
  }

  /** Keys stay unique over every run whose seeds have unique keys. */
  lemma {:induction false} KeysStayUnique(run: seq<Call>, p: Path)
    requires forall call | call in run && call.op.LoadOrSeed? && call.op.seed.Some? ::
      Distinct(Keys(call.op.seed.value.items))
    ensures CollectionAfter(run, p).Some? ==> Distinct(Keys(CollectionAfter(run, p).value.items))
  {
    if run != [] {
      var n := |run| - 1;
      assert forall call | call in run[..n] :: call in run;
      KeysStayUnique(run[..n], p);
      var now, op := CollectionAfter(run[..n], p), run[n].op;
      var items := if now.Some? then now.value.items else [];
      assert run[n] in run;
      UniqueKeysKept(items, if op.Add? then op.item else Item("", ""), if op.Remove? then op.key else "");
    }
  }

  lemma CallKeepsCorrupt(c: Codec, fs: Files, call: Call, p: Path)
    requires IsMain(p) && Load(c, fs, p).Corrupt?
    ensures p in AfterCall(c, fs, call) && AfterCall(c, fs, call)[p] == fs[p]
  {
    var r := Resolve(call.collection, call.identity);
    if r.Some? {
      var c2, i2 :| Resolve(c2, i2) == Some(p);
      PathsNeverMeet(call.collection, call.identity, c2, i2);
    }
  }

  /** A file that does not parse survives every run of calls, crashes included, and every call on
      its collection fails. */
  lemma {:induction false} CorruptIsNeverOverwritten(c: Codec, fs: Files, run: seq<Call>, p: Path)
    requires IsMain(p) && Load(c, fs, p).Corrupt?
    ensures var after := FilesFrom(c, fs, run);
      && p in after && after[p] == fs[p]
      && forall op, crash :: Perform(c, after, p, op, crash) == Effect(after, false, None)
  {
    if run != [] {
      var n := |run| - 1;
      CorruptIsNeverOverwritten(c, fs, run[..n], p);
      CallKeepsCorrupt(c, FilesFrom(c, fs, run[..n]), run[n], p);
    }
  }
}
