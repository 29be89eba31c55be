/** The scoped access-control grant: a guard object that owns a revoke closure, the wrapper that
    runs a body under a guard, and every program built from nested guards, early revokes, errors,
    panics and recoveries.

    A closure is given by how it ends. An unwind is a panic travelling outwards; a panic raised by
    a destructor during an unwind aborts the process, after which nothing runs. */
module ScopedGrant {
  import opened Text

  /** How a closure ends. */
  datatype Outcome = Ok | Err(msg: string) | Panic

  /** How a piece of program ends. */
  datatype Exit = Done | Failed(msg: string) | Panicked | Aborted

  /** The grants that succeeded are numbered in order. */
  datatype Event = Granted(id: nat) | Refused | Revoked(id: nat) | Reported(id: nat, msg: string)

  /** What happened so far, and the revoke closure each guard still owns. */
  datatype State = State(log: seq<Event>, revoke: seq<Option<Outcome>>)

  datatype Prog =
    | Return
    | Fail(msg: string)
    | Crash
    | RevokeNow(depth: nat, rest: Prog)
    | Hold(name: string, grant: Outcome, revoke: Outcome, body: Prog, rest: Prog)
    | With(name: string, grant: Outcome, revoke: Outcome, body: Prog, rest: Prog)
    | Attempt(body: Prog, rest: Prog)

  // The guard ----------------------------------------------------------------

  function Taken(s: State, k: nat): (State, Outcome)
    requires k < |s.revoke|
  {
    match s.revoke[k]
    case None => (s, Ok)
    case Some(o) => (State(s.log + [Revoked(k)], s.revoke[k := None]), o)
  }

  /** A destructor reports a failed revoke and goes on; only a panic leaves it. */
  function Dropped(s: State, k: nat): (State, Outcome)
    requires k < |s.revoke|
  {
    var (t, o) := Taken(s, k);
    if o.Err? then (State(t.log + [Reported(k, o.msg)], t.revoke), Ok) else (t, o)
  }

  function AfterDrop(exit: Exit, o: Outcome): Exit {
    if !o.Panic? then exit else if exit.Panicked? then Aborted else Panicked
  }

  function Acquired(s: State, revoke: Outcome): State {
    State(s.log + [Granted(|s.revoke|)], s.revoke + [Some(revoke)])
  }

  function Refuse(s: State): State { State(s.log + [Refused], s.revoke) }

  function RefusedExit(name: string, grant: Outcome): Exit {
    if grant.Err? then Failed("ACL grant '" + name + "' failed (nothing to revoke): " + grant.msg) else Panicked
  }

  /** What the wrapper returns for a body and a revoke that both came back. */
  function Merged(body: Exit, revoke: Outcome): Exit {
    match revoke
    case Panic => Panicked
    case Ok => body
    case Err(re) =>
      if body.Failed? then Failed(body.msg + "; additionally ACL revoke failed: " + re)
      else Failed("body succeeded but ACL revoke failed: " + re)
  }

  // Programs -----------------------------------------------------------------

  ghost predicate Known(held: seq<nat>, s: State) { forall k | k in held :: k < |s.revoke| }

  /** The end of a guard held by hand: its destructor, unless the process is gone. */
  function LeaveHold(s: State, exit: Exit, k: nat): (State, Exit)
    requires k < |s.revoke|
  {
    if exit.Aborted? then (s, exit) else
      var (t, o) := Dropped(s, k); (t, AfterDrop(exit, o))
  }

  /** The end of the wrapper: an explicit revoke, or the destructor during an unwind. */
  function LeaveWith(s: State, exit: Exit, k: nat): (State, Exit)
    requires k < |s.revoke|
  {
    if exit.Aborted? || exit.Panicked? then LeaveHold(s, exit, k) else
      var (t, o) := Taken(s, k); (t, Merged(exit, o))
  }

  /** `held` are the guards the program can reach, innermost last. */
  ghost function Run(p: Prog, held: seq<nat>, s: State): (r: (State, Exit))
    requires Known(held, s)
    ensures |s.revoke| <= |r.0.revoke|
    decreases p, 0
  {
    match p
    case Return => (s, Done)
    case Fail(msg) => (s, Failed(msg))
    case Crash => (s, Panicked)
    case RevokeNow(depth, rest) =>
      if depth >= |held| then Run(rest, held, s) else
        var k := held[|held| - 1 - depth];
        assert k in held;
        var (t, o) := Taken(s, k);
        if o.Ok? then Run(rest, held, t) else (t, if o.Err? then Failed(o.msg) else Panicked)
    case Hold(_, _, _, _, rest) => Then(rest, held, Scope(p, held, s))
    case With(_, _, _, _, rest) => Then(rest, held, Scope(p, held, s))
    case Attempt(body, rest) =>
      var (t, exit) := Run(body, held, s);
      if exit.Aborted? then (t, exit) else Run(rest, held, t)
  }

  ghost function Then(rest: Prog, held: seq<nat>, r: (State, Exit)): (q: (State, Exit))
    requires Known(held, r.0)
    ensures |r.0.revoke| <= |q.0.revoke|
    decreases rest, 1
  {
    if r.1.Done? then Run(rest, held, r.0) else r
  }

  /** A guarded scope by itself, without what follows it. */
  ghost function Scope(p: Prog, held: seq<nat>, s: State): (r: (State, Exit))
    requires (p.Hold? || p.With?) && Known(held, s)
    ensures |s.revoke| <= |r.0.revoke|
    decreases p.body, 1
  {
    if !p.grant.Ok? then (Refuse(s), RefusedExit(p.name, p.grant)) else
      var k := |s.revoke|;
      var (t, exit) := Run(p.body, if p.Hold? then held + [k] else held, Acquired(s, p.revoke));
      if p.Hold? then LeaveHold(t, exit, k) else LeaveWith(t, exit, k)
  }

  // What every step keeps ----------------------------------------------------

  ghost predicate CountsAt(s: State, k: nat) {
    && multiset(s.log)[Granted(k)] == (if k < |s.revoke| then 1 else 0)
    && multiset(s.log)[Revoked(k)] == (if k < |s.revoke| && s.revoke[k].None? then 1 else 0)
  }

  /** A revoke comes after its own grant. */
  ghost predicate InOrder(log: seq<Event>) {
    forall i | 0 <= i < |log| && log[i].Revoked? :: Granted(log[i].id) in log[..i]
  }

  /** Every guard was granted once, and revoked once if it has given up its closure and not at
      all if it still owns it. */
  ghost predicate Consistent(s: State) { (forall k: nat :: CountsAt(s, k)) && InOrder(s.log) }

  /** `t` comes later than `s`, and of the guards that were there only those in `held` may have
      given up their closures. */
  ghost predicate Later(s: State, t: State, held: seq<nat>) {
    && s.log <= t.log && |s.revoke| <= |t.revoke|
    && forall k | 0 <= k < |s.revoke| :: t.revoke[k] == s.revoke[k] || (k in held && t.revoke[k].None?)
  }

  /** No guard from number `n` on still owns a closure. */
  ghost predicate Released(s: State, n: nat) { forall k | n <= k < |s.revoke| :: s.revoke[k].None? }

  lemma Snoc(log: seq<Event>, e: Event)
    ensures multiset(log + [e]) == multiset(log) + multiset{e}
  {
  }

  lemma OrderSnoc(log: seq<Event>, e: Event)
    requires InOrder(log) && (e.Revoked? ==> Granted(e.id) in log)
    ensures InOrder(log + [e])
  {
    var l := log + [e];
    forall i | 0 <= i < |l| && l[i].Revoked?
      ensures Granted(l[i].id) in l[..i]
    {
      assert i < |log| ==> l[..i] == log[..i];
      assert i == |log| ==> l[..i] == log;
    }
  }

  lemma AcquiredKeeps(s: State, revoke: Outcome)
    requires Consistent(s)
    ensures Consistent(Acquired(s, revoke))
  {
    var t := Acquired(s, revoke);
    Snoc(s.log, Granted(|s.revoke|));
    OrderSnoc(s.log, Granted(|s.revoke|));
    forall k: nat ensures CountsAt(t, k) { assert CountsAt(s, k); }
  }

  /** An event that is neither a grant nor a revoke changes nothing. */
  lemma NoteKeeps(s: State, e: Event)
    requires Consistent(s) && (e.Refused? || e.Reported?)
    ensures Consistent(State(s.log + [e], s.revoke))
  {
    var t := State(s.log + [e], s.revoke);
    Snoc(s.log, e);
    OrderSnoc(s.log, e);
    forall k: nat ensures CountsAt(t, k) { assert CountsAt(s, k); }
  }

  lemma TakenKeeps(s: State, k: nat, held: seq<nat>)
    requires Consistent(s) && k < |s.revoke|
    ensures Consistent(Taken(s, k).0) && Taken(s, k).0.revoke == s.revoke[k := None]
    ensures k in held ==> Later(s, Taken(s, k).0, held)
  {
    assert CountsAt(s, k);
    if s.revoke[k].Some? {
      var t := Taken(s, k).0;
      Snoc(s.log, Revoked(k));
      assert Granted(k) in multiset(s.log);
      OrderSnoc(s.log, Revoked(k));
      forall j: nat ensures CountsAt(t, j) { assert CountsAt(s, j); }
    } else {
      assert s.revoke == s.revoke[k := None];
    }
  }

  lemma LeaveKeeps(s: State, exit: Exit, k: nat)
    requires Consistent(s) && k < |s.revoke|
    ensures var (t, e) := LeaveHold(s, exit, k);
      Consistent(t) && s.log <= t.log && t.revoke == if exit.Aborted? then s.revoke else s.revoke[k := None]
    ensures var (t, e) := LeaveWith(s, exit, k);
      Consistent(t) && s.log <= t.log && t.revoke == if exit.Aborted? then s.revoke else s.revoke[k := None]
  {
    TakenKeeps(s, k, [k]);
    var (t, o) := Taken(s, k);
    if o.Err? { NoteKeeps(t, Reported(k, o.msg)); }
  }

  lemma LaterTransitive(s: State, t: State, u: State, held: seq<nat>)
    requires Later(s, t, held) && Later(t, u, held)
    ensures Later(s, u, held)
  {
  }

  /** A scope that releases its own guard leaves the others as its body left them. */
  lemma ScopeEnds(s: State, t: State, u: State, held: seq<nat>, inner: seq<nat>, revoke: Outcome)
    requires inner == held || inner == held + [|s.revoke|]
    requires Later(Acquired(s, revoke), t, inner) && t.log <= u.log
    requires u.revoke == t.revoke || u.revoke == t.revoke[|s.revoke| := None]
    ensures Later(s, u, held)
  {
    var a := Acquired(s, revoke);
    forall k | 0 <= k < |s.revoke|
      ensures u.revoke[k] == s.revoke[k] || (k in held && u.revoke[k].None?)
    {
      assert a.revoke[k] == s.revoke[k] && u.revoke[k] == t.revoke[k];
    }
  }

  lemma {:induction false} ScopeKeeps(p: Prog, held: seq<nat>, s: State)
    requires (p.Hold? || p.With?) && Known(held, s) && Consistent(s)
    ensures var (t, exit) := Scope(p, held, s);
      Consistent(t) && Later(s, t, held) && (!exit.Aborted? ==> Released(t, |s.revoke|))
    decreases p.body, 1
  {
    if !p.grant.Ok? {
      NoteKeeps(s, Refused);
    } else {
      var k, a := |s.revoke|, Acquired(s, p.revoke);
      var inner := if p.Hold? then held + [k] else held;
      AcquiredKeeps(s, p.revoke);
      RunKeeps(p.body, inner, a);
      var (t, exit) := Run(p.body, inner, a);
      LeaveKeeps(t, exit, k);
      var (u, last) := Scope(p, held, s);
      ScopeEnds(s, t, u, held, inner, p.revoke);
    }
  }

  lemma {:induction false} ThenKeeps(rest: Prog, held: seq<nat>, s: State, r: (State, Exit))
    requires Known(held, s) && Consistent(r.0) && Later(s, r.0, held)
    requires !r.1.Aborted? ==> Released(r.0, |s.revoke|)
    ensures var (t, exit) := Then(rest, held, r);
      Consistent(t) && Later(s, t, held) && (!exit.Aborted? ==> Released(t, |s.revoke|))
    decreases rest, 1
  {
    if r.1.Done? {
      RunKeeps(rest, held, r.0);
      LaterTransitive(s, r.0, Run(rest, held, r.0).0, held);
    }
  }

  /** Every run keeps the counts, touches no guard it cannot reach and, unless the process
      aborts, leaves no guard of its own unrevoked. */
  lemma {:induction false} RunKeeps(p: Prog, held: seq<nat>, s: State)
    requires Known(held, s) && Consistent(s)
    ensures var (t, exit) := Run(p, held, s);
      Consistent(t) && Later(s, t, held) && (!exit.Aborted? ==> Released(t, |s.revoke|))
    decreases p, 0
  {
    match p
    case Return =>
    case Fail(_) =>
    case Crash =>
    case RevokeNow(depth, rest) =>
      if depth >= |held| {
        RunKeeps(rest, held, s);
      } else {
        var k := held[|held| - 1 - depth];
        assert k in held;
        TakenKeeps(s, k, held);
        var (t, o) := Taken(s, k);
        if o.Ok? { ThenKeeps(rest, held, s, (t, Done)); }
      }
    case Hold(_, _, _, _, rest) =>
      ScopeKeeps(p, held, s);
      ThenKeeps(rest, held, s, Scope(p, held, s));
    case With(_, _, _, _, rest) =>
      ScopeKeeps(p, held, s);
      ThenKeeps(rest, held, s, Scope(p, held, s));
    case Attempt(body, rest) =>
      RunKeeps(body, held, s);
      var (t, exit) := Run(body, held, s);
      if !exit.Aborted? { ThenKeeps(rest, held, s, (t, Done)); }
  }

  // Exactly once -------------------------------------------------------------

  const START := State([], [])

  ghost function Final(p: Prog): (State, Exit) { Run(p, [], START) }

  ghost predicate AllRevokedOnce(log: seq<Event>) {
    forall k: nat :: multiset(log)[Revoked(k)] == multiset(log)[Granted(k)]
  }

  lemma RunFromStart(p: Prog)
    ensures var (s, exit) := Final(p); Consistent(s) && (!exit.Aborted? ==> Released(s, 0))
  {
    RunKeeps(p, [], START);
  }

  /** In every run a revoke follows a successful grant and happens at most once; unless the
      process aborts it happens exactly once per successful grant. */
  lemma RevokedExactlyOnce(p: Prog)
    ensures var (s, exit) := Final(p);
      && InOrder(s.log)
      && (forall k: nat :: multiset(s.log)[Revoked(k)] <= multiset(s.log)[Granted(k)] <= 1)
      && (!exit.Aborted? ==> AllRevokedOnce(s.log))
  {
    RunFromStart(p);
    var (s, exit) := Final(p);
    forall k: nat
      ensures multiset(s.log)[Revoked(k)] <= multiset(s.log)[Granted(k)] <= 1
      ensures !exit.Aborted? ==> multiset(s.log)[Revoked(k)] == multiset(s.log)[Granted(k)]
    {
      assert CountsAt(s, k);
    }
  }

  /** The body of a scope, run under the scope's guard. */
  ghost function Inside(p: Prog, held: seq<nat>, s: State): (State, Exit)
    requires (p.Hold? || p.With?) && Known(held, s)
  {
    Run(p.body, if p.Hold? then held + [|s.revoke|] else held, Acquired(s, p.revoke))
  }

  /** No body can reach the guard of the wrapper around it. */
  lemma WrapperGuardIsPrivate(p: Prog, held: seq<nat>, s: State)
    requires p.With? && Known(held, s) && Consistent(s)
    ensures Inside(p, held, s).0.revoke[|s.revoke|] == Some(p.revoke)
    ensures Acquired(s, p.revoke).log <= Inside(p, held, s).0.log
    ensures Revoked(|s.revoke|) !in Inside(p, held, s).0.log
  {
    AcquiredKeeps(s, p.revoke);
    RunKeeps(p.body, held, Acquired(s, p.revoke));
    assert CountsAt(Inside(p, held, s).0, |s.revoke|);
  }

  /** The wrapper succeeds exactly when grant, body and revoke all do; otherwise it hands on the
      first failure. */
  lemma WrapperSucceedsIff(p: Prog, held: seq<nat>, s: State)
    requires p.With? && Known(held, s) && Consistent(s)
    ensures var (exit, body) := (Scope(p, held, s).1, Inside(p, held, s).1);
      && (exit.Done? <==> p.grant.Ok? && body.Done? && p.revoke.Ok?)
      && (p.grant.Ok? && body.Failed? && p.revoke.Ok? ==> exit == body)
      && (p.grant.Ok? && body.Failed? && p.revoke.Err? ==> exit.Failed? && body.msg <= exit.msg)
  {
    WrapperGuardIsPrivate(p, held, s);
  }

  predicate EndsWith(s: string, t: string) { |t| <= |s| && s[|s| - |t|..] == t }

  lemma EndsWithLast(a: string, t: string)
    ensures EndsWith(a + t, t)
  {
  }

  /** A failed grant or revoke is named in the wrapper's error. */
  lemma WrapperNamesFailure(p: Prog, held: seq<nat>, s: State)
    requires p.With? && Known(held, s) && Consistent(s)
    ensures var (exit, body) := (Scope(p, held, s).1, Inside(p, held, s).1);
      && (p.grant.Err? ==> exit.Failed? && EndsWith(exit.msg, p.grant.msg))
      && (p.grant.Ok? && (body.Done? || body.Failed?) && p.revoke.Err? ==>
           exit.Failed? && EndsWith(exit.msg, p.revoke.msg))
  {
    WrapperGuardIsPrivate(p, held, s);
    var body := Inside(p, held, s).1;
    if p.grant.Err? { EndsWithLast("ACL grant '" + p.name + "' failed (nothing to revoke): ", p.grant.msg); }
    if p.revoke.Err? {
      EndsWithLast("body succeeded but ACL revoke failed: ", p.revoke.msg);
      if body.Failed? { EndsWithLast(body.msg + "; additionally ACL revoke failed: ", p.revoke.msg); }
    }
  }

  /** What the destructor of a guard held by hand adds to its body: nothing if the guard was
      revoked early; else the one revoke, a report if that fails, and a panic if that panics. */
  lemma HoldEnds(p: Prog, held: seq<nat>, s: State)
    requires p.Hold? && p.grant.Ok? && Known(held, s) && Consistent(s) && !Inside(p, held, s).1.Aborted?
    ensures var k, (t, body), (u, exit) := |s.revoke|, Inside(p, held, s), Scope(p, held, s);
      match t.revoke[k]
      case None => u.log == t.log && exit == body
      case Some(Ok) => u.log == t.log + [Revoked(k)] && exit == body
      case Some(Err(m)) => u.log == t.log + [Revoked(k), Reported(k, m)] && exit == body
      case Some(Panic) => u.log == t.log + [Revoked(k)] && exit == if body.Panicked? then Aborted else Panicked
  {
  }

  /** An early revoke runs a guard's closure once; its failure ends the program there. */
  lemma EarlyRevoke(depth: nat, rest: Prog, held: seq<nat>, s: State)
    requires depth < |held| && Known(held, s)
    ensures held[|held| - 1 - depth] in held
    ensures var k, r := held[|held| - 1 - depth], Run(RevokeNow(depth, rest), held, s);
      match s.revoke[k]
      case None => r == Run(rest, held, s)
      case Some(Ok) => r == Run(rest, held, State(s.log + [Revoked(k)], s.revoke[k := None]))
      case Some(Err(m)) => r.0.log == s.log + [Revoked(k)] && r.1 == Failed(m)
      case Some(Panic) => r.0.log == s.log + [Revoked(k)] && r.1 == Panicked
  {
    assert held[|held| - 1 - depth] in held;
  }

  /** Grant, then the whole body, then the one revoke. */
  lemma WrapperBrackets(p: Prog, held: seq<nat>, s: State)
    requires p.With? && p.grant.Ok? && Known(held, s) && Consistent(s)
    requires !Inside(p, held, s).1.Aborted?
    ensures var (log, inside) := (Scope(p, held, s).0.log, Inside(p, held, s).0.log);
      && s.log + [Granted(|s.revoke|)] <= inside
      && Revoked(|s.revoke|) !in inside
      && inside + [Revoked(|s.revoke|)] <= log
  {
    WrapperGuardIsPrivate(p, held, s);
  }

  // Aborts -------------------------------------------------------------------

  /** A scope aborts the process exactly when its body does, or its body unwinds into a guard
      whose revoke panics too. */
  lemma ScopeAbortsIff(p: Prog, held: seq<nat>, s: State)
    requires (p.Hold? || p.With?) && Known(held, s) && Consistent(s)
    ensures var (t, body) := Inside(p, held, s);
      Scope(p, held, s).1.Aborted? <==>
        p.grant.Ok? && (body.Aborted? || (body.Panicked? && t.revoke[|s.revoke|] == Some(Panic)))
  {
  }

  predicate RevokesReturn(p: Prog) {
    match p
    case Return => true
    case Fail(_) => true
    case Crash => true
    case RevokeNow(_, rest) => RevokesReturn(rest)
    case Hold(_, _, revoke, body, rest) => !revoke.Panic? && RevokesReturn(body) && RevokesReturn(rest)
    case With(_, _, revoke, body, rest) => !revoke.Panic? && RevokesReturn(body) && RevokesReturn(rest)
    case Attempt(body, rest) => RevokesReturn(body) && RevokesReturn(rest)
  }

  /** No guard from number `n` on owns a closure that panics. */
  ghost predicate Calm(s: State, n: nat) { forall k | n <= k < |s.revoke| :: s.revoke[k] != Some(Panic) }

  lemma {:induction false} CalmScope(p: Prog, held: seq<nat>, s: State, n: nat)
    requires (p.Hold? || p.With?) && !p.revoke.Panic? && RevokesReturn(p.body)
    requires Known(held, s) && Consistent(s) && Calm(s, n) && n <= |s.revoke|
    ensures !Scope(p, held, s).1.Aborted? && Calm(Scope(p, held, s).0, n)
    decreases p.body, 1
  {
    ScopeKeeps(p, held, s);
    if p.grant.Ok? {
      AcquiredKeeps(s, p.revoke);
      var inner := if p.Hold? then held + [|s.revoke|] else held;
      CalmRun(p.body, inner, Acquired(s, p.revoke), n);
      ScopeAbortsIff(p, held, s);
    }
  }

  /** A program whose revokes return does not abort, whatever closures older guards own. */
  lemma {:induction false} CalmRun(p: Prog, held: seq<nat>, s: State, n: nat)
    requires RevokesReturn(p) && Known(held, s) && Consistent(s) && Calm(s, n) && n <= |s.revoke|
    ensures !Run(p, held, s).1.Aborted? && Calm(Run(p, held, s).0, n)
    decreases p, 0
  {
    match p
    case Return =>
    case Fail(_) =>
    case Crash =>
    case RevokeNow(depth, rest) =>
      if depth >= |held| {
        CalmRun(rest, held, s, n);
      } else {
        var k := held[|held| - 1 - depth];
        assert k in held;
        TakenKeeps(s, k, held);
        if Taken(s, k).1.Ok? { CalmRun(rest, held, Taken(s, k).0, n); }
      }
    case Hold(_, _, _, _, rest) =>
      CalmScope(p, held, s, n);
      ScopeKeeps(p, held, s);
      if Scope(p, held, s).1.Done? { CalmRun(rest, held, Scope(p, held, s).0, n); }
    case With(_, _, _, _, rest) =>
      CalmScope(p, held, s, n);
      ScopeKeeps(p, held, s);
      if Scope(p, held, s).1.Done? { CalmRun(rest, held, Scope(p, held, s).0, n); }
    case Attempt(body, rest) =>
      CalmRun(body, held, s, n);
      RunKeeps(body, held, s);
      CalmRun(rest, held, Run(body, held, s).0, n);
  }

  /** If no revoke panics, every successful grant is revoked exactly once, whatever else fails
      or panics. */
  lemma ReturningRevokesAllRun(p: Prog)
    requires RevokesReturn(p)
    ensures !Final(p).1.Aborted? && AllRevokedOnce(Final(p).0.log)
  {
    CalmRun(p, [], START, 0);
    RevokedExactlyOnce(p);
  }

  /** A wrapper whose revoke ends as `r`, inside a wrapper whose revoke succeeds. */
  function Nested(r: Outcome, body: Prog): Prog {
    With("outer", Ok, Ok, With("inner", Ok, r, body, Return), Return)
  }

  /** A body panic and a revoke panic together leave the outer grant in place. */
  lemma OuterGrantCanLeak()
    ensures Final(Nested(Panic, Crash)) == (State([Granted(0), Granted(1), Revoked(1)], [Some(Ok), None]), Aborted)
    ensures !AllRevokedOnce(Final(Nested(Panic, Crash)).0.log)
  {
    var inner := With("inner", Ok, Panic, Crash, Return);
    var s := Acquired(START, Ok);
    var t := Acquired(s, Panic);
    assert s == State([Granted(0)], [Some(Ok)]);
    assert t == State([Granted(0), Granted(1)], [Some(Ok), Some(Panic)]);
    assert Run(Crash, [], t) == (t, Panicked);
    var u := State([Granted(0), Granted(1), Revoked(1)], [Some(Ok), None]);
    assert Taken(t, 1).0 == u;
    assert Scope(inner, [], s) == (u, Aborted);
    assert Run(inner, [], s) == (u, Aborted);
    assert Scope(Nested(Panic, Crash), [], START) == (u, Aborted);
    assert multiset(u.log)[Granted(0)] == 1 && multiset(u.log)[Revoked(0)] == 0;
  }

  /** A scope of either kind whose grant succeeds. */
  function ScopeOf(hold: bool, name: string, r: Outcome, body: Prog): Prog {
    if hold then Hold(name, Ok, r, body, Return) else With(name, Ok, r, body, Return)
  }

  /** The process is gone and the grant `j` was never revoked. */
  ghost predicate Stranded(result: (State, Exit), j: nat) {
    result.1.Aborted? && Granted(j) in result.0.log && Revoked(j) !in result.0.log
  }

  /** A panic in the body of a scope whose revoke panics too strands every live grant around it. */
  lemma PanicStrands(hold: bool, name: string, held: seq<nat>, s: State, j: nat)
    requires Known(held, s) && Consistent(s) && j < |s.revoke| && s.revoke[j].Some?
    ensures Stranded(Scope(ScopeOf(hold, name, Panic, Crash), held, s), j)
  {
    var p := ScopeOf(hold, name, Panic, Crash);
    ScopeKeeps(p, held, s);
    var t := Scope(p, held, s).0;
    assert t.revoke[j] == s.revoke[j];
    assert CountsAt(t, j);
  }

  /** In any state with a live grant, a scope of either kind can strand that grant exactly when
      its revoke panics, whatever the body does that revokes by closures that return. */
  lemma NestingIsSafeIff(hold: bool, name: string, r: Outcome, held: seq<nat>, s: State, j: nat)
    requires Known(held, s) && Consistent(s) && j < |s.revoke| && s.revoke[j].Some?
    ensures (forall body | RevokesReturn(body) :: !Stranded(Scope(ScopeOf(hold, name, r, body), held, s), j)) <==>
      r != Panic
  {
    if r == Panic {
      PanicStrands(hold, name, held, s, j);
      assert RevokesReturn(Crash);
    } else {
      forall body | RevokesReturn(body)
        ensures !Stranded(Scope(ScopeOf(hold, name, r, body), held, s), j)
      {
        CalmScope(ScopeOf(hold, name, r, body), held, s, |s.revoke|);
      }
    }
  }

  // The guard object ---------------------------------------------------------

  /** What the process did so far, and the guards it made. */
  class World {
    var log: seq<Event>
    var guards: seq<ScopedAclGrant>

    constructor ()
      ensures Valid() && Abs() == START && guards == []
    {
      log := [];
      guards := [];
    }

    ghost predicate Valid()
      reads this
    {
      forall i | 0 <= i < |guards| :: guards[i].id == i
    }

    ghost function Abs(): State
      reads this, guards
    {
      State(log, seq(|guards|, i requires 0 <= i < |guards| reads this, guards => guards[i].revoke))
    }

    ghost predicate Has(g: ScopedAclGrant)
      reads this
    {
      g.id < |guards| && guards[g.id] == g
    }
  }

  class ScopedAclGrant {
    const id: nat
    const description: string
    var revoke: Option<Outcome>

    constructor (id: nat, description: string, revoke: Outcome)
      ensures this.id == id && this.description == description && this.revoke == Some(revoke)
    {
      this.id := id;
      this.description := description;
      this.revoke := Some(revoke);
    }

    predicate IsActive()
      reads this
    {
      revoke.Some?
    }

    method RevokeNow(w: World) returns (o: Outcome)
      requires w.Valid() && w.Has(this)
      modifies w`log, this`revoke
      ensures w.Valid() && !IsActive()
      ensures (w.Abs(), o) == Taken(old(w.Abs()), id)
    {
      ghost var before := w.Abs();
      if revoke.Some? {
        o := revoke.value;
        revoke := None;
        w.log := w.log + [Revoked(id)];
        assert w.Abs().revoke == before.revoke[id := None];
      } else {
        o := Ok;
        assert w.Abs() == before;
      }
    }

    method Drop(w: World) returns (o: Outcome)
      requires w.Valid() && w.Has(this)
      modifies w`log, this`revoke
      ensures w.Valid() && !IsActive()
      ensures (w.Abs(), o) == Dropped(old(w.Abs()), id)
    {
      o := Ok;
      ghost var before := w.Abs();
      if IsActive() {
        o := RevokeNow(w);
        if o.Err? {
          ghost var mid := w.Abs();
          w.log := w.log + [Reported(id, o.msg)];
          assert w.Abs().revoke == mid.revoke;
          o := Ok;
        }
      }
    }
  }

  /** Only fresh guards are added, at the end. */
  twostate predicate Grew(w: World)
    reads w
  {
    old(w.guards) <= w.guards && forall i | |old(w.guards)| <= i < |w.guards| :: fresh(w.guards[i])
  }

  ghost predicate AllHeld(w: World, held: seq<ScopedAclGrant>)
    reads w
  {
    forall i | 0 <= i < |held| :: w.Has(held[i])
  }

  ghost function Ids(held: seq<ScopedAclGrant>): seq<nat> { seq(|held|, i requires 0 <= i < |held| => held[i].id) }

  datatype Acquisition = Guard(guard: ScopedAclGrant) | NoGuard(exit: Exit)

  method Acquire(w: World, description: string, grant: Outcome, revoke: Outcome) returns (r: Acquisition)
    requires w.Valid()
    modifies w
    ensures w.Valid() && Grew(w)
    ensures r.Guard? <==> grant.Ok?
    ensures r.Guard? ==> w.Abs() == Acquired(old(w.Abs()), revoke) && w.Has(r.guard) && r.guard.id == old(|w.guards|)
    ensures r.NoGuard? ==> w.Abs() == Refuse(old(w.Abs())) && r.exit == RefusedExit(description, grant)
  {
    ghost var before := w.Abs();
    if grant.Ok? {
      var g := new ScopedAclGrant(|w.guards|, description, revoke);
      w.log := w.log + [Granted(|w.guards|)];
      w.guards := w.guards + [g];
      assert w.Abs().revoke == before.revoke + [Some(revoke)];
      r := Guard(g);
    } else {
      w.log := w.log + [Refused];
      assert w.Abs().revoke == before.revoke;
      r := NoGuard(RefusedExit(description, grant));
    }
  }

  /** The wrapper and the hand-held guard, with the body executed in between. */
  method ExecuteScope(w: World, p: Prog, held: seq<ScopedAclGrant>) returns (exit: Exit)
    requires (p.Hold? || p.With?) && w.Valid() && AllHeld(w, held)
    modifies w, w.guards
    ensures w.Valid() && Grew(w)
    ensures Known(Ids(held), old(w.Abs())) && (w.Abs(), exit) == Scope(p, Ids(held), old(w.Abs()))
    decreases p.body, 1
  {
    var acquired := Acquire(w, p.name, p.grant, p.revoke);
    if acquired.NoGuard? { return acquired.exit; }
    var g := acquired.guard;
    var inner := if p.Hold? then held + [g] else held;
    assert Ids(held + [g]) == Ids(held) + [g.id];
    exit := Execute(w, p.body, inner);
    var o := Ok;
    if p.With? && (exit.Done? || exit.Failed?) {
      o := g.RevokeNow(w);
      exit := Merged(exit, o);
    }
    if !exit.Aborted? {
      o := g.Drop(w);
      exit := AfterDrop(exit, o);
    }
  }

  /** Running a program does what its meaning says. */
  method Execute(w: World, p: Prog, held: seq<ScopedAclGrant>) returns (exit: Exit)
    requires w.Valid() && AllHeld(w, held)
    modifies w, w.guards
    ensures w.Valid() && Grew(w)
    ensures Known(Ids(held), old(w.Abs())) && (w.Abs(), exit) == Run(p, Ids(held), old(w.Abs()))
    decreases p, 0
  {
    match p
    case Return =>
      exit := Done;
    case Fail(msg) =>
      exit := Failed(msg);
    case Crash =>
      exit := Panicked;
    case RevokeNow(depth, rest) =>
      if depth < |held| {
        var o := held[|held| - 1 - depth].RevokeNow(w);
        if !o.Ok? { return if o.Err? then Failed(o.msg) else Panicked; }
      }
      exit := Execute(w, rest, held);
    case Hold(_, _, _, _, rest) =>
      exit := ExecuteScope(w, p, held);
      if exit.Done? { exit := Execute(w, rest, held); }
    case With(_, _, _, _, rest) =>
      exit := ExecuteScope(w, p, held);
      if exit.Done? { exit := Execute(w, rest, held); }
    case Attempt(body, rest) =>
      exit := Execute(w, body, held);
      if !exit.Aborted? { exit := Execute(w, rest, held); }
  }
}
