/** The access-control guard's verdict on a tokenized command line: which commands count as
    mutations of an Azure DevOps security namespace.

    Lower-casing is the ASCII one. Only two characters outside ASCII lower-case to text with an
    ASCII letter, the Kelvin sign to `k` and the dotted capital I to `i` and a combining dot; no
    searched phrase has a `k` or ends in `i`, so the searches come out the same. */
module AclVerdict {
  import opened Text

  /** The flags whose value is the next token. */
  predicate TakesMethod(tok: string) {
    tok == "--method" || tok == "--http-method" || tok == "--request" || tok == "-m"
  }

  const BODY_FLAGS: seq<string> :=
    ["--body", "--in-file", "--input-file", "--data", "--data-raw", "--data-binary", "--data-ascii",
     "--data-urlencode", "--form", "--form-string", "--upload-file", "--json"]

  predicate IsQuote(c: char) { c == '"' || c == '\'' }

  function StripQuotes(s: string): string { TrimBy(s, IsQuote) }

  // Tokens -------------------------------------------------------------------

  datatype ShortOpt = Method(value: string) | Body | Neither

  function ScanCluster(cluster: string, next: Option<string>): ShortOpt {
    if cluster == "" then Neither
    else if cluster[0] == 'X' then
      if cluster[1..] != "" then Method(StripQuotes(cluster[1..]))
      else if next.Some? then Method(StripQuotes(next.value)) else Neither
    else if cluster[0] == 'd' || cluster[0] == 'F' || cluster[0] == 'T' then Body
    else ScanCluster(cluster[1..], next)
  }

  function ClassifyShortCluster(tok: string, next: Option<string>): ShortOpt {
    if StartsWith(tok, "--") || !StartsWith(tok, "-") then Neither
    else if StartsWith(tok[1..], "m") || StartsWith(tok[1..], "b") then Neither
    else ScanCluster(tok[1..], next)
  }

  function AfterPrefix(tok: string, prefix: string): seq<string> {
    if StartsWith(tok, prefix) then [StripQuotes(tok[|prefix|..])] else []
  }

  /** The methods one token contributes, given the token after it. */
  function MethodsAt(tok: string, next: Option<string>): seq<string> {
    (if TakesMethod(tok) && next.Some? then [StripQuotes(next.value)] else [])
    + AfterPrefix(tok, "--method=") + AfterPrefix(tok, "--http-method=") + AfterPrefix(tok, "--request=")
    + AfterPrefix(tok, "method=")
    + (if StartsWith(tok, "-m") && |tok| > 2 then [StripQuotes(tok[2..])] else [])
    + (var o := ClassifyShortCluster(tok, next); if o.Method? then [o.value] else [])
  }

  predicate BodyAt(tok: string) {
    || tok in BODY_FLAGS
    || (exists f | f in BODY_FLAGS :: StartsWith(tok, f + "="))
    || StartsWith(tok, "-b")
    || ClassifyShortCluster(tok, None).Body?
  }

  predicate IsRead(m: string) { LowerAll(m) == "get" || LowerAll(m) == "head" || LowerAll(m) == "options" }

  /** A token that keeps a command from being provably a read. */
  predicate Suspicious(tok: string, next: Option<string>) {
    BodyAt(tok) || exists m :: m in MethodsAt(tok, next) && !IsRead(m)
  }

  function NextOf(ts: seq<string>, i: nat): Option<string> {
    if i + 1 < |ts| then Some(ts[i + 1]) else None
  }

  /** What the first `n` tokens contribute, in order, each looked at with the one after it. */
  function Collect(ts: seq<string>, n: nat, at: (string, Option<string>) -> seq<string>): seq<string>
    requires n <= |ts|
  {
    if n == 0 then [] else Collect(ts, n - 1, at) + at(ts[n - 1], NextOf(ts, n - 1))
  }

  function Methods(ts: seq<string>): seq<string> { Collect(ts, |ts|, MethodsAt) }

  method ExplicitMethods(ts: seq<string>) returns (methods: seq<string>)
    ensures methods == Methods(ts)
  {
    methods := [];
    for i := 0 to |ts|
      invariant methods == Collect(ts, i, MethodsAt)
    {
      methods := methods + MethodsAt(ts[i], NextOf(ts, i));
    }
  }

  lemma {:induction false} BodyIgnoresNext(cluster: string, next: Option<string>)
    ensures ScanCluster(cluster, next).Body? <==> ScanCluster(cluster, None).Body?
  {
    if cluster != "" { BodyIgnoresNext(cluster[1..], next); }
  }

  /** Whether a token carries a body does not depend on the token after it. */
  lemma ClusterBodyIgnoresNext(tok: string, next: Option<string>)
    ensures ClassifyShortCluster(tok, next).Body? <==> ClassifyShortCluster(tok, None).Body?
  {
    if StartsWith(tok, "-") { BodyIgnoresNext(tok[1..], next); }
  }

  lemma {:induction false} CollectMembers(ts: seq<string>, n: nat, at: (string, Option<string>) -> seq<string>)
    requires n <= |ts|
    ensures forall m :: m in Collect(ts, n, at) <==> exists i :: 0 <= i < n && m in at(ts[i], NextOf(ts, i))
  {
    if n > 0 { CollectMembers(ts, n - 1, at); }
  }

  /** No body and only read methods. */
  predicate ProvablyRead(ts: seq<string>) {
    (forall i | 0 <= i < |ts| :: !BodyAt(ts[i])) && forall m | m in Methods(ts) :: IsRead(m)
  }

  lemma ReadIffNoSuspect(ts: seq<string>)
    ensures ProvablyRead(ts) <==> Clean(ts, Suspicious)
  {
    CollectMembers(ts, |ts|, MethodsAt);
    if ProvablyRead(ts) {
      forall i | 0 <= i < |ts|
        ensures !Suspicious(ts[i], NextOf(ts, i))
      {
        forall m | m in MethodsAt(ts[i], NextOf(ts, i)) ensures IsRead(m) {
          assert m in Methods(ts);
        }
      }
    }
    if forall i | 0 <= i < |ts| :: !Suspicious(ts[i], NextOf(ts, i)) {
      forall m | m in Methods(ts)
        ensures IsRead(m)
      {
        var i :| 0 <= i < |ts| && m in MethodsAt(ts[i], NextOf(ts, i));
        assert !Suspicious(ts[i], NextOf(ts, i));
      }
      forall i | 0 <= i < |ts| ensures !BodyAt(ts[i]) { assert !Suspicious(ts[i], NextOf(ts, i)); }
    }
  }

  // The verdict --------------------------------------------------------------

  function Joined(ts: seq<string>): string { LowerAll(Join(ts, " ")) }

  function PermissionPhrase(verb: string): string { "security" + " " + ("permission" + " " + verb) }

  function MembershipPhrase(verb: string): string { "security" + " " + ("group" + " " + ("membership" + " " + verb)) }

  /** The mutating subcommands. */
  predicate IsPhrase(n: string) {
    || n == PermissionPhrase("update") || n == PermissionPhrase("reset")
    || n == MembershipPhrase("add") || n == MembershipPhrase("remove")
  }

  /** The access-control REST surfaces. */
  predicate IsSurface(n: string) {
    || n == "accesscontrolentries" || n == "accesscontrollists" || n == "/_apis/accesscontrol"
    || n == "securitynamespaces" || n == "/_apis/graph/memberships"
  }

  ghost predicate SaysMutation(joined: string) { exists n :: IsPhrase(n) && Contains(joined, n) }

  ghost predicate TouchesAcl(joined: string) { exists n :: IsSurface(n) && Contains(joined, n) }

  ghost predicate IsMutation(args: seq<string>) {
    SaysMutation(Joined(args)) || (TouchesAcl(Joined(args)) && !ProvablyRead(args))
  }

  // Closure under context ----------------------------------------------------

  lemma JoinAfter(pre: seq<string>, args: seq<string>, x: string)
    requires args != [] && x == if pre == [] then "" else Join(pre, " ") + " "
    ensures Join(pre + args, " ") == x + Join(args, " ")
  {
    if pre == [] {
      assert pre + args == args && "" + Join(args, " ") == Join(args, " ");
    } else {
      JoinConcat(pre, args, " ");
    }
  }

  lemma JoinBefore(args: seq<string>, post: seq<string>, y: string)
    requires args != [] && y == if post == [] then "" else " " + Join(post, " ")
    ensures Join(args + post, " ") == Join(args, " ") + y
  {
    if post == [] {
      assert args + post == args && Join(args, " ") + "" == Join(args, " ");
    } else {
      JoinConcat(args, post, " ");
      assert Join(args, " ") + " " + Join(post, " ") == Join(args, " ") + y;
    }
  }

  lemma JoinThree(pre: seq<string>, args: seq<string>, post: seq<string>, x: string, y: string)
    requires args != []
    requires x == if pre == [] then "" else Join(pre, " ") + " "
    requires y == if post == [] then "" else " " + Join(post, " ")
    ensures Join(pre + args + post, " ") == x + Join(args, " ") + y
  {
    JoinAfter(pre, args, x);
    JoinBefore(pre + args, post, y);
  }

  lemma JoinInside(pre: seq<string>, args: seq<string>, post: seq<string>) returns (a: string, b: string)
    requires args != []
    ensures Joined(pre + args + post) == a + Joined(args) + b
    ensures a == "" || a == Joined(pre) + " "
    ensures b == "" || b == " " + Joined(post)
    ensures (a == "" <==> pre == []) && (b == "" <==> post == [])
  {
    var x := if pre == [] then "" else Join(pre, " ") + " ";
    var y := if post == [] then "" else " " + Join(post, " ");
    JoinThree(pre, args, post, x, y);
    a, b := LowerAll(x), LowerAll(y);
    LowerAllConcat(x + Join(args, " "), y);
    LowerAllConcat(x, Join(args, " "));
    if pre != [] { LowerAllConcat(Join(pre, " "), " "); }
    if post != [] { LowerAllConcat(" ", Join(post, " ")); }
    assert LowerAll(" ") == " ";
  }

  lemma ContainsInContext(pre: seq<string>, args: seq<string>, post: seq<string>, n: string)
    requires n != "" && Contains(Joined(args), n)
    ensures Contains(Joined(pre + args + post), n)
  {
    assert args != [];
    var a, b := JoinInside(pre, args, post);
    ContainsInside(a, Joined(args), b, n);
  }

  lemma {:induction false} LastMethodStays(cluster: string, next: Option<string>)
    requires ScanCluster(cluster, None).Method?
    ensures ScanCluster(cluster, next) == ScanCluster(cluster, None)
  {
    if cluster[0] != 'X' { LastMethodStays(cluster[1..], next); }
  }

  /** A token with nothing after it says no more once something follows. */
  lemma SuspectStays(tok: string, next: Option<string>)
    requires Suspicious(tok, None)
    ensures Suspicious(tok, next)
  {
    if !BodyAt(tok) {
      var m :| m in MethodsAt(tok, None) && !IsRead(m);
      if ClassifyShortCluster(tok, None).Method? { LastMethodStays(tok[1..], next); }
      assert m in MethodsAt(tok, next);
    }
  }

  /** No token of `ts` is suspect, each judged with the token after it. */
  ghost predicate Clean(ts: seq<string>, suspect: (string, Option<string>) -> bool) {
    forall i | 0 <= i < |ts| :: !suspect(ts[i], NextOf(ts, i))
  }

  lemma SuspectInContext(pre: seq<string>, args: seq<string>, post: seq<string>,
                         suspect: (string, Option<string>) -> bool)
    requires forall tok, next | suspect(tok, None) :: suspect(tok, next)
    requires !Clean(args, suspect)
    ensures !Clean(pre + args + post, suspect)
  {
    var i :| 0 <= i < |args| && suspect(args[i], NextOf(args, i));
    var ts := pre + args + post;
    var j := |pre| + i;
    assert ts[j] == args[i];
    assert i + 1 < |args| ==> NextOf(ts, j) == NextOf(args, i);
    assert suspect(ts[j], NextOf(ts, j));
  }

  /** A flagged command stays flagged with any tokens before and after it. */
  lemma FlaggedStaysFlagged(pre: seq<string>, args: seq<string>, post: seq<string>)
    requires IsMutation(args)
    ensures IsMutation(pre + args + post)
  {
    if SaysMutation(Joined(args)) {
      var n :| IsPhrase(n) && Contains(Joined(args), n);
      PhraseShape(n);
      ContainsInContext(pre, args, post, n);
    } else {
      var n :| IsSurface(n) && Contains(Joined(args), n);
      ContainsInContext(pre, args, post, n);
      forall tok, next | Suspicious(tok, None) ensures Suspicious(tok, next) { SuspectStays(tok, next); }
      ReadIffNoSuspect(args);
      SuspectInContext(pre, args, post, Suspicious);
      ReadIffNoSuspect(pre + args + post);
    }
  }

  // Reordering method options --------------------------------------------------

  /** A method option with its value as the next token. */
  datatype Pair = Pair(flag: string, value: string)

  /** The scan reaches the method letter at the very end, so the method is the next token. */
  predicate TakesNext(cluster: string) {
    && cluster != ""
    && if cluster[0] == 'X' then cluster[1..] == ""
       else cluster[0] != 'd' && cluster[0] != 'F' && cluster[0] != 'T' && TakesNext(cluster[1..])
  }

  /** A short-option cluster such as `-X` or `-sX` that takes its method from the next token. */
  predicate IsMethodCluster(f: string) {
    && StartsWith(f, "-") && !StartsWith(f, "--")
    && !StartsWith(f[1..], "m") && !StartsWith(f[1..], "b") && TakesNext(f[1..])
  }

  predicate IsMethodFlag(f: string) { TakesMethod(f) || IsMethodCluster(f) }

  ghost predicate AllMethodPairs(ps: seq<Pair>) { forall p | p in ps :: IsMethodFlag(p.flag) }

  predicate IsFlagEnd(c: char) { c == 'd' || c == 't' || c == 'm' || c == 'x' }

  predicate IsReadStart(c: char, d: char) { (c == 'g' && d == 'e') || c == 'h' || c == 'o' }

  predicate IsReadEnd(c: char) { c == 't' || c == 'd' || c == 's' }

  lemma {:induction false} TakesNextEnd(cluster: string)
    requires TakesNext(cluster)
    ensures cluster[|cluster| - 1] == 'X'
  {
    if cluster[0] != 'X' { TakesNextEnd(cluster[1..]); }
  }

  lemma {:induction false} TakesNextScan(cluster: string, v: string)
    requires TakesNext(cluster)
    ensures ScanCluster(cluster, Some(v)) == Method(StripQuotes(v))
  {
    if cluster[0] != 'X' { TakesNextScan(cluster[1..], v); }
  }

  lemma {:induction false} OnlyTakesNext(cluster: string, v: string, w: string)
    requires !TakesNext(cluster)
    ensures ScanCluster(cluster, Some(v)) == ScanCluster(cluster, Some(w))
  {
    if cluster != "" && cluster[0] !in ['X', 'd', 'F', 'T'] { OnlyTakesNext(cluster[1..], v, w); }
  }

  /** A method flag takes the token after it as a method, and no other token looks at it. */
  lemma OnlyFlagsTakeNext(tok: string, v: string, w: string)
    ensures if IsMethodFlag(tok) then StripQuotes(v) in MethodsAt(tok, Some(v))
            else MethodsAt(tok, Some(v)) == MethodsAt(tok, Some(w))
  {
    if IsMethodFlag(tok) {
      FlagTakesNext(tok, v);
    } else if StartsWith(tok, "-") && !TakesNext(tok[1..]) {
      OnlyTakesNext(tok[1..], v, w);
    }
  }

  lemma FlagTakesNext(tok: string, v: string)
    requires IsMethodFlag(tok)
    ensures StripQuotes(v) in MethodsAt(tok, Some(v))
  {
    if IsMethodCluster(tok) { TakesNextScan(tok[1..], v); }
  }

  lemma FlagShape(f: string)
    requires IsMethodFlag(f)
    ensures |f| >= 2 && f[0] == '-' && IsFlagEnd(Lower(f[|f| - 1]))
  {
    if IsMethodCluster(f) {
      TakesNextEnd(f[1..]);
      assert f[..1][0] == f[0];
    } else {
      LongFlagShape(f);
    }
  }

  lemma LongFlagShape(f: string)
    requires TakesMethod(f)
    ensures |f| >= 2 && f[0] == '-' && IsFlagEnd(Lower(f[|f| - 1]))
  {
    if f == "--method" {
      assert f[|f| - 1] == 'd';
    } else if f == "--http-method" {
      assert f[|f| - 1] == 'd';
    } else if f == "--request" {
      assert f[|f| - 1] == 't';
    }
  }

  /** A flag is never a read method. */
  lemma FlagIsNoRead(f: string)
    requires IsMethodFlag(f)
    ensures StripQuotes(f) == f && !IsRead(f)
  {
    FlagShape(f);
    DashIsNoRead(f);
  }

  lemma DashIsNoRead(f: string)
    requires |f| >= 2 && f[0] == '-' && !IsQuote(f[|f| - 1])
    ensures StripQuotes(f) == f && !IsRead(f)
  {
    TrimByClean(f, IsQuote);
    if IsRead(f) { ReadShape(f); }
  }

  /** Whichever method flag follows a token, the token is as suspicious. */
  lemma {:induction false} ClusterBeforeFlag(cluster: string, f: string, g: string)
    requires IsMethodFlag(f) && IsMethodFlag(g)
    ensures var x, y := ScanCluster(cluster, Some(f)), ScanCluster(cluster, Some(g));
      x == y || (x == Method(f) && y == Method(g))
  {
    if cluster != "" {
      FlagIsNoRead(f);
      FlagIsNoRead(g);
      ClusterBeforeFlag(cluster[1..], f, g);
    }
  }

  lemma SuspectBeforeFlag(tok: string, f: string, g: string)
    requires IsMethodFlag(f) && IsMethodFlag(g) && Suspicious(tok, Some(f))
    ensures Suspicious(tok, Some(g))
  {
    FlagIsNoRead(f);
    FlagIsNoRead(g);
    ClusterBeforeFlag(if tok == "" then "" else tok[1..], f, g);
    if !BodyAt(tok) {
      var m :| m in MethodsAt(tok, Some(f)) && !IsRead(m);
      assert m in MethodsAt(tok, Some(g)) || g in MethodsAt(tok, Some(g));
    }
  }

  lemma ReadShape(m: string)
    requires IsRead(m)
    ensures |m| >= 3 && ' ' !in m
    ensures IsReadStart(Lower(m[0]), Lower(m[1])) && IsReadEnd(Lower(m[|m| - 1]))
  {
    var l := LowerAll(m);
    assert |l| == |m| && forall i | 0 <= i < |m| :: l[i] == Lower(m[i]);
    assert ' ' !in l;
  }

  /** A value that is a read method once its quotes are off starts with a quote or a letter of
      the method, and ends likewise. */
  lemma ReadValueShape(v: string)
    requires IsRead(StripQuotes(v))
    ensures |v| >= 2 && ' ' !in v && v[0] != '-' && v[0] != 'm'
    ensures IsReadStart(Lower(v[0]), Lower(v[1])) || IsQuote(v[0])
    ensures IsReadEnd(Lower(v[|v| - 1])) || IsQuote(v[|v| - 1])
  {
    var pre, post := TrimByParts(v, IsQuote);
    ReadShape(StripQuotes(v));
    QuotedShape(pre, StripQuotes(v), post);
  }

  lemma QuotedShape(pre: string, m: string, post: string)
    requires AllOf(pre, IsQuote) && AllOf(post, IsQuote) && |m| >= 2
    ensures var v := pre + m + post;
      && (if pre == "" then v[0] == m[0] && v[1] == m[1] else IsQuote(v[0]))
      && (if post == "" then v[|v| - 1] == m[|m| - 1] else IsQuote(v[|v| - 1]))
      && (' ' in v ==> ' ' in m)
  {
    var v := pre + m + post;
    assert forall c | c in v :: c in pre || c in m || c in post;
    assert post != "" ==> v[|v| - 1] == post[|post| - 1];
  }

  lemma NoPrefix(v: string, p: string)
    requires v != "" && p != "" && v[0] != p[0]
    ensures !StartsWith(v, p) && v != p
  {
    assert forall k | 0 < k <= |v| :: v[..k][0] == v[0];
  }

  lemma BodyFlagsDashed(f: string)
    requires f in BODY_FLAGS
    ensures f != "" && f[0] == '-' && (f + "=")[0] == '-'
  {
  }

  /** A token that starts neither with `-` nor with `m` says nothing, whatever follows it. */
  lemma PlainTokenInert(v: string, next: Option<string>)
    requires v != "" && v[0] != '-' && v[0] != 'm'
    ensures MethodsAt(v, next) == [] && !BodyAt(v)
  {
    NoPrefix(v, "-");
    NoPrefix(v, "-m");
    NoPrefix(v, "-b");
    NoPrefix(v, "--method");
    NoPrefix(v, "--http-method");
    NoPrefix(v, "--request");
    NoPrefix(v, "--method=");
    NoPrefix(v, "--http-method=");
    NoPrefix(v, "--request=");
    NoPrefix(v, "method=");
    forall f | f in BODY_FLAGS ensures f != v && !StartsWith(v, f + "=") {
      BodyFlagsDashed(f);
      NoPrefix(v, f + "=");
    }
  }

  /** A read value says nothing itself, whatever follows it. */
  lemma ReadValueInert(v: string, next: Option<string>)
    requires IsRead(StripQuotes(v))
    ensures !Suspicious(v, next)
  {
    ReadValueShape(v);
    PlainTokenInert(v, next);
  }

  // A clean command line, split up ---------------------------------------------

  function NextOr(ts: seq<string>, i: nat, after: string): Option<string> {
    if i + 1 < |ts| then Some(ts[i + 1]) else Some(after)
  }

  ghost predicate CleanFront(ts: seq<string>, after: string, suspect: (string, Option<string>) -> bool) {
    forall i | 0 <= i < |ts| :: !suspect(ts[i], NextOr(ts, i, after))
  }

  lemma CleanConcat(x: seq<string>, y: seq<string>, suspect: (string, Option<string>) -> bool)
    requires y != []
    ensures Clean(x + y, suspect) <==> CleanFront(x, y[0], suspect) && Clean(y, suspect)
  {
    var ts := x + y;
    assert forall i | 0 <= i < |x| :: NextOf(ts, i) == NextOr(x, i, y[0]);
    assert forall i | 0 <= i < |y| :: NextOf(ts, |x| + i) == NextOf(y, i);
    if Clean(ts, suspect) {
      forall i | 0 <= i < |x| ensures !suspect(x[i], NextOr(x, i, y[0])) { assert !suspect(ts[i], NextOf(ts, i)); }
      forall i | 0 <= i < |y| ensures !suspect(y[i], NextOf(y, i)) {
        assert !suspect(ts[|x| + i], NextOf(ts, |x| + i));
      }
    }
    if CleanFront(x, y[0], suspect) && Clean(y, suspect) {
      forall i | 0 <= i < |ts| ensures !suspect(ts[i], NextOf(ts, i)) {
        if i >= |x| {
          assert !suspect(y[i - |x|], NextOf(y, i - |x|));
          assert NextOf(ts, |x| + (i - |x|)) == NextOf(y, i - |x|);
        } else {
          assert !suspect(x[i], NextOr(x, i, y[0]));
        }
      }
    }
  }

  ghost predicate CleanFlags(ps: seq<Pair>, suspect: (string, Option<string>) -> bool) {
    forall p | p in ps :: !suspect(p.flag, Some(p.value))
  }

  lemma CleanFlagsCons(ps: seq<Pair>, suspect: (string, Option<string>) -> bool)
    requires ps != []
    ensures CleanFlags(ps, suspect) <==> !suspect(ps[0].flag, Some(ps[0].value)) && CleanFlags(ps[1..], suspect)
  {
    assert ps == [ps[0]] + ps[1..];
  }

  /** Once a flag is clean with its value, the value is clean whatever follows. */
  ghost predicate ValueInert(p: Pair, suspect: (string, Option<string>) -> bool) {
    !suspect(p.flag, Some(p.value)) ==> forall next :: !suspect(p.value, next)
  }

  lemma CleanPair(p: Pair, rest: seq<string>, suspect: (string, Option<string>) -> bool)
    requires ValueInert(p, suspect)
    ensures Clean([p.flag, p.value] + rest, suspect) <==> !suspect(p.flag, Some(p.value)) && Clean(rest, suspect)
  {
    CleanTwo(p.flag, p.value, rest, suspect);
  }

  lemma CleanTwo(f: string, v: string, rest: seq<string>, suspect: (string, Option<string>) -> bool)
    ensures Clean([f, v] + rest, suspect) <==>
      !suspect(f, Some(v)) && !suspect(v, NextOf([f, v] + rest, 1)) && Clean(rest, suspect)
  {
    var ts := [f, v] + rest;
    assert NextOf(ts, 0) == Some(v);
    if rest == [] {
      assert ts == [f, v];
      assert Clean(ts, suspect) ==> !suspect(ts[0], NextOf(ts, 0)) && !suspect(ts[1], NextOf(ts, 1));
    } else {
      CleanConcat([f, v], rest, suspect);
      var x := [f, v];
      assert NextOr(x, 0, rest[0]) == Some(v) && NextOr(x, 1, rest[0]) == Some(rest[0]) == NextOf(ts, 1);
      assert CleanFront(x, rest[0], suspect) ==>
        !suspect(x[0], NextOr(x, 0, rest[0])) && !suspect(x[1], NextOr(x, 1, rest[0]));
    }
  }

  // Pairs in slots ---------------------------------------------------------------

  /** A command line with the pairs in the slots between its other tokens. */
  function Slotted(segs: seq<seq<string>>, ps: seq<Pair>): seq<string>
    requires |segs| == |ps| + 1
  {
    if ps == [] then segs[0] else segs[0] + ([ps[0].flag, ps[0].value] + Slotted(segs[1..], ps[1..]))
  }

  /** Each segment but the last is clean before the flag `f`, and the last one by itself. */
  ghost predicate CleanSegs(segs: seq<seq<string>>, f: string, suspect: (string, Option<string>) -> bool)
    requires segs != []
  {
    && (forall i | 0 <= i < |segs| - 1 :: CleanFront(segs[i], f, suspect))
    && Clean(segs[|segs| - 1], suspect)
  }

  lemma CleanSegsCons(segs: seq<seq<string>>, f: string, suspect: (string, Option<string>) -> bool)
    requires |segs| > 1
    ensures CleanSegs(segs, f, suspect) <==> CleanFront(segs[0], f, suspect) && CleanSegs(segs[1..], f, suspect)
  {
    assert forall i | 0 < i < |segs| :: segs[i] == segs[1..][i - 1];
  }

  /** Which flag stands behind a segment does not matter to it. */
  ghost predicate SameBefore(f: string, g: string, suspect: (string, Option<string>) -> bool) {
    forall a :: CleanFront(a, f, suspect) <==> CleanFront(a, g, suspect)
  }

  lemma {:induction false} CleanSlotted(segs: seq<seq<string>>, ps: seq<Pair>, f: string,
                                        suspect: (string, Option<string>) -> bool)
    requires |segs| == |ps| + 1
    requires forall i | 0 <= i < |ps| :: ValueInert(ps[i], suspect) && SameBefore(ps[i].flag, f, suspect)
    ensures Clean(Slotted(segs, ps), suspect) <==> CleanFlags(ps, suspect) && CleanSegs(segs, f, suspect)
  {
    if ps != [] {
      var rest := Slotted(segs[1..], ps[1..]);
      CleanSlotted(segs[1..], ps[1..], f, suspect);
      CleanFlagsCons(ps, suspect);
      CleanSegsCons(segs, f, suspect);
      CleanPair(ps[0], rest, suspect);
      CleanConcat(segs[0], [ps[0].flag, ps[0].value] + rest, suspect);
    }
  }

  lemma PairValueInert(p: Pair)
    requires IsMethodFlag(p.flag)
    ensures ValueInert(p, Suspicious)
  {
    forall next ensures !Suspicious(p.flag, Some(p.value)) ==> !Suspicious(p.value, next) {
      if !Suspicious(p.flag, Some(p.value)) {
        FlagSuspicious(p.flag, p.value);
        ReadValueInert(p.value, next);
      }
    }
  }

  /** A command with method pairs in its slots is provably a read exactly when each flag is clean
      with its value and the other tokens are clean, before any flag `f`. */
  lemma ReadWithPairs(segs: seq<seq<string>>, ps: seq<Pair>, f: string)
    requires |segs| == |ps| + 1 && AllMethodPairs(ps) && IsMethodFlag(f)
    ensures ProvablyRead(Slotted(segs, ps)) <==> CleanFlags(ps, Suspicious) && CleanSegs(segs, f, Suspicious)
  {
    forall i | 0 <= i < |ps|
      ensures ValueInert(ps[i], Suspicious) && SameBefore(ps[i].flag, f, Suspicious)
    {
      assert ps[i] in ps;
      PairValueInert(ps[i]);
      forall a ensures CleanFront(a, ps[i].flag, Suspicious) <==> CleanFront(a, f, Suspicious) {
        FrontBeforeFlag(a, ps[i].flag, f);
      }
    }
    CleanSlotted(segs, ps, f, Suspicious);
    ReadIffNoSuspect(Slotted(segs, ps));
  }

  /** The order of method pairs, wherever they stand, does not change whether a command is
      provably a read, and in a read every pair's value is a read method. */
  lemma ReadIgnoresPairOrder(segs: seq<seq<string>>, ps: seq<Pair>, qs: seq<Pair>)
    requires |segs| == |ps| + 1 && AllMethodPairs(ps) && multiset(ps) == multiset(qs)
    ensures |segs| == |qs| + 1 && (ProvablyRead(Slotted(segs, ps)) <==> ProvablyRead(Slotted(segs, qs)))
    ensures ProvablyRead(Slotted(segs, ps)) ==> forall p | p in ps :: IsRead(StripQuotes(p.value))
  {
    PairsPermuted(ps, qs);
    var f := "-m";
    ReadWithPairs(segs, ps, f);
    ReadWithPairs(segs, qs, f);
    if ProvablyRead(Slotted(segs, ps)) {
      forall p | p in ps ensures IsRead(StripQuotes(p.value)) { FlagSuspicious(p.flag, p.value); }
    }
  }

  lemma PairsPermuted(ps: seq<Pair>, qs: seq<Pair>)
    requires multiset(ps) == multiset(qs)
    ensures |ps| == |qs| && forall p :: p in ps <==> p in qs
  {
    assert |ps| == |multiset(ps)| == |multiset(qs)| == |qs|;
    assert forall p :: p in ps <==> p in multiset(ps);
    assert forall p :: p in qs <==> p in multiset(qs);
  }

  lemma FlagSuspicious(f: string, v: string)
    requires IsMethodFlag(f) && !Suspicious(f, Some(v))
    ensures IsRead(StripQuotes(v))
  {
    if TakesMethod(f) {
      NextIsMethod(f, v);
    } else {
      TakesNextScan(f[1..], v);
      ClusterMethodCounts(f, Some(v));
    }
  }

  lemma NextIsMethod(f: string, v: string)
    requires TakesMethod(f)
    ensures StripQuotes(v) in MethodsAt(f, Some(v))
  {
    assert MethodsAt(f, Some(v))[0] == StripQuotes(v);
  }

  lemma ClusterMethodCounts(tok: string, next: Option<string>)
    requires ClassifyShortCluster(tok, next).Method?
    ensures ClassifyShortCluster(tok, next).value in MethodsAt(tok, next)
  {
    var methods := MethodsAt(tok, next);
    assert methods[|methods| - 1] == ClassifyShortCluster(tok, next).value;
  }

  lemma FrontBeforeFlag(a: seq<string>, f: string, g: string)
    requires IsMethodFlag(f) && IsMethodFlag(g)
    ensures CleanFront(a, f, Suspicious) <==> CleanFront(a, g, Suspicious)
  {
    forall i | 0 <= i < |a|
      ensures Suspicious(a[i], NextOr(a, i, f)) <==> Suspicious(a[i], NextOr(a, i, g))
    {
      if i + 1 == |a| {
        if Suspicious(a[i], Some(f)) { SuspectBeforeFlag(a[i], f, g); }
        if Suspicious(a[i], Some(g)) { SuspectBeforeFlag(a[i], g, f); }
      }
    }
  }

  // Phrases and barrier tokens ---------------------------------------------------

  /** No occurrence of the phrase `n` crosses an edge of the token `t`: no word of `n` starts or
      ends the way `t` does. */
  ghost predicate Barrier(t: string, n: string) {
    && |t| >= 2 && n != "" && n[0] != ' ' && n[|n| - 1] != ' '
    && forall j | 0 < j < |n| && n[j] == ' ' ::
         n[j - 1] != t[|t| - 1] && j + 2 < |n| && !(n[j + 1] == t[0] && n[j + 2] == t[1])
  }

  lemma BarrierSplits(x: string, t: string, y: string, n: string, i: int)
    requires Barrier(t, n) && At(x + t + y, n, i)
    requires (x == "" || x[|x| - 1] == ' ') && (y == "" || y[0] == ' ')
    ensures i + |n| <= |x| || i >= |x| + |t| || |x| <= i <= i + |n| <= |x| + |t|
  {
    var s, p, q := x + t + y, |x|, |x| + |t|;
    assert forall k | i <= k < i + |n| :: s[k] == s[i..i + |n|][k - i] == n[k - i];
    forall k | i < k < i + |n| && s[k] == ' '
      ensures s[k - 1] != t[|t| - 1] && k + 2 < i + |n| && !(s[k + 1] == t[0] && s[k + 2] == t[1])
    {
      var j := k - i;
      assert n[j] == ' ' && n[j - 1] == s[k - 1] && n[j + 1] == s[k + 1] && n[j + 2] == s[k + 2];
    }
    assert n[0] == s[i];
    assert x != "" ==> s[p - 1] == ' ';
    assert s[p] == t[0] && s[p + 1] == t[1] && s[q - 1] == t[|t| - 1];
    assert y != "" ==> s[q] == ' ';
  }

  lemma WithoutTrailingSpace(x: string, n: string)
    requires n != "" && n[|n| - 1] != ' ' && Contains(x + " ", n)
    ensures Contains(x, n)
  {
    var i :| 0 <= i <= |x + " "| && At(x + " ", n, i);
    assert (x + " ")[i..i + |n|][|n| - 1] == (x + " ")[i + |n| - 1];
    assert (x + " ")[i..i + |n|] == x[i..i + |n|];
    assert At(x, n, i);
  }

  lemma WithoutLeadingSpace(y: string, n: string)
    requires n != "" && n[0] != ' ' && Contains(" " + y, n)
    ensures Contains(y, n)
  {
    var i :| 0 <= i <= |" " + y| && At(" " + y, n, i);
    assert (" " + y)[i..i + |n|][0] == (" " + y)[i];
    assert (" " + y)[i..i + |n|] == y[i - 1..i - 1 + |n|];
    assert At(y, n, i - 1);
  }

  lemma BarrierKeepsApart(a: seq<string>, t: string, b: seq<string>, n: string)
    requires Barrier(LowerAll(t), n) && Contains(Joined(a + [t] + b), n)
    ensures Contains(Joined(a), n) || Contains(LowerAll(t), n) || Contains(Joined(b), n)
  {
    var x, y := JoinInside(a, [t], b);
    var lt := LowerAll(t);
    assert Joined([t]) == lt;
    var i :| 0 <= i <= |x + lt + y| && At(x + lt + y, n, i);
    BarrierSplits(x, lt, y, n, i);
    InOnePart(x, lt, y, n, i);
    if Contains(x, n) {
      SideOfBarrier(x, Joined(a), n, true);
    } else if Contains(y, n) {
      SideOfBarrier(y, Joined(b), n, false);
    }
  }

  lemma SideOfBarrier(side: string, part: string, n: string, left: bool)
    requires n != "" && n[0] != ' ' && n[|n| - 1] != ' ' && Contains(side, n)
    requires side == "" || side == if left then part + " " else " " + part
    ensures Contains(part, n)
  {
    if left { WithoutTrailingSpace(part, n); } else { WithoutLeadingSpace(part, n); }
  }

  /** A phrase occurs around and inside a barrier token, never across its edges. */
  lemma BarrierToken(a: seq<string>, t: string, b: seq<string>, n: string)
    requires Barrier(LowerAll(t), n)
    ensures Contains(Joined(a + [t] + b), n) <==>
      Contains(Joined(a), n) || Contains(LowerAll(t), n) || Contains(Joined(b), n)
  {
    if Contains(Joined(a + [t] + b), n) { BarrierKeepsApart(a, t, b, n); }
    if Contains(Joined(a), n) {
      ContainsInContext([], a, [t] + b, n);
      assert [] + a + ([t] + b) == a + [t] + b;
    }
    if Contains(LowerAll(t), n) {
      assert Joined([t]) == LowerAll(t);
      ContainsInContext(a, [t], b, n);
    }
    if Contains(Joined(b), n) {
      ContainsInContext(a + [t], b, [], n);
      assert a + [t] + b + [] == a + [t] + b;
    }
  }

  lemma InOnePart(x: string, t: string, y: string, n: string, i: int)
    requires At(x + t + y, n, i)
    requires i + |n| <= |x| || i >= |x| + |t| || |x| <= i <= i + |n| <= |x| + |t|
    ensures Contains(x, n) || Contains(t, n) || Contains(y, n)
  {
    var s := x + t + y;
    if i + |n| <= |x| {
      assert s[i..i + |n|] == x[i..i + |n|];
      assert At(x, n, i);
    } else if i >= |x| + |t| {
      var k := i - |x| - |t|;
      assert s[i..i + |n|] == y[k..k + |n|];
      assert At(y, n, k);
    } else {
      assert s[i..i + |n|] == t[i - |x|..i - |x| + |n|];
      assert At(t, n, i - |x|);
    }
  }

  /** The characters that stand before a space in a phrase. */
  predicate EndsPhraseWord(c: char) { c == 'y' || c == 'n' || c == 'p' }

  /** The first two characters of a later word of a phrase. */
  predicate StartsPhraseWord(c: char, d: char) {
    || (c == 'p' && d == 'e') || (c == 'u' && d == 'p') || (c == 'r' && d == 'e') || (c == 'a' && d == 'd')
    || (c == 'g' && d == 'r') || (c == 'm' && d == 'e')
  }

  /** Every space stands between a phrase word's end and a phrase word's start. */
  ghost predicate Spaced(n: string) {
    && |n| >= 2 && n[0] != ' ' && n[|n| - 1] != ' '
    && forall j | 0 <= j < |n| && n[j] == ' ' ::
         0 < j && j + 2 < |n| && EndsPhraseWord(n[j - 1]) && StartsPhraseWord(n[j + 1], n[j + 2])
  }

  predicate IsWord(w: string) { |w| >= 2 && ' ' !in w }

  lemma WordSpaced(w: string)
    requires IsWord(w)
    ensures Spaced(w)
  {
    assert forall i | 0 <= i < |w| :: w[i] in w;
  }

  lemma Shifted(w: string, n: string, i: nat)
    requires i < |n|
    ensures (w + " " + n)[|w| + 1 + i] == n[i]
  {
  }

  lemma PrependWord(w: string, n: string)
    requires IsWord(w) && EndsPhraseWord(w[|w| - 1])
    requires Spaced(n) && StartsPhraseWord(n[0], n[1])
    ensures Spaced(w + " " + n)
  {
    var s, k := w + " " + n, |w|;
    assert s[k] == ' ';
    Shifted(w, n, |n| - 1);
    assert s[0] == w[0] && w[0] in w;
    assert forall j | 0 <= j < k :: s[j] in w;
    forall j | 0 <= j < |s| && s[j] == ' '
      ensures 0 < j && j + 2 < |s| && EndsPhraseWord(s[j - 1]) && StartsPhraseWord(s[j + 1], s[j + 2])
    {
      if j > k {
        var i := j - k - 1;
        Shifted(w, n, i);
        assert n[i] == ' ';
        Shifted(w, n, i - 1);
        Shifted(w, n, i + 1);
        Shifted(w, n, i + 2);
      } else {
        Shifted(w, n, 0);
        Shifted(w, n, 1);
      }
    }
  }

  lemma PermissionSpaced(verb: string)
    requires IsWord(verb) && StartsPhraseWord(verb[0], verb[1])
    ensures Spaced(PermissionPhrase(verb))
  {
    WordSpaced(verb);
    assert "permission"[9] == 'n' && "security"[7] == 'y';
    PrependWord("permission", verb);
    var n := "permission" + " " + verb;
    assert n[0] == 'p' && n[1] == 'e';
    PrependWord("security", n);
  }

  lemma MembershipSpaced(verb: string)
    requires IsWord(verb) && StartsPhraseWord(verb[0], verb[1])
    ensures Spaced(MembershipPhrase(verb))
  {
    WordSpaced(verb);
    assert "membership"[9] == 'p' && "group"[4] == 'p' && "security"[7] == 'y';
    PrependWord("membership", verb);
    var m := "membership" + " " + verb;
    assert m[0] == 'm' && m[1] == 'e';
    PrependWord("group", m);
    var n := "group" + " " + m;
    assert n[0] == 'g' && n[1] == 'r';
    PrependWord("security", n);
  }

  lemma PhraseShape(n: string)
    requires IsPhrase(n)
    ensures Spaced(n)
  {
    if n == PermissionPhrase("update") {
      PermissionSpaced("update");
    } else if n == PermissionPhrase("reset") {
      PermissionSpaced("reset");
    } else if n == MembershipPhrase("add") {
      MembershipSpaced("add");
    } else {
      MembershipSpaced("remove");
    }
  }

  lemma BarrierByEdges(t: string, n: string)
    requires Spaced(n) && |t| >= 2
    requires !EndsPhraseWord(Lower(t[|t| - 1])) && !StartsPhraseWord(Lower(t[0]), Lower(t[1]))
    ensures Barrier(LowerAll(t), n)
  {
  }

  lemma FlagIsBarrier(f: string, n: string)
    requires IsMethodFlag(f) && Spaced(n)
    ensures Barrier(LowerAll(f), n)
  {
    FlagShape(f);
    BarrierByEdges(f, n);
  }

  lemma ReadValueIsBarrier(v: string, n: string)
    requires IsRead(StripQuotes(v)) && Spaced(n)
    ensures Barrier(LowerAll(v), n)
  {
    ReadValueEdges(v);
    BarrierByEdges(v, n);
  }

  lemma ReadValueEdges(v: string)
    requires IsRead(StripQuotes(v))
    ensures |v| >= 2
    ensures !EndsPhraseWord(Lower(v[|v| - 1])) && !StartsPhraseWord(Lower(v[0]), Lower(v[1]))
  {
    ReadValueShape(v);
    EdgeChars(v[0], v[1], v[|v| - 1]);
  }

  lemma EdgeChars(c: char, d: char, e: char)
    requires IsReadStart(Lower(c), Lower(d)) || IsQuote(c)
    requires IsReadEnd(Lower(e)) || IsQuote(e)
    ensures !EndsPhraseWord(Lower(e)) && !StartsPhraseWord(Lower(c), Lower(d))
  {
  }

  /** The phrase occurs in a segment, in a flag or in a value. */
  ghost predicate Somewhere(segs: seq<seq<string>>, ps: seq<Pair>, n: string) {
    || (exists i :: 0 <= i < |segs| && Contains(Joined(segs[i]), n))
    || exists p :: p in ps && (Contains(LowerAll(p.flag), n) || Contains(LowerAll(p.value), n))
  }

  lemma SomewhereCons(segs: seq<seq<string>>, ps: seq<Pair>, n: string)
    requires segs != [] && ps != []
    ensures Somewhere(segs, ps, n) <==>
      || Contains(Joined(segs[0]), n) || Contains(LowerAll(ps[0].flag), n) || Contains(LowerAll(ps[0].value), n)
      || Somewhere(segs[1..], ps[1..], n)
  {
    assert segs == [segs[0]] + segs[1..] && ps == [ps[0]] + ps[1..];
    assert forall i | 0 < i < |segs| :: segs[i] == segs[1..][i - 1];
    assert forall p :: p in ps <==> p == ps[0] || p in ps[1..];
  }

  ghost predicate BarrierPair(p: Pair, n: string) { Barrier(LowerAll(p.flag), n) && Barrier(LowerAll(p.value), n) }

  lemma BarrierPairApart(seg: seq<string>, p: Pair, rest: seq<string>, n: string)
    requires BarrierPair(p, n)
    ensures Contains(Joined(seg + ([p.flag, p.value] + rest)), n) <==>
      || Contains(Joined(seg), n) || Contains(LowerAll(p.flag), n) || Contains(LowerAll(p.value), n)
      || Contains(Joined(rest), n)
  {
    assert seg + ([p.flag, p.value] + rest) == seg + [p.flag] + ([p.value] + rest);
    BarrierToken(seg, p.flag, [p.value] + rest, n);
    assert [p.value] + rest == [] + [p.value] + rest;
    BarrierToken([], p.value, rest, n);
    NotInNothing(n);
  }

  lemma {:induction false} BarrierPairsApart(segs: seq<seq<string>>, ps: seq<Pair>, n: string)
    requires |segs| == |ps| + 1 && forall i | 0 <= i < |ps| :: BarrierPair(ps[i], n)
    ensures Contains(Joined(Slotted(segs, ps)), n) <==> Somewhere(segs, ps, n)
  {
    if ps != [] {
      BarrierPairsApart(segs[1..], ps[1..], n);
      BarrierPairApart(segs[0], ps[0], Slotted(segs[1..], ps[1..]), n);
      SomewhereCons(segs, ps, n);
    }
  }

  /** Method pairs with read values neither make nor break a phrase, wherever they stand. */
  lemma PhraseIgnoresReadPairs(segs: seq<seq<string>>, ps: seq<Pair>, n: string)
    requires |segs| == |ps| + 1 && Spaced(n)
    requires AllMethodPairs(ps) && forall p | p in ps :: IsRead(StripQuotes(p.value))
    ensures Contains(Joined(Slotted(segs, ps)), n) <==> Somewhere(segs, ps, n)
  {
    forall i | 0 <= i < |ps|
      ensures BarrierPair(ps[i], n)
    {
      assert ps[i] in ps;
      FlagIsBarrier(ps[i].flag, n);
      ReadValueIsBarrier(ps[i].value, n);
    }
    BarrierPairsApart(segs, ps, n);
  }

  lemma NotInNothing(n: string)
    requires n != ""
    ensures !Contains(Joined([]), n)
  {
  }

  // Surfaces live in single tokens -------------------------------------------

  lemma NotInSpace(n: string)
    requires ' ' !in n && n != ""
    ensures !Contains(" ", n)
  {
    assert n[0] in n && " "[0..1] == [' '];
  }

  lemma SpacelessSplits(x: string, y: string, n: string)
    requires ' ' !in n && n != "" && Contains(x + " " + y, n)
    ensures Contains(x, n) || Contains(y, n)
  {
    var s := x + " " + y;
    var i :| 0 <= i <= |s| && At(s, n, i);
    assert forall j | 0 <= j < |n| :: n[j] == s[i..i + |n|][j] == s[i + j] && n[j] in n;
    assert s[|x|] == ' ';
    assert forall k | i <= k < i + |n| :: s[k] == n[k - i] && s[k] != ' ';
    NotInSpace(n);
    InOnePart(x, " ", y, n, i);
  }

  /** A phrase without spaces occurs in the joined line exactly when it occurs in a token. */
  lemma {:induction false} SurfaceInToken(ts: seq<string>, n: string)
    requires ' ' !in n && n != ""
    ensures Contains(Joined(ts), n) <==> exists t :: t in ts && Contains(LowerAll(t), n)
  {
    if ts != [] {
      var rest := ts[1..];
      assert ts == [ts[0]] + rest;
      SurfaceInToken(rest, n);
      if rest == [] {
        assert ts == [ts[0]];
      } else {
        var x, y := JoinInside([ts[0]], rest, []);
        assert [ts[0]] + rest + [] == ts && Joined([ts[0]]) == LowerAll(ts[0]);
        assert Joined(ts) == LowerAll(ts[0]) + " " + Joined(rest);
        if Contains(Joined(ts), n) { SpacelessSplits(LowerAll(ts[0]), Joined(rest), n); }
        if Contains(LowerAll(ts[0]), n) {
          ContainsInside("", LowerAll(ts[0]), " " + Joined(rest), n);
          assert "" + LowerAll(ts[0]) + (" " + Joined(rest)) == Joined(ts);
        }
        if Contains(Joined(rest), n) {
          ContainsInside(LowerAll(ts[0]) + " ", Joined(rest), "", n);
          assert LowerAll(ts[0]) + " " + Joined(rest) + "" == Joined(ts);
        }
      }
    }
  }

  ghost predicate TokenSomewhere(segs: seq<seq<string>>, ps: seq<Pair>, t: string) {
    (exists i :: 0 <= i < |segs| && t in segs[i]) || exists p :: p in ps && (t == p.flag || t == p.value)
  }

  lemma {:induction false} SlottedTokens(segs: seq<seq<string>>, ps: seq<Pair>, t: string)
    requires |segs| == |ps| + 1
    ensures t in Slotted(segs, ps) <==> TokenSomewhere(segs, ps, t)
  {
    if ps != [] {
      SlottedTokens(segs[1..], ps[1..], t);
      assert forall i | 0 < i < |segs| :: segs[i] == segs[1..][i - 1];
      assert forall p :: p in ps <==> p == ps[0] || p in ps[1..];
    }
  }

  lemma SurfaceShape(n: string)
    requires IsSurface(n)
    ensures n != "" && ' ' !in n
  {
  }

  lemma TouchIgnoresTokenOrder(ts: seq<string>, us: seq<string>)
    requires forall t :: t in ts <==> t in us
    ensures TouchesAcl(Joined(ts)) <==> TouchesAcl(Joined(us))
  {
    forall n | IsSurface(n)
      ensures Contains(Joined(ts), n) <==> Contains(Joined(us), n)
    {
      SurfaceShape(n);
      SurfaceInToken(ts, n);
      SurfaceInToken(us, n);
    }
  }

  /** On an access-control target, reordering whole method-option pairs among the slots where
      they stand never changes the verdict. */
  lemma VerdictIgnoresPairOrder(segs: seq<seq<string>>, ps: seq<Pair>, qs: seq<Pair>)
    requires |segs| == |ps| + 1 && AllMethodPairs(ps) && multiset(ps) == multiset(qs)
    requires TouchesAcl(Joined(Slotted(segs, ps)))
    ensures |segs| == |qs| + 1 && (IsMutation(Slotted(segs, ps)) <==> IsMutation(Slotted(segs, qs)))
  {
    PairsPermuted(ps, qs);
    var ts, us := Slotted(segs, ps), Slotted(segs, qs);
    forall t ensures t in ts <==> t in us {
      SlottedTokens(segs, ps, t);
      SlottedTokens(segs, qs, t);
    }
    TouchIgnoresTokenOrder(ts, us);
    ReadIgnoresPairOrder(segs, ps, qs);
    if ProvablyRead(ts) { SaysIgnoresPairOrder(segs, ps, qs); }
  }

  lemma PhraseIgnoresPairOrder(segs: seq<seq<string>>, ps: seq<Pair>, qs: seq<Pair>, n: string)
    requires |segs| == |ps| + 1 == |qs| + 1 && AllMethodPairs(ps) && forall p :: p in ps <==> p in qs
    requires Spaced(n) && forall p | p in ps :: IsRead(StripQuotes(p.value))
    ensures Contains(Joined(Slotted(segs, ps)), n) <==> Contains(Joined(Slotted(segs, qs)), n)
  {
    PhraseIgnoresReadPairs(segs, ps, n);
    PhraseIgnoresReadPairs(segs, qs, n);
  }

  lemma SaysIgnoresPairOrder(segs: seq<seq<string>>, ps: seq<Pair>, qs: seq<Pair>)
    requires |segs| == |ps| + 1 == |qs| + 1 && AllMethodPairs(ps) && forall p :: p in ps <==> p in qs
    requires forall p | p in ps :: IsRead(StripQuotes(p.value))
    ensures SaysMutation(Joined(Slotted(segs, ps))) <==> SaysMutation(Joined(Slotted(segs, qs)))
  {
    forall n | IsPhrase(n)
      ensures Contains(Joined(Slotted(segs, ps)), n) <==> Contains(Joined(Slotted(segs, qs)), n)
    {
      PhraseShape(n);
      PhraseIgnoresPairOrder(segs, ps, qs, n);
    }
  }

  // Moving a pair ------------------------------------------------------------------

  const PERMISSION: seq<string> := ["security", "permission"]

  const TARGET: seq<string> := ["update", "accesscontrollists"]

  lemma LowerWords()
    ensures LowerAll("security") == "security" && LowerAll("permission") == "permission"
    ensures LowerAll("update") == "update" && LowerAll("accesscontrollists") == "accesscontrollists"
  {
  }

  lemma JoinedWords(u: string, v: string, w: string)
    requires LowerAll(u) == u && LowerAll(v) == v && LowerAll(w) == w
    ensures Joined([u, v]) == u + " " + v && Joined([u, v, w]) == u + " " + (v + " " + w)
  {
    var a, b := JoinInside([u], [v], []);
    assert [u] + [v] + [] == [u, v];
    var c, d := JoinInside([u], [v, w], []);
    assert [u] + [v, w] + [] == [u, v, w];
    var e, f := JoinInside([v], [w], []);
    assert [v] + [w] + [] == [v, w];
  }

  lemma PhraseIsLong(n: string)
    requires IsPhrase(n)
    ensures |n| >= 25 && n[0] == 's' && n[8] == ' '
  {
  }

  lemma NotInHalves(n: string)
    requires IsPhrase(n)
    ensures !Contains(Joined(PERMISSION), n) && !Contains(Joined(TARGET), n)
  {
    PhraseIsLong(n);
    LowerWords();
    JoinedWords("security", "permission", "update");
    JoinedWords("update", "accesscontrollists", "update");
    TooLate("security permission", n);
    TooLate("update accesscontrollists", n);
  }

  lemma TooLate(t: string, n: string)
    requires |n| >= 25 && n[0] == 's' && (|t| < 25 || (|t| == 25 && t[0] != 's'))
    ensures !Contains(t, n)
  {
    assert |t| >= 25 ==> t[0..25][0] == t[0];
    assert |t| >= |n| ==> t[0..|n|][0] == t[0];
  }

  lemma OccurrenceMembers(s: string, n: string, c: char)
    requires Contains(s, n) && c in n
    ensures c in s
  {
    var i :| 0 <= i <= |s| && At(s, n, i);
    var j :| 0 <= j < |n| && n[j] == c;
    assert s[i..i + |n|][j] == s[i + j];
  }

  lemma NotInSpaceless(t: string, n: string)
    requires ' ' !in t && ' ' in n
    ensures !Contains(LowerAll(t), n)
  {
    var l := LowerAll(t);
    assert forall k | 0 <= k < |t| :: t[k] in t && l[k] == Lower(t[k]) && l[k] != ' ';
    if Contains(l, n) { OccurrenceMembers(l, n, ' '); }
  }

  lemma PlainWordsClean(f: string)
    ensures CleanSegs([PERMISSION, TARGET], f, Suspicious)
  {
    forall next ensures !Suspicious("security", next) { PlainTokenInert("security", next); }
    forall next ensures !Suspicious("permission", next) { PlainTokenInert("permission", next); }
    forall next ensures !Suspicious("update", next) { PlainTokenInert("update", next); }
    forall next ensures !Suspicious("accesscontrollists", next) { PlainTokenInert("accesscontrollists", next); }
  }

  lemma SlottedOne(a: seq<string>, b: seq<string>, p: Pair)
    ensures Slotted([a, b], [p]) == a + ([p.flag, p.value] + b)
  {
    assert [a, b][1..] == [b] && [p][1..] == [];
  }

  /** With the pair behind them the words of a mutating phrase stand together and the command is
      flagged. */
  lemma TogetherIsFlagged(p: Pair)
    ensures IsMutation(Slotted([PERMISSION + TARGET, []], [p]))
  {
    var words, ts := ["security", "permission", "update"], Slotted([PERMISSION + TARGET, []], [p]);
    SlottedOne(PERMISSION + TARGET, [], p);
    assert ts == [] + words + ["accesscontrollists", p.flag, p.value];
    LowerWords();
    JoinedWords("security", "permission", "update");
    var n := PermissionPhrase("update");
    assert Joined(words) == n && n[0..|n|] == n && At(n, n, 0);
    ContainsInContext([], words, ["accesscontrollists", p.flag, p.value], n);
    assert IsPhrase(n);
  }

  lemma ApartSaysNothing(p: Pair)
    requires IsMethodFlag(p.flag) && ' ' !in p.flag && IsRead(StripQuotes(p.value))
    ensures !SaysMutation(Joined(Slotted([PERMISSION, TARGET], [p])))
  {
    forall n | IsPhrase(n)
      ensures !Contains(Joined(Slotted([PERMISSION, TARGET], [p])), n)
    {
      PhraseShape(n);
      PhraseIsLong(n);
      NotInHalves(n);
      ApartHidesPhrase(PERMISSION, TARGET, p, n);
    }
  }

  lemma ApartHidesPhrase(a: seq<string>, b: seq<string>, p: Pair, n: string)
    requires IsMethodFlag(p.flag) && ' ' !in p.flag && IsRead(StripQuotes(p.value))
    requires Spaced(n) && ' ' in n && !Contains(Joined(a), n) && !Contains(Joined(b), n)
    ensures !Contains(Joined(Slotted([a, b], [p])), n)
  {
    ReadValueShape(p.value);
    FlagIsBarrier(p.flag, n);
    ReadValueIsBarrier(p.value, n);
    SlottedOne(a, b, p);
    BarrierPairApart(a, p, b, n);
    NotInSpaceless(p.flag, n);
    NotInSpaceless(p.value, n);
  }

  /** With a read pair between them they do not, and it is not. */
  lemma ApartIsNotFlagged(p: Pair)
    requires IsMethodFlag(p.flag) && ' ' !in p.flag && !Suspicious(p.flag, Some(p.value))
    ensures TouchesAcl(Joined(Slotted([PERMISSION, TARGET], [p])))
    ensures !IsMutation(Slotted([PERMISSION, TARGET], [p]))
  {
    TargetTouched([PERMISSION, TARGET], [p], 1);
    PlainWordsClean(p.flag);
    ReadWithPairs([PERMISSION, TARGET], [p], p.flag);
    FlagSuspicious(p.flag, p.value);
    ApartSaysNothing(p);
  }

  lemma TargetTouched(segs: seq<seq<string>>, ps: seq<Pair>, i: nat)
    requires |segs| == |ps| + 1 && i < |segs| && segs[i] == TARGET
    ensures TouchesAcl(Joined(Slotted(segs, ps)))
  {
    var n := "accesscontrollists";
    SurfaceShape(n);
    LowerWords();
    assert n[0..|n|] == n && At(n, n, 0);
    assert TARGET[1] in segs[i];
    SlottedTokens(segs, ps, n);
    SurfaceInToken(Slotted(segs, ps), n);
  }

  /** Moving a whole pair past other tokens is not reordering: it can pull a phrase apart and
      so change the verdict. */
  lemma MovingPairCanMatter()
    ensures var p := Pair("-X", "GET");
      && TouchesAcl(Joined(Slotted([PERMISSION, TARGET], [p])))
      && IsMutation(Slotted([PERMISSION + TARGET, []], [p])) && !IsMutation(Slotted([PERMISSION, TARGET], [p]))
  {
    TogetherIsFlagged(Pair("-X", "GET"));
    ReadGet();
    ClusterReads("-X", "GET");
    ApartIsNotFlagged(Pair("-X", "GET"));
  }

  lemma ReadGet()
    ensures IsMethodFlag("-X") && IsMethodCluster("-X") && IsRead(StripQuotes("GET")) && ' ' !in "-X"
  {
    assert "-X"[1..] == "X";
    TrimByClean("GET", IsQuote);
    assert LowerAll("GET") == "get";
  }

  lemma SecondDiffers(f: string, p: string)
    requires |f| >= 2 && |p| >= 2 && f[1] != p[1]
    ensures !StartsWith(f, p) && f != p
  {
    assert |p| <= |f| ==> f[..|p|][1] == f[1];
  }

  lemma {:induction false} TakesNextAlone(cluster: string)
    requires TakesNext(cluster)
    ensures ScanCluster(cluster, None) == Neither
  {
    if cluster[0] != 'X' { TakesNextAlone(cluster[1..]); }
  }

  lemma ClusterHasNoBody(f: string)
    requires IsMethodCluster(f) && |f| >= 2 && f[1] != '-' && f[1] != 'b'
    ensures !BodyAt(f)
  {
    TakesNextAlone(f[1..]);
    SecondDiffers(f, "-b");
    forall g | g in BODY_FLAGS ensures g != f && !StartsWith(f, g + "=") {
      BodyFlagsDoubleDashed(g);
      SecondDiffers(f, g);
      SecondDiffers(f, g + "=");
    }
  }

  lemma BodyFlagsDoubleDashed(g: string)
    requires g in BODY_FLAGS
    ensures |g| >= 2 && g[1] == '-' && (g + "=")[1] == '-'
  {
  }

  lemma NoLongMethod(f: string)
    requires |f| >= 2 && f[0] == '-' && f[1] != '-' && f[1] != 'm'
    ensures !TakesMethod(f) && !StartsWith(f, "-m")
    ensures !StartsWith(f, "--method=") && !StartsWith(f, "--http-method=")
    ensures !StartsWith(f, "--request=") && !StartsWith(f, "method=")
  {
    SecondDiffers(f, "-m");
    SecondDiffers(f, "--method");
    SecondDiffers(f, "--http-method");
    SecondDiffers(f, "--request");
    SecondDiffers(f, "--method=");
    SecondDiffers(f, "--http-method=");
    SecondDiffers(f, "--request=");
    NoPrefix(f, "method=");
  }

  lemma ClusterAlone(f: string, next: Option<string>)
    requires !TakesMethod(f) && !StartsWith(f, "-m")
    requires !StartsWith(f, "--method=") && !StartsWith(f, "--http-method=")
    requires !StartsWith(f, "--request=") && !StartsWith(f, "method=")
    ensures var o := ClassifyShortCluster(f, next); MethodsAt(f, next) == if o.Method? then [o.value] else []
  {
  }

  lemma ClusterMethods(f: string, v: string)
    requires IsMethodCluster(f) && |f| >= 2 && f[0] == '-' && f[1] != '-' && f[1] != 'm'
    ensures MethodsAt(f, Some(v)) == [StripQuotes(v)]
  {
    TakesNextScan(f[1..], v);
    NoLongMethod(f);
    ClusterAlone(f, Some(v));
  }

  lemma ClusterStart(f: string)
    requires IsMethodCluster(f)
    ensures |f| >= 2 && f[0] == '-' && f[1] != '-' && f[1] != 'm' && f[1] != 'b'
  {
    assert f[..1][0] == f[0] && f[1..][..1] == [f[1]] && f[..2] == [f[0], f[1]];
  }

  /** A cluster with a read method behind it is clean. */
  lemma ClusterReads(f: string, v: string)
    requires IsMethodCluster(f) && IsRead(StripQuotes(v))
    ensures !Suspicious(f, Some(v))
  {
    ClusterStart(f);
    ClusterHasNoBody(f);
    ClusterMethods(f, v);
  }
}
