/** Which written forms keep a command from being a read: the forms of body options and of
    method options, spelled out, and the verdict on a command in terms of them. */
module AclForms {
  import opened Text
  import opened AclVerdict

  // Short-option clusters ----------------------------------------------------

  /** The letters that decide what a short-option cluster is. */
  predicate IsDeciding(c: char) { c == 'X' || c == 'd' || c == 'F' || c == 'T' }

  /** One hyphen, then a letter that is neither the method nor the body alias. */
  predicate IsCluster(tok: string) {
    |tok| >= 2 && tok[0] == '-' && tok[1] != '-' && tok[1] != 'm' && tok[1] != 'b'
  }

  /** The first deciding letter stands at `i`. */
  predicate DecidedAt(tok: string, i: nat) {
    1 <= i < |tok| && IsDeciding(tok[i]) && forall j | 1 <= j < i :: !IsDeciding(tok[j])
  }

  lemma ClusterStart(tok: string)
    ensures IsCluster(tok) ==> ClassifyShortCluster(tok, None) == ScanCluster(tok[1..], None)
    ensures IsCluster(tok) ==> forall next :: ClassifyShortCluster(tok, next) == ScanCluster(tok[1..], next)
    ensures !IsCluster(tok) ==> forall next :: ClassifyShortCluster(tok, next) == Neither
  {
    assert |tok| >= 1 ==> tok[..1] == [tok[0]];
    assert |tok| >= 2 ==> tok[..2] == [tok[0], tok[1]] && tok[1..][..1] == [tok[1]];
    if |tok| == 1 { assert tok[1..] == ""; }
  }

  /** What the letter at `i` makes of a cluster. */
  function DecisionAt(tok: string, i: nat, next: Option<string>): ShortOpt
    requires i < |tok|
  {
    if tok[i] != 'X' then Body
    else if i + 1 < |tok| then Method(StripQuotes(tok[i + 1..]))
    else if next.Some? then Method(StripQuotes(next.value)) else Neither
  }

  lemma {:induction false} ScanFinds(tok: string, k: nat, i: nat, next: Option<string>)
    requires k <= i < |tok| && IsDeciding(tok[i]) && forall j | k <= j < i :: !IsDeciding(tok[j])
    ensures ScanCluster(tok[k..], next) == DecisionAt(tok, i, next)
    decreases i - k
  {
    assert tok[k..][0] == tok[k] && tok[k..][1..] == tok[k + 1..];
    if k < i { ScanFinds(tok, k + 1, i, next); }
  }

  lemma {:induction false} ScanFindsNone(tok: string, k: nat, next: Option<string>)
    requires k <= |tok| && forall j | k <= j < |tok| :: !IsDeciding(tok[j])
    ensures ScanCluster(tok[k..], next) == Neither
    decreases |tok| - k
  {
    if k < |tok| {
      assert tok[k..][0] == tok[k] && tok[k..][1..] == tok[k + 1..];
      ScanFindsNone(tok, k + 1, next);
    }
  }

  lemma {:induction false} FirstDeciding(tok: string, k: nat) returns (i: nat)
    requires 1 <= k <= |tok| && forall j | 1 <= j < k :: !IsDeciding(tok[j])
    ensures i == |tok| || DecidedAt(tok, i)
    ensures i == |tok| ==> forall j | 1 <= j < |tok| :: !IsDeciding(tok[j])
    decreases |tok| - k
  {
    if k == |tok| || IsDeciding(tok[k]) {
      i := k;
    } else {
      i := FirstDeciding(tok, k + 1);
    }
  }

  /** A cluster is decided by its first deciding letter, and by nothing without one. */
  lemma ClusterIs(tok: string, next: Option<string>)
    requires IsCluster(tok)
    ensures forall i: nat | DecidedAt(tok, i) :: ClassifyShortCluster(tok, next) == DecisionAt(tok, i, next)
    ensures (forall i: nat :: !DecidedAt(tok, i)) ==> ClassifyShortCluster(tok, next) == Neither
  {
    ClusterStart(tok);
    forall i: nat | DecidedAt(tok, i) ensures ScanCluster(tok[1..], next) == DecisionAt(tok, i, next) {
      ScanFinds(tok, 1, i, next);
    }
    var i := FirstDeciding(tok, 1);
    if i == |tok| { ScanFindsNone(tok, 1, next); }
  }

  // The forms ----------------------------------------------------------------

  predicate IsBodyFlag(f: string) {
    || f == "--body" || f == "--in-file" || f == "--input-file" || f == "--data" || f == "--data-raw"
    || f == "--data-binary" || f == "--data-ascii" || f == "--data-urlencode" || f == "--form"
    || f == "--form-string" || f == "--upload-file" || f == "--json"
  }

  ghost predicate HasBodyFlag(tok: string) { exists f :: IsBodyFlag(f) && (tok == f || StartsWith(tok, f + "=")) }

  ghost predicate HasBodyLetter(tok: string) {
    IsCluster(tok) && exists i: nat :: DecidedAt(tok, i) && tok[i] != 'X'
  }

  /** A body or upload option: a long flag, alone or with `=`, the `-b` alias, or a cluster whose
      first deciding letter is `d`, `F` or `T`. */
  ghost predicate SendsBody(tok: string) { HasBodyFlag(tok) || StartsWith(tok, "-b") || HasBodyLetter(tok) }

  predicate IsMethodPrefix(p: string) {
    p == "--method=" || p == "--http-method=" || p == "--request=" || p == "method="
  }

  predicate TakesMethodNext(tok: string, next: Option<string>, m: string) {
    && (tok == "--method" || tok == "--http-method" || tok == "--request" || tok == "-m")
    && next.Some? && m == StripQuotes(next.value)
  }

  ghost predicate HasMethodPrefix(tok: string, m: string) {
    exists p :: IsMethodPrefix(p) && StartsWith(tok, p) && m == StripQuotes(tok[|p|..])
  }

  predicate HasMethodAlias(tok: string, m: string) { StartsWith(tok, "-m") && |tok| > 2 && m == StripQuotes(tok[2..]) }

  ghost predicate HasMethodLetter(tok: string, next: Option<string>, m: string) {
    IsCluster(tok) && exists i: nat :: DecidedAt(tok, i) && tok[i] == 'X' && DecisionAt(tok, i, next) == Method(m)
  }

  /** A method option with the method `m`: a flag with its value as the next token, a prefix or
      the `-m` alias with its value glued on, or a cluster whose first deciding letter is `X`
      with the method glued on or as the next token. */
  ghost predicate SetsMethod(tok: string, next: Option<string>, m: string) {
    TakesMethodNext(tok, next, m) || HasMethodPrefix(tok, m) || HasMethodAlias(tok, m) || HasMethodLetter(tok, next, m)
  }

  lemma BodyFlagsListed(f: string)
    ensures IsBodyFlag(f) <==> f in BODY_FLAGS
  {
  }

  lemma LongFlagIff(tok: string)
    ensures HasBodyFlag(tok) <==> tok in BODY_FLAGS || exists f | f in BODY_FLAGS :: StartsWith(tok, f + "=")
  {
    forall f ensures IsBodyFlag(f) <==> f in BODY_FLAGS { BodyFlagsListed(f); }
  }

  lemma BodyLetterIff(tok: string)
    ensures ClassifyShortCluster(tok, None).Body? <==> HasBodyLetter(tok)
  {
    ClusterStart(tok);
    if IsCluster(tok) { ClusterIs(tok, None); }
  }

  lemma SendsBodyIff(tok: string)
    ensures BodyAt(tok) <==> SendsBody(tok)
  {
    LongFlagIff(tok);
    BodyLetterIff(tok);
  }

  lemma MethodLetterIff(tok: string, next: Option<string>, m: string)
    ensures ClassifyShortCluster(tok, next) == Method(m) <==> HasMethodLetter(tok, next, m)
  {
    ClusterStart(tok);
    if IsCluster(tok) { ClusterIs(tok, next); }
  }

  lemma MethodPrefixIff(tok: string, m: string)
    ensures HasMethodPrefix(tok, m) <==>
      || m in AfterPrefix(tok, "--method=") || m in AfterPrefix(tok, "--http-method=")
      || m in AfterPrefix(tok, "--request=") || m in AfterPrefix(tok, "method=")
  {
    assert IsMethodPrefix("--method=") && IsMethodPrefix("--http-method=") && IsMethodPrefix("--request=")
        && IsMethodPrefix("method=");
  }

  lemma SetsMethodIff(tok: string, next: Option<string>, m: string)
    ensures m in MethodsAt(tok, next) <==> SetsMethod(tok, next, m)
  {
    MethodLetterIff(tok, next, m);
    MethodPrefixIff(tok, m);
    MethodsAtMembers(tok, next, m);
  }

  lemma MethodsAtMembers(tok: string, next: Option<string>, m: string)
    ensures m in MethodsAt(tok, next) <==>
      || TakesMethodNext(tok, next, m) || HasMethodAlias(tok, m) || ClassifyShortCluster(tok, next) == Method(m)
      || m in AfterPrefix(tok, "--method=") || m in AfterPrefix(tok, "--http-method=")
      || m in AfterPrefix(tok, "--request=") || m in AfterPrefix(tok, "method=")
  {
  }

  // Reads --------------------------------------------------------------------

  predicate IsReadMethod(m: string) { LowerAll(m) == "get" || LowerAll(m) == "head" || LowerAll(m) == "options" }

  /** A command is provably a read exactly when no token sends a body and every method that a
      token sets is `GET`, `HEAD` or `OPTIONS`. */
  lemma ReadIff(ts: seq<string>)
    ensures ProvablyRead(ts) <==>
      forall i | 0 <= i < |ts| ::
        !SendsBody(ts[i]) && forall m | SetsMethod(ts[i], NextOf(ts, i), m) :: IsReadMethod(m)
  {
    ReadIffNoSuspect(ts);
    forall i | 0 <= i < |ts|
      ensures Suspicious(ts[i], NextOf(ts, i)) <==>
        SendsBody(ts[i]) || exists m :: SetsMethod(ts[i], NextOf(ts, i), m) && !IsReadMethod(m)
    {
      SuspiciousIff(ts[i], NextOf(ts, i));
    }
  }

  lemma SuspiciousIff(tok: string, next: Option<string>)
    ensures Suspicious(tok, next) <==> SendsBody(tok) || exists m :: SetsMethod(tok, next, m) && !IsReadMethod(m)
  {
    SendsBodyIff(tok);
    forall m ensures m in MethodsAt(tok, next) <==> SetsMethod(tok, next, m) { SetsMethodIff(tok, next, m); }
  }

  /** The token at `i` sends a body or sets a method that does not read. */
  ghost predicate WritesAt(ts: seq<string>, i: nat) {
    i < |ts| && (SendsBody(ts[i]) || exists m :: SetsMethod(ts[i], NextOf(ts, i), m) && !IsReadMethod(m))
  }

  lemma WriteIsNoRead(ts: seq<string>, i: nat)
    requires WritesAt(ts, i)
    ensures !ProvablyRead(ts)
  {
    ReadIff(ts);
  }

  // The forms, written out -----------------------------------------------------

  lemma LongBodyFlag(f: string, v: string)
    requires IsBodyFlag(f)
    ensures SendsBody(f) && SendsBody(f + "=" + v)
  {
    assert (f + "=" + v)[..|f + "="|] == f + "=";
  }

  lemma ShortBodyAlias(v: string)
    ensures SendsBody("-b" + v)
  {
    assert ("-b" + v)[..2] == "-b";
  }

  /** Text between the hyphen of a cluster and its deciding letter, such as the `s` of `-sX`. */
  predicate IsLead(s: string) {
    && (forall i | 0 <= i < |s| :: !IsDeciding(s[i]))
    && (s == "" || (s[0] != '-' && s[0] != 'm' && s[0] != 'b'))
  }

  lemma LeadDecides(s: string, c: char, rest: string)
    requires IsLead(s) && IsDeciding(c)
    ensures var tok := "-" + s + [c] + rest; IsCluster(tok) && DecidedAt(tok, |s| + 1) && tok[|s| + 1] == c
    ensures ("-" + s + [c] + rest)[|s| + 2..] == rest
  {
    var tok := "-" + s + [c] + rest;
    assert forall j | 1 <= j < |s| + 1 :: tok[j] == s[j - 1];
    assert tok[|s| + 1] == c;
  }

  /** `-d`, `-sd@file`, `-F`, `-sT` and the like. */
  lemma BodyCluster(s: string, c: char, rest: string)
    requires IsLead(s) && (c == 'd' || c == 'F' || c == 'T')
    ensures SendsBody("-" + s + [c] + rest)
  {
    LeadDecides(s, c, rest);
  }

  /** `-XPUT`, `-sX PUT` and the like. */
  lemma MethodCluster(s: string, v: string, next: Option<string>)
    requires IsLead(s)
    ensures v != "" ==> SetsMethod("-" + s + ['X'] + v, next, StripQuotes(v))
    ensures SetsMethod("-" + s + ['X'], Some(v), StripQuotes(v))
  {
    LeadDecides(s, 'X', v);
    LeadDecides(s, 'X', "");
    assert "-" + s + ['X'] + "" == "-" + s + ['X'];
  }

  /** `-mput`, `--method=put` and the like. */
  lemma GluedMethod(p: string, v: string, next: Option<string>)
    requires IsMethodPrefix(p) || (p == "-m" && v != "")
    ensures SetsMethod(p + v, next, StripQuotes(v))
  {
    assert (p + v)[..|p|] == p && (p + v)[|p|..] == v;
  }

  /** Quotes around a method are dropped and nothing else. */
  lemma Unquoted(a: string, m: string, b: string)
    requires (forall c | c in a + b :: c == '"' || c == '\'') && (m == "" || (m[0] !in "\"'" && m[|m| - 1] !in "\"'"))
    ensures StripQuotes(a + m + b) == m
  {
    forall i | 0 <= i < |a| ensures IsQuote(a[i]) { assert a[i] in a + b; }
    forall i | 0 <= i < |b| ensures IsQuote(b[i]) { assert b[i] in a + b; }
    TrimByPad(a, m, b, IsQuote);
  }

  // The verdict ----------------------------------------------------------------

  predicate IsSurfaceName(n: string) {
    || n == "accesscontrolentries" || n == "accesscontrollists" || n == "/_apis/accesscontrol"
    || n == "securitynamespaces" || n == "/_apis/graph/memberships"
  }

  /** A command with an access-control surface in some token and a write in some token is
      flagged. */
  lemma WriteOnSurfaceIsFlagged(args: seq<string>, i: nat, j: nat, n: string)
    requires WritesAt(args, i) && j < |args| && IsSurfaceName(n) && Contains(LowerAll(args[j]), n)
    ensures IsMutation(args)
  {
    WriteIsNoRead(args, i);
    TokenInJoined(args, j, n);
  }

  /** On a surface, a command without a mutating phrase is flagged exactly when it writes. */
  lemma FlaggedIffWrites(args: seq<string>)
    requires TouchesAcl(Joined(args)) && !SaysMutation(Joined(args))
    ensures IsMutation(args) <==> exists i: nat :: WritesAt(args, i)
  {
    ReadIff(args);
    if !ProvablyRead(args) {
      var i: int :| 0 <= i < |args|
        && !(!SendsBody(args[i]) && forall m | SetsMethod(args[i], NextOf(args, i), m) :: IsReadMethod(m));
      assert WritesAt(args, i);
    }
  }

  lemma TokenInJoined(args: seq<string>, j: nat, n: string)
    requires j < |args| && n != "" && Contains(LowerAll(args[j]), n)
    ensures Contains(Joined(args), n)
  {
    assert Joined([args[j]]) == LowerAll(args[j]);
    assert args == args[..j] + [args[j]] + args[j + 1..];
    ContainsInContext(args[..j], [args[j]], args[j + 1..], n);
  }

  predicate Says(tok: string, word: string) { LowerAll(tok) == word }

  /** The tokens of a mutating subcommand, in any letter case. */
  predicate IsSubcommand(ts: seq<string>) {
    || (|ts| == 3 && Says(ts[0], "security") && Says(ts[1], "permission")
        && (Says(ts[2], "update") || Says(ts[2], "reset")))
    || (|ts| == 4 && Says(ts[0], "security") && Says(ts[1], "group") && Says(ts[2], "membership")
        && (Says(ts[3], "add") || Says(ts[3], "remove")))
  }

  /** A mutating subcommand is flagged wherever it stands. */
  lemma SubcommandIsFlagged(pre: seq<string>, ts: seq<string>, post: seq<string>)
    requires IsSubcommand(ts)
    ensures IsMutation(pre + ts + post)
  {
    SubcommandIsPhrase(ts);
    var n := Joined(ts);
    assert n[0..|n|] == n;
    assert At(n, n, 0);
    FlaggedStaysFlagged(pre, ts, post);
  }

  lemma {:induction false} LowerJoin(ts: seq<string>, ws: seq<string>)
    requires |ts| == |ws| && forall i | 0 <= i < |ts| :: Says(ts[i], ws[i])
    ensures Joined(ts) == Join(ws, " ")
  {
    if |ts| > 1 {
      LowerAllConcat(ts[0] + " ", Join(ts[1..], " "));
      LowerAllConcat(ts[0], " ");
      LowerJoin(ts[1..], ws[1..]);
    }
  }

  lemma JoinWords(a: string, b: string, c: string, d: string)
    ensures Join([a, b, c], " ") == a + " " + (b + " " + c)
    ensures Join([a, b, c, d], " ") == a + " " + (b + " " + (c + " " + d))
  {
    assert [a, b, c][1..] == [b, c] && [b, c][1..] == [c] && [c, d][1..] == [d];
    assert [a, b, c, d][1..] == [b, c, d] && [b, c, d][1..] == [c, d];
    assert Join([c, d], " ") == c + " " + d && Join([b, c], " ") == b + " " + c;
    assert Join([b, c, d], " ") == b + " " + (c + " " + d);
  }

  lemma SubcommandIsPhrase(ts: seq<string>)
    requires IsSubcommand(ts)
    ensures IsPhrase(Joined(ts))
  {
    var last := LowerAll(ts[|ts| - 1]);
    var ws := if |ts| == 3 then ["security", "permission", last] else ["security", "group", "membership", last];
    LowerJoin(ts, ws);
    JoinWords("security", "permission", last, "");
    JoinWords("security", "group", "membership", last);
  }
}
