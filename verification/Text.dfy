/** Strings as the runtime sees them: whitespace, trimming, lines, substrings and
    the code-point order that Rust's `str` comparison induces. */
module Text {

  datatype Option<+T> = None | Some(value: T)

  /** The Unicode White_Space property, as `char::is_whitespace` tests it. */
  predicate IsSpace(c: char) {
    var n := c as int;
    || 9 <= n <= 13 || n == 0x20 || n == 0x85 || n == 0xA0 || n == 0x1680
    || 0x2000 <= n <= 0x200A || n == 0x2028 || n == 0x2029 || n == 0x202F
    || n == 0x205F || n == 0x3000
  }

  function Lower(c: char): char {
    if 'A' <= c <= 'Z' then (c as int + 32) as char else c
  }

  function LowerAll(s: string): (r: string)
    ensures |r| == |s|
  {
    seq(|s|, i requires 0 <= i < |s| => Lower(s[i]))
  }

  lemma LowerAllConcat(a: string, b: string)
    ensures LowerAll(a + b) == LowerAll(a) + LowerAll(b)
  {
  }

  // Trimming -----------------------------------------------------------------

  function TrimLeft(s: string, p: char -> bool): (r: string)
    ensures |r| <= |s| && r == s[|s| - |r|..]
    ensures r != "" ==> !p(r[0])
    ensures forall i | 0 <= i < |s| - |r| :: p(s[i])
  {
    if s != "" && p(s[0]) then TrimLeft(s[1..], p) else s
  }

  function TrimRight(s: string, p: char -> bool): (r: string)
    ensures |r| <= |s| && r == s[..|r|]
    ensures r != "" ==> !p(r[|r| - 1])
    ensures forall i | |r| <= i < |s| :: p(s[i])
  {
    if s != "" && p(s[|s| - 1]) then TrimRight(s[..|s| - 1], p) else s
  }

  function TrimBy(s: string, p: char -> bool): string {
    TrimRight(TrimLeft(s, p), p)
  }

  function Trim(s: string): string { TrimBy(s, IsSpace) }

  /** No character satisfying `p` at either end. */
  predicate CleanBy(s: string, p: char -> bool) {
    s == "" || (!p(s[0]) && !p(s[|s| - 1]))
  }

  predicate Trimmed(s: string) { CleanBy(s, IsSpace) }

  lemma TrimByClean(s: string, p: char -> bool)
    ensures CleanBy(TrimBy(s, p), p)
    ensures CleanBy(s, p) ==> TrimBy(s, p) == s
  {
    var l := TrimLeft(s, p);
    var r := TrimRight(l, p);
    if r != "" { assert r[0] == l[0]; }
  }

  predicate AllOf(s: string, p: char -> bool) { forall i | 0 <= i < |s| :: p(s[i]) }

  lemma {:induction false} TrimLeftPad(pre: string, s: string, p: char -> bool)
    requires AllOf(pre, p) && (s == "" || !p(s[0]))
    ensures TrimLeft(pre + s, p) == s
  {
    if pre == "" {
      assert pre + s == s;
    } else {
      assert (pre + s)[1..] == pre[1..] + s;
      TrimLeftPad(pre[1..], s, p);
    }
  }

  lemma {:induction false} TrimRightPad(s: string, post: string, p: char -> bool)
    requires AllOf(post, p) && (s == "" || !p(s[|s| - 1]))
    ensures TrimRight(s + post, p) == s
  {
    if post == "" {
      assert s + post == s;
    } else {
      assert (s + post)[..|s + post| - 1] == s + post[..|post| - 1];
      TrimRightPad(s, post[..|post| - 1], p);
    }
  }

  lemma {:induction false} TrimAllLeft(s: string, p: char -> bool)
    requires AllOf(s, p)
    ensures TrimLeft(s, p) == ""
  {
    TrimLeftPad(s, "", p);
    assert s + "" == s;
  }

  /** Trimming drops padding and nothing else. */
  lemma TrimByPad(pre: string, s: string, post: string, p: char -> bool)
    requires AllOf(pre, p) && AllOf(post, p) && CleanBy(s, p)
    ensures TrimBy(pre + s + post, p) == s
  {
    if s == "" {
      assert pre + s + post == pre + post;
      TrimAllLeft(pre + post, p);
    } else {
      assert pre + s + post == pre + (s + post);
      TrimLeftPad(pre, s + post, p);
      TrimRightPad(s, post, p);
    }
  }

  lemma TrimLeftParts(s: string, p: char -> bool) returns (pre: string)
    ensures s == pre + TrimLeft(s, p) && AllOf(pre, p)
  {
    pre := s[..|s| - |TrimLeft(s, p)|];
    assert forall i | 0 <= i < |pre| :: pre[i] == s[i];
  }

  lemma TrimRightParts(s: string, p: char -> bool) returns (post: string)
    ensures s == TrimRight(s, p) + post && AllOf(post, p)
  {
    var k := |TrimRight(s, p)|;
    post := s[k..];
    assert forall i | 0 <= i < |post| :: post[i] == s[k + i];
  }

  lemma Regroup(a: string, b: string, c: string)
    ensures a + (b + c) == a + b + c
  {
  }

  /** Trimming only takes padding away. */
  lemma TrimByParts(s: string, p: char -> bool) returns (pre: string, post: string)
    ensures s == pre + TrimBy(s, p) + post && AllOf(pre, p) && AllOf(post, p)
  {
    pre := TrimLeftParts(s, p);
    post := TrimRightParts(TrimLeft(s, p), p);
    Regroup(pre, TrimBy(s, p), post);
  }

  lemma AllOfConcat(a: string, b: string, p: char -> bool)
    requires AllOf(a, p) && AllOf(b, p)
    ensures AllOf(a + b, p)
  {
  }

  lemma RegroupInside(a: string, x: string, s: string, y: string, b: string)
    ensures a + (x + s + y) + b == (a + x) + s + (y + b)
  {
  }

  /** Trimming less first makes no difference. */
  lemma TrimByTwice(s: string, p: char -> bool, q: char -> bool)
    requires forall c | p(c) :: q(c)
    ensures TrimBy(TrimBy(s, p), q) == TrimBy(s, q)
  {
    var t := TrimBy(s, p);
    var a, b := TrimByParts(s, p);
    var x, y := TrimByParts(t, q);
    TrimByClean(t, q);
    RegroupInside(a, x, TrimBy(t, q), y, b);
    AllOfConcat(a, x, q);
    AllOfConcat(y, b, q);
    TrimByPad(a + x, TrimBy(t, q), y + b, q);
  }

  // Substrings ---------------------------------------------------------------

  predicate At(s: string, n: string, i: int) {
    0 <= i <= |s| - |n| && s[i..i + |n|] == n
  }

  predicate Contains(s: string, n: string) {
    exists i | 0 <= i <= |s| :: At(s, n, i)
  }

  predicate StartsWith(s: string, p: string) {
    |p| <= |s| && s[..|p|] == p
  }

  lemma AtShift(a: string, s: string, b: string, n: string, i: int)
    requires At(s, n, i)
    ensures At(a + s + b, n, |a| + i)
  {
    var t := a + s + b;
    assert t[|a| + i..|a| + i + |n|] == s[i..i + |n|];
  }

  lemma ContainsInside(a: string, s: string, b: string, n: string)
    requires Contains(s, n)
    ensures Contains(a + s + b, n)
  {
    var i :| 0 <= i <= |s| && At(s, n, i);
    AtShift(a, s, b, n, i);
  }

  lemma ContainsEither(a: string, b: string, n: string)
    requires Contains(a, n) || Contains(b, n)
    ensures Contains(a + b, n)
  {
    if Contains(a, n) {
      ContainsInside("", a, b, n);
      assert "" + a + b == a + b;
    } else {
      ContainsInside(a, b, "", n);
      assert a + b + "" == a + b;
    }
  }

  // Splitting ----------------------------------------------------------------

  /** The first occurrence of `n` at `k` or later. */
  function FindFrom(s: string, n: string, k: nat): (r: Option<nat>)
    ensures r.Some? ==> k <= r.value && At(s, n, r.value) && forall j | k <= j < r.value :: !At(s, n, j)
    ensures r.None? ==> forall j | k <= j :: !At(s, n, j)
    decreases |s| - k
  {
    if k + |n| > |s| then None
    else if At(s, n, k) then Some(k)
    else if k == |s| then None
    else FindFrom(s, n, k + 1)
  }

  /** The text before and after the first occurrence of `n`. */
  function SplitOnce(s: string, n: string): Option<(string, string)> {
    match FindFrom(s, n, 0)
    case None => None
    case Some(i) => Some((s[..i], s[i + |n|..]))
  }

  lemma SplitAtFirst(a: string, n: string, b: string)
    requires forall i | 0 <= i < |a| :: !At(a + n + b, n, i)
    ensures SplitOnce(a + n + b, n) == Some((a, b))
  {
    var s := a + n + b;
    assert s[|a|..|a| + |n|] == n;
    assert At(s, n, |a|);
    assert s[..|a|] == a && s[|a| + |n|..] == b;
  }

  /** The part before the first occurrence has none, and without a split there is none at all. */
  lemma SplitParts(s: string, n: string)
    requires n != ""
    ensures SplitOnce(s, n).None? <==> !Contains(s, n)
    ensures SplitOnce(s, n).Some? ==>
      var (a, b) := SplitOnce(s, n).value; s == a + n + b && !Contains(a, n)
  {
    match FindFrom(s, n, 0)
    case None =>
    case Some(k) =>
      assert Contains(s, n);
      assert s == s[..k] + n + s[k + |n|..];
      forall i | At(s[..k], n, i)
        ensures At(s, n, i) && i < k
      {
        assert s[..k][i..i + |n|] == s[i..i + |n|];
      }
  }

  // Lines --------------------------------------------------------------------

  function IndexOf(s: string, c: char): (i: nat)
    ensures i <= |s|
    ensures i < |s| ==> s[i] == c
    ensures c !in s[..i]
  {
    if s == "" || s[0] == c then 0 else
    var j := IndexOf(s[1..], c);
    assert s[..j + 1] == [s[0]] + s[1..][..j];
    j + 1
  }

  lemma IndexOfFirst(a: string, c: char, b: string)
    requires c !in a
    ensures IndexOf(a + [c] + b, c) == |a|
  {
    var s := a + [c] + b;
    var i := IndexOf(s, c);
    assert s[|a|] == c;
    assert forall j | 0 <= j < |a| :: s[j] == a[j];
    assert forall j | 0 <= j < i :: s[j] == s[..i][j];
  }

  lemma IndexOfNone(s: string, c: char)
    requires c !in s
    ensures IndexOf(s, c) == |s|
  {
  }

  function StripCr(s: string): string {
    if s != "" && s[|s| - 1] == '\r' then s[..|s| - 1] else s
  }

  /** `str::lines` (and `BufRead::lines`): newline-terminated pieces without their
      `\n` or `\r\n`, and a last unterminated piece when it is not empty. */
  function Lines(s: string): seq<string>
    decreases |s|
  {
    if s == "" then [] else
    var i := IndexOf(s, '\n');
    if i == |s| then [s] else [StripCr(s[..i])] + Lines(s[i + 1..])
  }

  lemma LinesCons(line: string, rest: string)
    requires '\n' !in line
    ensures Lines(line + "\n" + rest) == [StripCr(line)] + Lines(rest)
  {
    var s := line + "\n" + rest;
    IndexOfFirst(line, '\n', rest);
    assert s[..|line|] == line && s[|line| + 1..] == rest;
  }

  lemma FirstLine(s: string) returns (line: string, rest: string)
    requires '\n' in s
    ensures s == line + "\n" + rest && '\n' !in line
  {
    var i := IndexOf(s, '\n');
    line := s[..i];
    assert i == |s| ==> line == s;
    rest := s[i + 1..];
  }

  lemma LinesLast(line: string)
    requires '\n' !in line
    ensures Lines(line) == if line == "" then [] else [line]
  {
    if line != "" { IndexOfNone(line, '\n'); }
  }

  lemma {:induction false} LinesHaveNoNewline(s: string)
    ensures forall l | l in Lines(s) :: '\n' !in l
    decreases |s|
  {
    if s != "" {
      var i := IndexOf(s, '\n');
      if i == |s| {
        assert s[..i] == s;
      } else {
        LinesHaveNoNewline(s[i + 1..]);
      }
    }
  }

  // Joining ------------------------------------------------------------------

  function Join(ts: seq<string>, sep: string): string {
    if ts == [] then "" else if |ts| == 1 then ts[0] else ts[0] + sep + Join(ts[1..], sep)
  }

  lemma {:induction false} JoinConcat(a: seq<string>, b: seq<string>, sep: string)
    requires a != [] && b != []
    ensures Join(a + b, sep) == Join(a, sep) + sep + Join(b, sep)
  {
    var s := a + b;
    assert s[1..] == a[1..] + b;
    if |a| == 1 {
      assert a[1..] + b == b;
    } else {
      JoinConcat(a[1..], b, sep);
      var x, y := Join(a[1..], sep), Join(b, sep);
      assert Join(s, sep) == a[0] + sep + (x + sep + y);
      assert a[0] + sep + (x + sep + y) == (a[0] + sep + x) + sep + y;
    }
  }

  // Tokens -------------------------------------------------------------------

  /** The length of the run of non-separators at the front. */
  function RunLength(s: string, sep: char -> bool): (n: nat)
    ensures n <= |s| && (n < |s| ==> sep(s[n]))
    ensures forall i | 0 <= i < n :: !sep(s[i])
  {
    if s == "" || sep(s[0]) then 0 else 1 + RunLength(s[1..], sep)
  }

  /** The maximal runs of non-separators (`split_whitespace` when `sep` is whitespace). */
  function Tokens(s: string, sep: char -> bool): seq<string>
    decreases |s|
  {
    if s == "" then []
    else if sep(s[0]) then Tokens(s[1..], sep)
    else var n := RunLength(s, sep); [s[..n]] + Tokens(s[n..], sep)
  }

  /** Nonempty and free of separators. */
  predicate IsToken(t: string, sep: char -> bool) { t != "" && forall i | 0 <= i < |t| :: !sep(t[i]) }

  lemma {:induction false} TokensAreTokens(s: string, sep: char -> bool)
    ensures forall t | t in Tokens(s, sep) :: IsToken(t, sep)
    decreases |s|
  {
    if s != "" {
      if sep(s[0]) {
        TokensAreTokens(s[1..], sep);
      } else {
        TokensAreTokens(s[RunLength(s, sep)..], sep);
      }
    }
  }

  lemma TokensCons(t: string, rest: string, sep: char -> bool)
    requires IsToken(t, sep) && (rest == "" || sep(rest[0]))
    ensures Tokens(t + rest, sep) == [t] + Tokens(rest, sep)
  {
    var s := t + rest;
    var n := RunLength(s, sep);
    assert s[0] == t[0];
    assert forall i | 0 <= i < |t| :: s[i] == t[i];
    assert rest != "" ==> s[|t|] == rest[0];
    assert n == |t|;
    assert s[..n] == t && s[n..] == rest;
  }

  lemma TokensAfter(t: string, c: char, rest: string, sep: char -> bool)
    requires IsToken(t, sep) && sep(c)
    ensures Tokens(t + [c] + rest, sep) == [t] + Tokens(rest, sep)
  {
    var tail := [c] + rest;
    assert tail[1..] == rest;
    assert t + [c] + rest == t + tail;
    TokensCons(t, tail, sep);
  }

  lemma RunFirst(s: string, sep: char -> bool) returns (t: string, rest: string)
    requires s != "" && !sep(s[0])
    ensures s == t + rest && IsToken(t, sep) && (rest == "" || sep(rest[0]))
    ensures Tokens(s, sep) == [t] + Tokens(rest, sep)
  {
    var n := RunLength(s, sep);
    t, rest := s[..n], s[n..];
  }

  lemma TokensWordFirst(t: string, rest: string, c: char, b: string, sep: char -> bool)
    requires IsToken(t, sep) && sep(c) && (rest == "" || sep(rest[0]))
    requires Tokens(rest + [c] + b, sep) == Tokens(rest, sep) + Tokens(b, sep)
    ensures Tokens(t + rest + [c] + b, sep) == [t] + Tokens(rest, sep) + Tokens(b, sep)
  {
    TokensCons(t, rest + [c] + b, sep);
    assert t + rest + [c] + b == t + (rest + [c] + b);
  }

  /** A separator splits the tokens before it from those after it. */
  lemma {:induction false} TokensSplit(a: string, c: char, b: string, sep: char -> bool)
    requires sep(c)
    ensures Tokens(a + [c] + b, sep) == Tokens(a, sep) + Tokens(b, sep)
    decreases |a|
  {
    if a == "" {
      assert (a + [c] + b)[1..] == b;
    } else if sep(a[0]) {
      assert (a + [c] + b)[1..] == a[1..] + [c] + b;
      TokensSplit(a[1..], c, b, sep);
    } else {
      var t, rest := RunFirst(a, sep);
      TokensSplit(rest, c, b, sep);
      TokensWordFirst(t, rest, c, b, sep);
    }
  }

  ghost predicate AllTokens(ts: seq<string>, sep: char -> bool) { forall i | 0 <= i < |ts| :: IsToken(ts[i], sep) }

  /** Splitting undoes joining with a separator. */
  lemma {:induction false} TokensOfJoin(ts: seq<string>, c: char, sep: char -> bool)
    requires sep(c) && AllTokens(ts, sep)
    ensures Tokens(Join(ts, [c]), sep) == ts
  {
    if |ts| == 1 {
      TokensCons(ts[0], "", sep);
      assert ts[0] + "" == ts[0];
    } else if ts != [] {
      TokensOfJoin(ts[1..], c, sep);
      TokensAfter(ts[0], c, Join(ts[1..], [c]), sep);
      assert ts == [ts[0]] + ts[1..];
    }
  }

  // Order --------------------------------------------------------------------

  /** Strict lexicographic order by code point. */
  predicate Less(a: string, b: string) {
    b != "" && (a == "" || a[0] < b[0] || (a[0] == b[0] && Less(a[1..], b[1..])))
  }

  lemma {:induction false} LessTotal(a: string, b: string)
    ensures Less(a, b) || a == b || Less(b, a)
    ensures !(Less(a, b) && Less(b, a)) && !Less(a, a)
  {
    if a != "" && b != "" {
      assert a == [a[0]] + a[1..] && b == [b[0]] + b[1..];
      LessTotal(a[1..], b[1..]);
    }
    if a != "" { LessTotal(a[1..], a[1..]); }
  }

  lemma {:induction false} LessTransitive(a: string, b: string, c: string)
    requires Less(a, b) && Less(b, c)
    ensures Less(a, c)
  {
    if a != "" && a[0] == b[0] == c[0] { LessTransitive(a[1..], b[1..], c[1..]); }
  }

  lemma {:induction false} LessPrefix(p: string, a: string, b: string)
    ensures Less(p + a, p + b) <==> Less(a, b)
  {
    if p == "" {
      assert p + a == a && p + b == b;
    } else {
      assert (p + a)[1..] == p[1..] + a && (p + b)[1..] == p[1..] + b;
      LessPrefix(p[1..], a, b);
    }
  }
}
