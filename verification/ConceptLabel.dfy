/** Concept labels: the folding loop that canonicalizes a label, and what it computes. */
module ConceptLabel {
  import opened Text

  /** The closed set of concept labels. */
  predicate IsKnown(concept: string) {
    concept == "pr-pattern" || concept == "bug-pattern" || concept == "lesson-learned"
  }

  predicate IsEdge(c: char) {
    IsSpace(c) || c == '"' || c == '\'' || c == '`' || c == '.' || c == ',' || c == ':' || c == ';'
  }

  predicate IsSep(c: char) { c == '_' || c == ' ' || c == '-' }

  predicate IsHyphen(c: char) { c == '-' }

  function Strip(raw: string): string { TrimBy(Trim(raw), IsEdge) }

  /** A concept's words: maximal runs between separators, in lower case. */
  function Words(s: string): seq<string> { Tokens(LowerAll(s), IsSep) }

  /** The canonical label: the known concept with the same words. */
  function Canonical(raw: string): Option<string> {
    var concept := Join(Words(Strip(raw)), "-");
    if IsKnown(concept) then Some(concept) else None
  }

  // The loop -----------------------------------------------------------------

  /** Separators become hyphens and runs of them collapse; `prev` says a hyphen was just written. */
  function Folded(t: string, prev: bool): string {
    if t == "" then ""
    else if IsSep(t[0]) then (if prev then "" else "-") + Folded(t[1..], true)
    else [t[0]] + Folded(t[1..], false)
  }

  lemma FoldedFirst(t: string)
    ensures Folded(t, false) == (if t != "" && IsSep(t[0]) then "-" else "") + Folded(t, true)
  {
  }

  lemma {:induction false} FoldedRun(w: string, rest: string, prev: bool)
    requires IsToken(w, IsSep)
    ensures Folded(w + rest, prev) == w + Folded(rest, false)
    decreases |w|
  {
    var s := w + rest;
    assert s[0] == w[0] && s[1..] == w[1..] + rest;
    if |w| == 1 {
      assert s[1..] == rest;
    } else {
      FoldedRun(w[1..], rest, false);
      assert [w[0]] + (w[1..] + Folded(rest, false)) == w + Folded(rest, false);
    }
  }

  lemma {:induction false} NoTokensAllSep(t: string)
    requires Tokens(t, IsSep) == [] && t != ""
    ensures IsSep(t[|t| - 1]) && Folded(t, true) == ""
  {
    assert IsSep(t[0]);
    if |t| > 1 { NoTokensAllSep(t[1..]); }
  }

  /** A hyphen is left at the end when the text ends in a separator after a word. */
  function Trail(t: string): string {
    if Tokens(t, IsSep) != [] && IsSep(t[|t| - 1]) then "-" else ""
  }

  /** After a hyphen, folding writes the words joined by hyphens. */
  lemma {:induction false} FoldedIsJoin(t: string)
    ensures Folded(t, true) == Join(Tokens(t, IsSep), "-") + Trail(t)
    decreases |t|
  {
    if t != "" {
      if IsSep(t[0]) {
        FoldedIsJoin(t[1..]);
      } else {
        FoldedWordFirst(t, RunLength(t, IsSep));
      }
    }
  }

  lemma {:induction false} FoldedWordFirst(t: string, n: nat)
    requires t != "" && !IsSep(t[0]) && n == RunLength(t, IsSep)
    ensures Folded(t, true) == Join(Tokens(t, IsSep), "-") + Trail(t)
    decreases |t|, 0
  {
    var w, rest := t[..n], t[n..];
    assert t == w + rest;
    FoldedRun(w, rest, true);
    var ws := Tokens(rest, IsSep);
    assert Tokens(t, IsSep) == [w] + ws;
    if rest == "" {
      assert Join([w], "-") == w;
      assert !IsSep(t[|t| - 1]);
    } else {
      FoldedFirst(rest);
      if ws == [] {
        NoTokensAllSep(rest);
        assert [w] + ws == [w];
      } else {
        FoldedIsJoin(rest);
        assert ([w] + ws)[1..] == ws;
        assert w + ("-" + (Join(ws, "-") + Trail(rest))) == (w + "-" + Join(ws, "-")) + Trail(rest);
      }
    }
  }

  lemma JoinClean(ts: seq<string>)
    requires forall t | t in ts :: IsToken(t, IsSep)
    ensures CleanBy(Join(ts, "-"), IsHyphen)
  {
    if ts != [] {
      JoinEnds(ts);
    }
  }

  lemma {:induction false} JoinEnds(ts: seq<string>)
    requires ts != [] && forall t | t in ts :: IsToken(t, IsSep)
    ensures Join(ts, "-") != ""
    ensures !IsSep(Join(ts, "-")[0]) && !IsSep(Join(ts, "-")[|Join(ts, "-")| - 1])
  {
    assert ts[0] in ts;
    if |ts| > 1 {
      assert forall t | t in ts[1..] :: t in ts;
      JoinEnds(ts[1..]);
    }
  }

  lemma FoldedParts(t: string) returns (lead: string, trail: string)
    ensures Folded(t, false) == lead + Join(Tokens(t, IsSep), "-") + trail
    ensures AllOf(lead, IsHyphen) && AllOf(trail, IsHyphen)
  {
    FoldedFirst(t);
    FoldedIsJoin(t);
    lead, trail := if t != "" && IsSep(t[0]) then "-" else "", Trail(t);
    var body := Join(Tokens(t, IsSep), "-");
    assert lead + (body + trail) == lead + body + trail;
  }

  /** Trimming the folded text leaves exactly the words joined by hyphens. */
  lemma TrimmedFoldIsJoin(t: string)
    ensures TrimBy(Folded(t, false), IsHyphen) == Join(Tokens(t, IsSep), "-")
  {
    var lead, trail := FoldedParts(t);
    TokensAreTokens(t, IsSep);
    JoinClean(Tokens(t, IsSep));
    TrimByPad(lead, Join(Tokens(t, IsSep), "-"), trail, IsHyphen);
  }

  /** Separators are written as hyphens, everything else in lower case. */
  function FoldChar(ch: char): char { if ch == '_' || ch == ' ' then '-' else Lower(ch) }

  lemma FoldCharIs(ch: char)
    ensures IsSep(Lower(ch)) <==> FoldChar(ch) == '-'
    ensures FoldChar(ch) != '-' ==> FoldChar(ch) == Lower(ch)
  {
  }

  lemma FoldedStep(canon: string, t: string, prev: bool)
    requires t != ""
    ensures IsSep(t[0]) ==> canon + Folded(t, prev) == (if prev then canon else canon + "-") + Folded(t[1..], true)
    ensures !IsSep(t[0]) ==> canon + Folded(t, prev) == canon + [t[0]] + Folded(t[1..], false)
  {
    if IsSep(t[0]) {
      if !prev { Regroup(canon, "-", Folded(t[1..], true)); }
    } else {
      Regroup(canon, [t[0]], Folded(t[1..], false));
    }
  }

  method FoldSeparators(trimmed: string) returns (canon: string)
    ensures canon == Folded(LowerAll(trimmed), false)
  {
    ghost var t := LowerAll(trimmed);
    var prevHyphen := false;
    canon := "";
    for i := 0 to |trimmed|
      invariant canon + Folded(t[i..], prevHyphen) == Folded(t, false)
    {
      var c := FoldChar(trimmed[i]);
      FoldCharIs(trimmed[i]);
      FoldedStep(canon, t[i..], prevHyphen);
      assert t[i..][0] == Lower(trimmed[i]) && t[i..][1..] == t[i + 1..];
      if c == '-' {
        if !prevHyphen { canon := canon + "-"; }
        prevHyphen := true;
      } else {
        canon := canon + [c];
        prevHyphen := false;
      }
    }
  }

  method CanonicalConcept(raw: string) returns (r: Option<string>)
    ensures r == Canonical(raw)
  {
    var trimmed := TrimBy(Trim(raw), IsEdge);
    var canon := FoldSeparators(trimmed);
    TrimmedFoldIsJoin(LowerAll(trimmed));
    canon := TrimBy(canon, IsHyphen);
    r := if canon == "pr-pattern" then Some("pr-pattern")
         else if canon == "bug-pattern" then Some("bug-pattern")
         else if canon == "lesson-learned" then Some("lesson-learned")
         else None;
  }

  // What it recognises -------------------------------------------------------

  predicate IsLowerWord(w: string) { w != "" && forall i | 0 <= i < |w| :: 'a' <= w[i] <= 'z' }

  lemma TwoWords(a: string, b: string, concept: string)
    requires IsLowerWord(a) && IsLowerWord(b) && concept == a + "-" + b
    ensures Words(concept) == [a, b] && Join([a, b], "-") == concept
  {
    assert [a, b][1..] == [b];
    assert Join([b], "-") == b;
    assert LowerAll(concept) == concept;
    TokensOfJoin([a, b], '-', IsSep);
  }

  lemma StripClean(s: string)
    requires CleanBy(s, IsEdge)
    ensures Strip(s) == s
  {
    TrimByClean(s, IsSpace);
    TrimByClean(s, IsEdge);
  }

  lemma TwoWordLabel(a: string, b: string)
    requires IsLowerWord(a) && IsLowerWord(b)
    ensures var concept := a + "-" + b;
      Join(Words(concept), "-") == concept && Strip(concept) == concept
  {
    var concept := a + "-" + b;
    TwoWords(a, b, concept);
    StripClean(concept);
  }

  /** A known concept is its own words joined by hyphens, and stripping leaves it alone. */
  lemma KnownLabel(concept: string)
    requires IsKnown(concept)
    ensures Join(Words(concept), "-") == concept && Strip(concept) == concept
  {
    if concept == "pr-pattern" {
      assert concept == "pr" + "-" + "pattern";
      TwoWordLabel("pr", "pattern");
    } else if concept == "bug-pattern" {
      assert concept == "bug" + "-" + "pattern";
      TwoWordLabel("bug", "pattern");
    } else {
      assert concept == "lesson" + "-" + "learned";
      TwoWordLabel("lesson", "learned");
    }
  }

  /** A raw label maps to a known concept exactly when, stripped of edge punctuation, it has
      the same words up to case and separators. */
  lemma CanonicalIffSameWords(raw: string, concept: string)
    requires IsKnown(concept)
    ensures Canonical(raw) == Some(concept) <==> Words(Strip(raw)) == Words(concept)
  {
    KnownLabel(concept);
    WordsOfJoin(Strip(raw));
    WordsOfJoin(concept);
  }

  lemma WordsOfJoin(s: string)
    ensures Tokens(Join(Words(s), "-"), IsSep) == Words(s)
  {
    TokensAreTokens(LowerAll(s), IsSep);
    TokensOfJoin(Words(s), '-', IsSep);
  }

  /** The label of `s`, if it has one, is its own label. */
  ghost predicate SelfLabelled(canon: string -> Option<string>, s: string) {
    canon(s).Some? ==> canon(canon(s).value) == canon(s)
  }

  /** A canonical label canonicalizes to itself. */
  lemma CanonicalIsStable(raw: string)
    ensures SelfLabelled(Canonical, raw)
  {
    if Canonical(raw).Some? { KnownLabel(Canonical(raw).value); }
  }

  // Variants -----------------------------------------------------------------

  /** Blanks and the punctuation that may surround a label. */
  predicate IsPadding(c: char) { IsSpace(c) || c in "\"'`.,:;" }

  predicate IsLink(c: char) { c in "_ -" }

  lemma StripPadding(pre: string, core: string, post: string)
    requires AllOf(pre, IsPadding) && AllOf(post, IsPadding) && CleanBy(core, IsPadding)
    ensures Strip(pre + core + post) == core
  {
    PaddingIsEdge();
    TrimByTwice(pre + core + post, IsSpace, IsEdge);
    TrimByPad(pre, core, post, IsEdge);
  }

  lemma PaddingIsEdge()
    ensures forall c :: IsPadding(c) <==> IsEdge(c)
  {
  }

  lemma LinkedWords(u: string, links: string, v: string)
    requires IsLowerWord(LowerAll(u)) && IsLowerWord(LowerAll(v)) && links != "" && AllOf(links, IsLink)
    ensures Words(u + links + v) == [LowerAll(u), LowerAll(v)]
  {
    var a, b := LowerAll(u), LowerAll(v);
    LowerAllConcat(u + links, v);
    LowerAllConcat(u, links);
    assert LowerAll(links) == links;
    assert a + links + b == a + (links + b);
    TokensCons(a, links + b, IsSep);
    LinksAreSkipped(links, b);
    TokensCons(b, "", IsSep);
    assert b + "" == b;
  }

  lemma {:induction false} LinksAreSkipped(links: string, b: string)
    requires AllOf(links, IsLink)
    ensures Tokens(links + b, IsSep) == Tokens(b, IsSep)
  {
    if links == "" {
      assert links + b == b;
    } else {
      assert (links + b)[1..] == links[1..] + b;
      LinksAreSkipped(links[1..], b);
    }
  }

  lemma VariantHasLabel(pre: string, u: string, links: string, v: string, post: string)
    requires AllOf(pre, IsPadding) && AllOf(post, IsPadding) && links != "" && AllOf(links, IsLink)
    requires IsLowerWord(LowerAll(u)) && IsLowerWord(LowerAll(v)) && IsKnown(LowerAll(u) + "-" + LowerAll(v))
    ensures Canonical(pre + (u + links + v) + post) == Some(LowerAll(u) + "-" + LowerAll(v))
  {
    var core := u + links + v;
    assert LowerAll(u)[0] == Lower(core[0]) && LowerAll(v)[|v| - 1] == Lower(core[|core| - 1]);
    StripPadding(pre, core, post);
    LinkedWords(u, links, v);
    TwoWords(LowerAll(u), LowerAll(v), LowerAll(u) + "-" + LowerAll(v));
  }

  /** Any spelling of a known concept is recognized: in any letter case, with any run of
      underscores, spaces and hyphens between its words, and with blanks and punctuation around. */
  lemma VariantIsRecognized(pre: string, u: string, links: string, v: string, post: string)
    requires AllOf(pre, IsPadding) && AllOf(post, IsPadding) && links != "" && AllOf(links, IsLink)
    ensures LowerAll(u) == "pr" && LowerAll(v) == "pattern" ==>
      Canonical(pre + (u + links + v) + post) == Some("pr-pattern")
    ensures LowerAll(u) == "bug" && LowerAll(v) == "pattern" ==>
      Canonical(pre + (u + links + v) + post) == Some("bug-pattern")
    ensures LowerAll(u) == "lesson" && LowerAll(v) == "learned" ==>
      Canonical(pre + (u + links + v) + post) == Some("lesson-learned")
  {
    assert "pr" + "-" + "pattern" == "pr-pattern" && "bug" + "-" + "pattern" == "bug-pattern";
    assert "lesson" + "-" + "learned" == "lesson-learned";
    var a, b := LowerAll(u), LowerAll(v);
    if ((a == "pr" || a == "bug") && b == "pattern") || (a == "lesson" && b == "learned") {
      VariantHasLabel(pre, u, links, v, post);
    }
  }
}
