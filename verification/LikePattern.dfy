/** Keyword search: the bound `%keyword%` pattern, the LIKE matcher it is given to, and
    the keyword-coverage score computed from the matches.

    The matcher follows the LIKE predicate of section 8.5 of SQL-92 with an ESCAPE
    character; `fold` is the case folding of the comparison (SQLite folds ASCII letters),
    and everything below holds for every folding. */
module LikePattern {
  const ESCAPE := '\\'
  const TITLE_MATCH_WEIGHT := 2
  const CONTENT_MATCH_WEIGHT := 1

  predicate IsMeta(c: char) { c == ESCAPE || c == '%' || c == '_' }

  predicate Like(p: string, t: string, fold: char -> char)
    decreases |p|, |t|
  {
    if p == "" then t == ""
    else if p[0] == '%' then Like(p[1..], t, fold) || (t != "" && Like(p, t[1..], fold))
    else if p[0] == ESCAPE then
      |p| >= 2 && t != "" && fold(t[0]) == fold(p[1]) && Like(p[2..], t[1..], fold)
    else
      t != "" && (p[0] == '_' || fold(t[0]) == fold(p[0])) && Like(p[1..], t[1..], fold)
  }

  function Escaped(k: string): string {
    if k == "" then "" else
    (if IsMeta(k[0]) then [ESCAPE, k[0]] else [k[0]]) + Escaped(k[1..])
  }

  function ContainsPattern(k: string): string { "%" + Escaped(k) + "%" }

  /** The keyword stands at position `i` of the text, up to folding. */
  predicate LiteralAt(t: string, k: string, i: int, fold: char -> char) {
    0 <= i <= |t| - |k| && forall j | 0 <= j < |k| :: fold(t[i + j]) == fold(k[j])
  }

  predicate LiteralSubstring(t: string, k: string, fold: char -> char) {
    exists i | 0 <= i <= |t| :: LiteralAt(t, k, i, fold)
  }

  lemma {:induction false} EscapedSnoc(k: string, c: char)
    ensures Escaped(k + [c]) == Escaped(k) + (if IsMeta(c) then [ESCAPE, c] else [c])
  {
    if k == "" {
      assert Escaped([c][1..]) == "";
    } else {
      assert (k + [c])[1..] == k[1..] + [c];
      EscapedSnoc(k[1..], c);
    }
  }

  method LikeContainsPattern(keyword: string) returns (escaped: string)
    ensures escaped == ContainsPattern(keyword)
  {
    escaped := "%";
    for i := 0 to |keyword|
      invariant escaped == "%" + Escaped(keyword[..i])
    {
      var c := keyword[i];
      EscapedSnoc(keyword[..i], c);
      assert keyword[..i] + [c] == keyword[..i + 1];
      if c == ESCAPE || c == '%' || c == '_' {
        escaped := escaped + [ESCAPE];
      }
      escaped := escaped + [c];
    }
    assert keyword[..|keyword|] == keyword;
    escaped := escaped + "%";
  }

  lemma {:induction false} PercentMatchesAll(t: string, fold: char -> char)
    ensures Like("%", t, fold)
  {
    if t != "" { PercentMatchesAll(t[1..], fold); }
  }

  /** `%q` matches exactly the texts with a suffix that `q` matches. */
  lemma {:induction false} PercentMatchesSuffix(q: string, t: string, fold: char -> char)
    ensures Like("%" + q, t, fold) <==> exists i | 0 <= i <= |t| :: Like(q, t[i..], fold)
    decreases |t|
  {
    var p := "%" + q;
    assert p[1..] == q;
    assert t[0..] == t;
    if t != "" {
      PercentMatchesSuffix(q, t[1..], fold);
      assert forall i | 1 <= i <= |t| :: t[i..] == t[1..][i - 1..];
    }
  }

  /** An escaped keyword followed by `%` matches exactly the texts that begin with it. */
  lemma {:induction false} EscapedMatchesPrefix(k: string, t: string, fold: char -> char)
    ensures Like(Escaped(k) + "%", t, fold) <==> LiteralAt(t, k, 0, fold)
  {
    var p := Escaped(k) + "%";
    if k == "" {
      assert p == "%";
      PercentMatchesAll(t, fold);
    } else {
      var rest := Escaped(k[1..]) + "%";
      if IsMeta(k[0]) {
        assert p == [ESCAPE, k[0]] + rest;
        assert p[2..] == rest;
      } else {
        assert p == [k[0]] + rest;
        assert p[1..] == rest;
      }
      if t != "" {
        EscapedMatchesPrefix(k[1..], t[1..], fold);
        if LiteralAt(t, k, 0, fold) {
          assert forall j | 0 <= j < |k| - 1 :: fold(t[1..][j]) == fold(t[0 + (j + 1)]);
        }
        if fold(t[0]) == fold(k[0]) && LiteralAt(t[1..], k[1..], 0, fold) {
          assert forall j | 0 <= j < |k| :: j == 0 || (k[j] == k[1..][j - 1] && t[0 + j] == t[1..][0 + (j - 1)]);
        }
      }
    }
  }

  /** The generated pattern is a literal-substring test for every keyword, including
      keywords that contain `%`, `_` or the escape character. */
  lemma PatternIsLiteralSubstring(k: string, t: string, fold: char -> char)
    ensures Like(ContainsPattern(k), t, fold) <==> LiteralSubstring(t, k, fold)
  {
    var q := Escaped(k) + "%";
    assert ContainsPattern(k) == "%" + q;
    PercentMatchesSuffix(q, t, fold);
    forall i | 0 <= i <= |t|
      ensures Like(q, t[i..], fold) <==> LiteralAt(t, k, i, fold)
    {
      EscapedMatchesPrefix(k, t[i..], fold);
      assert forall j | 0 <= j < |t| - i :: t[i..][j] == t[i + j];
    }
  }

  // Coverage -----------------------------------------------------------------

  datatype Article = Article(title: string, content: string)

  /** The WHERE clause: some keyword's pattern matches the title or the content. */
  predicate Qualifies(a: Article, keywords: seq<string>, fold: char -> char) {
    exists k | k in keywords ::
      Like(ContainsPattern(k), a.title, fold) || Like(ContainsPattern(k), a.content, fold)
  }

  /** The projected score expression: one CASE pair per keyword. */
  function Score(a: Article, keywords: seq<string>, fold: char -> char): nat {
    if keywords == [] then 0 else
    (if Like(ContainsPattern(keywords[0]), a.title, fold) then TITLE_MATCH_WEIGHT else 0)
    + (if Like(ContainsPattern(keywords[0]), a.content, fold) then CONTENT_MATCH_WEIGHT else 0)
    + Score(a, keywords[1..], fold)
  }

  /** Number of keywords standing literally in `t`. */
  function Hits(t: string, keywords: seq<string>, fold: char -> char): nat {
    if keywords == [] then 0 else
    (if LiteralSubstring(t, keywords[0], fold) then 1 else 0) + Hits(t, keywords[1..], fold)
  }

  /** The score counts literal hits, a title hit twice; the rows that qualify are exactly
      the rows that score above zero. */
  lemma {:induction false} ScoreCountsLiteralHits(a: Article, keywords: seq<string>, fold: char -> char)
    ensures Score(a, keywords, fold) == 2 * Hits(a.title, keywords, fold) + Hits(a.content, keywords, fold)
    ensures Qualifies(a, keywords, fold) <==> Score(a, keywords, fold) > 0
  {
    if keywords != [] {
      ScoreCountsLiteralHits(a, keywords[1..], fold);
      PatternIsLiteralSubstring(keywords[0], a.title, fold);
      PatternIsLiteralSubstring(keywords[0], a.content, fold);
      assert keywords == [keywords[0]] + keywords[1..];
    }
  }
}
