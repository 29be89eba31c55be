/** The done-criteria detector, its length cap, and the done-gate repair that appends a finish
    line to a goal's description.

    What counts as a heading and as a checkable item is a `Rules` value; `Shipped` holds the
    program's own. */
module DoneCriteria {
  import opened Text

  datatype Rules = Rules(headings: seq<string>, item: string -> bool)

  datatype Signal = NoSignal | Heading(heading: string) | DoneGateFinishLine

  const CAP := 8192

  const MARKER: string := "\n\nDone when: "

  const MARKER_LOWER: string := "\n\ndone when: "

  const HEADINGS: seq<string> := [
    "acceptance criteria", "definition of done", "success criteria", "completion criteria",
    "done criteria", "done-criteria", "exit criteria"]

  // The detector ---------------------------------------------------------------

  function Capped(d: string): string { if |d| <= CAP then d else d[..CAP] }

  function Scan(d: string): string { LowerAll(Capped(d)) }

  predicate IsDigit(c: char) { '0' <= c <= '9' }

  /** One digit or more, then a dot or a closing parenthesis. */
  ghost predicate Ordered(t: string) {
    exists k | 0 < k < |t| :: AllOf(t[..k], IsDigit) && (t[k] == '.' || t[k] == ')')
  }

  method StartsWithOrderedItem(t: string) returns (r: bool)
    ensures r <==> Ordered(t)
  {
    var digit := false;
    for i := 0 to |t|
      invariant AllOf(t[..i], IsDigit) && (digit <==> i > 0)
    {
      if !IsDigit(t[i]) {
        assert forall k | 0 < k < i :: t[..i][k] == t[k];
        assert forall k | i < k < |t| :: t[..k][i] == t[i];
        return digit && (t[i] == '.' || t[i] == ')');
      }
      digit := true;
      assert t[..i + 1] == t[..i] + [t[i]];
    }
    assert t[..|t|] == t;
    assert forall k | 0 < k < |t| :: IsDigit(t[k]);
    return false;
  }

  predicate Bullet(p: string) {
    p == "- " || p == "* " || p == ['\U{2022}', ' '] || p == "[ ]" || p == "[x]" || p == "[X]"
  }

  ghost predicate Marked(t: string) { (exists p :: Bullet(p) && StartsWith(t, p)) || Ordered(t) }

  ghost predicate IsItem(line: string) { Marked(TrimLeft(line, IsSpace)) }

  ghost predicate HasItem(text: string, item: string -> bool) { exists line :: line in Lines(text) && item(line) }

  ghost function Matched(scan: string, headings: seq<string>): Option<string> {
    if headings == [] then None
    else if Contains(scan, headings[0]) then Some(headings[0])
    else Matched(scan, headings[1..])
  }

  ghost function Judge(scan: string, rules: Rules): Signal {
    var heading := Matched(scan, rules.headings);
    if heading.Some? && HasItem(scan, rules.item) then Heading(heading.value)
    else if Contains(scan, MARKER_LOWER) then DoneGateFinishLine
    else NoSignal
  }

  ghost function Detect(d: string, rules: Rules): Signal { Judge(Scan(d), rules) }

  ghost predicate Measurable(d: string, rules: Rules) { !Detect(d, rules).NoSignal? }

  // What is assumed of the rules -------------------------------------------------

  /** A longer line stays an item, a carriage return at its end is immaterial, and the text of
      the marker is none. */
  ghost predicate GoodItem(item: string -> bool) {
    && (forall a, b | item(a) :: item(a + b))
    && (forall a :: item(StripCr(a)) == item(a))
    && (forall a: string | a == "" || a[0] == 'd' || a[0] == 'x' :: !item(a))
  }

  ghost predicate GoodHeading(h: string) { |h| >= |MARKER_LOWER| && '\n' !in h && h[0] != 'x' }

  ghost predicate Fit(rules: Rules) {
    GoodItem(rules.item) && forall i | 0 <= i < |rules.headings| :: GoodHeading(rules.headings[i])
  }

  // Items under appending --------------------------------------------------------

  lemma HasItemCons(line: string, rest: string, item: string -> bool)
    requires GoodItem(item) && '\n' !in line
    ensures HasItem(line + "\n" + rest, item) <==> item(line) || HasItem(rest, item)
  {
    LinesCons(line, rest);
    assert item(StripCr(line)) == item(line);
    assert forall l :: l in [StripCr(line)] + Lines(rest) <==> l == StripCr(line) || l in Lines(rest);
  }

  lemma HasItemLine(line: string, item: string -> bool)
    requires GoodItem(item) && '\n' !in line
    ensures HasItem(line, item) <==> item(line)
  {
    LinesLast(line);
    assert forall l :: l in [line] <==> l == line;
  }

  /** Appending text never loses a checkable item. */
  lemma {:induction false} ItemsStay(a: string, b: string, item: string -> bool)
    requires GoodItem(item) && HasItem(a, item)
    ensures HasItem(a + b, item)
    decreases |a|
  {
    if '\n' in a {
      var line, rest := FirstLine(a);
      HasItemCons(line, rest, item);
      HasItemCons(line, rest + b, item);
      Regroup(line + "\n", rest, b);
      if HasItem(rest, item) { ItemsStay(rest, b, item); }
    } else {
      HasItemLine(a, item);
      LongerLine(a, b, item);
    }
  }

  lemma LongerLine(a: string, b: string, item: string -> bool)
    requires GoodItem(item) && '\n' !in a && item(a)
    ensures HasItem(a + b, item)
  {
    if '\n' in b {
      var line, rest := FirstLine(b);
      assert a + b == (a + line) + "\n" + rest;
      HasItemCons(a + line, rest, item);
    } else {
      HasItemLine(a + b, item);
    }
  }

  /** A line break separates the items before it from those after it. */
  lemma {:induction false} ItemsSplit(a: string, b: string, item: string -> bool)
    requires GoodItem(item)
    ensures HasItem(a + "\n" + b, item) <==> HasItem(a, item) || HasItem(b, item)
    decreases |a|
  {
    if '\n' in a {
      var line, rest := FirstLine(a);
      HasItemCons(line, rest, item);
      HasItemCons(line, rest + "\n" + b, item);
      assert a + "\n" + b == line + "\n" + (rest + "\n" + b);
      ItemsSplit(rest, b, item);
    } else {
      HasItemLine(a, item);
      HasItemCons(a, b, item);
    }
  }

  lemma OneLineItem(w: string, item: string -> bool)
    requires GoodItem(item) && '\n' !in w && (w == "" || w[0] == 'd' || w[0] == 'x')
    ensures !HasItem(w, item)
  {
    HasItemLine(w, item);
  }

  // Headings -------------------------------------------------------------------

  /** The first heading in the list that the text contains. */
  lemma {:induction false} MatchedIsFirst(scan: string, headings: seq<string>) returns (k: nat)
    ensures k <= |headings| && (forall i | 0 <= i < k :: !Contains(scan, headings[i]))
    ensures Matched(scan, headings) == if k == |headings| then None else Some(headings[k])
    ensures k < |headings| ==> Contains(scan, headings[k])
  {
    k := 0;
    if headings != [] && !Contains(scan, headings[0]) {
      var j := MatchedIsFirst(scan, headings[1..]);
      assert forall i | 1 <= i < j + 1 :: headings[i] == headings[1..][i - 1];
      k := j + 1;
    }
  }

  /** What measurable means: some heading and some checkable item, or the marker, within the
      cap. */
  lemma MeasurableIff(d: string, rules: Rules)
    ensures Measurable(d, rules) <==>
      || ((exists i :: 0 <= i < |rules.headings| && Contains(Scan(d), rules.headings[i]))
          && exists line :: line in Lines(Scan(d)) && rules.item(line))
      || Contains(Scan(d), MARKER_LOWER)
  {
    var k := MatchedIsFirst(Scan(d), rules.headings);
  }

  lemma {:induction false} MatchedSame(a: string, b: string, headings: seq<string>)
    requires forall i | 0 <= i < |headings| :: Contains(a, headings[i]) <==> Contains(b, headings[i])
    ensures Matched(a, headings) == Matched(b, headings)
  {
    if headings != [] {
      assert forall i | 0 <= i < |headings[1..]| :: headings[1..][i] == headings[i + 1];
      MatchedSame(a, b, headings[1..]);
    }
  }

  lemma {:induction false} MatchedStays(a: string, b: string, headings: seq<string>)
    requires Matched(a, headings).Some?
    ensures Matched(a + b, headings).Some?
  {
    if Contains(a, headings[0]) {
      ContainsEither(a, b, headings[0]);
    } else {
      MatchedStays(a, b, headings[1..]);
    }
  }

  // The cap ----------------------------------------------------------------------

  /** Only the first 8192 characters count. */
  lemma OnlyTheCapCounts(a: string, b: string, rules: Rules)
    requires Capped(a) == Capped(b)
    ensures Detect(a, rules) == Detect(b, rules)
  {
  }

  lemma ScanGrows(d: string, more: string) returns (x: string)
    ensures Scan(d + more) == Scan(d) + x
  {
    if |d| > CAP {
      x := "";
      assert Capped(d + more) == Capped(d);
      assert Scan(d) + x == Scan(d);
    } else {
      var rest := Capped(d + more)[|d|..];
      x := LowerAll(rest);
      assert Capped(d + more) == d + rest;
      LowerAllConcat(d, rest);
    }
  }

  lemma JudgeGrows(a: string, b: string, rules: Rules)
    requires GoodItem(rules.item) && !Judge(a, rules).NoSignal?
    ensures !Judge(a + b, rules).NoSignal? && (Judge(a, rules).Heading? ==> Judge(a + b, rules).Heading?)
  {
    if Judge(a, rules).Heading? {
      MatchedStays(a, b, rules.headings);
      ItemsStay(a, b, rules.item);
    } else {
      ContainsEither(a, b, MARKER_LOWER);
    }
  }

  /** A measurable description stays measurable under appending, and a stated criteria section
      stays the reason. */
  lemma AppendingKeepsMeasurable(d: string, more: string, rules: Rules)
    requires GoodItem(rules.item) && Measurable(d, rules)
    ensures Measurable(d + more, rules)
    ensures Detect(d, rules).Heading? ==> Detect(d + more, rules).Heading?
  {
    var x := ScanGrows(d, more);
    JudgeGrows(Scan(d), x, rules);
  }

  // The marker -------------------------------------------------------------------

  ghost predicate IsMarker(m: string) {
    |m| == 13 && m[0] == '\n' && m[1] == '\n' && forall j | 2 <= j < 13 :: m[j] != '\n'
  }

  lemma MarkersAreMarkers()
    ensures IsMarker(MARKER) && IsMarker(MARKER_LOWER) && MARKER_LOWER[2] == 'd'
    ensures LowerAll(MARKER) == MARKER_LOWER
  {
  }

  ghost predicate StartsBreak(t: string) { t != "" && t[0] == '\n' && (|t| >= 2 ==> t[1] == '\n') }

  /** An occurrence of the marker never straddles the seam to a text that starts like it. */
  lemma NoStraddle(base: string, t: string, m: string, i: nat)
    requires IsMarker(m) && StartsBreak(t) && At(base + t, m, i) && i < |base|
    ensures At(base, m, i)
  {
    var text := base + t;
    assert forall q | i <= q < i + 13 :: text[q] == text[i..i + 13][q - i] == m[q - i];
    assert text[|base|] == t[0] && (|t| >= 2 ==> text[|base| + 1] == t[1]);
    assert text[i..i + 13] == base[i..i + 13];
  }

  lemma ContainsMarkerSeam(base: string, t: string, m: string)
    requires IsMarker(m) && StartsBreak(t) && |t| < 13
    ensures Contains(base + t, m) <==> Contains(base, m)
  {
    if Contains(base, m) { ContainsEither(base, t, m); }
    if Contains(base + t, m) {
      var i :| 0 <= i <= |base + t| && At(base + t, m, i);
      NoStraddle(base, t, m, i);
    }
  }

  lemma ContainsHeadingSeam(base: string, t: string, h: string)
    requires StartsBreak(t) && |t| < |h| && '\n' !in h
    ensures Contains(base + t, h) <==> Contains(base, h)
  {
    if Contains(base, h) { ContainsEither(base, t, h); }
    if Contains(base + t, h) {
      var i :| 0 <= i <= |base + t| && At(base + t, h, i);
      NoBreakInside(base, t, h, i);
      assert (base + t)[i..i + |h|] == base[i..i + |h|];
      assert At(base, h, i);
    }
  }

  lemma NoBreakInside(base: string, t: string, h: string, i: nat)
    requires StartsBreak(t) && |t| < |h| && '\n' !in h && At(base + t, h, i)
    ensures i + |h| <= |base|
  {
    var text := base + t;
    assert forall q | i <= q < i + |h| :: text[q] == text[i..i + |h|][q - i] == h[q - i] && h[q - i] in h;
    assert text[|base|] == '\n';
  }

  // The repair -------------------------------------------------------------------

  lemma MarkerPartHasNoItem(base: string, k: nat, m: string, item: string -> bool)
    requires GoodItem(item) && IsMarker(m) && m[2] == 'd' && 0 < k < 13
    ensures HasItem(base + m[..k], item) <==> HasItem(base, item)
  {
    var w := if k <= 2 then "" else m[2..k];
    OneLineItem(w, item);
    OneLineItem("", item);
    if k == 1 {
      assert base + m[..k] == base + "\n" + "";
      ItemsSplit(base, "", item);
    } else {
      assert base + m[..k] == base + "\n" + ("" + "\n" + w);
      ItemsSplit(base, "" + "\n" + w, item);
      ItemsSplit("", w, item);
    }
  }

  /** A cut-off marker says nothing. */
  lemma CutMarkerIsMute(base: string, k: nat, rules: Rules)
    requires Fit(rules) && k < 13
    ensures Judge(base + MARKER_LOWER[..k], rules) == Judge(base, rules)
  {
    MarkersAreMarkers();
    var t := MARKER_LOWER[..k];
    if k == 0 {
      assert base + t == base;
    } else {
      CutHeadings(base, t, rules.headings);
      MarkerPartHasNoItem(base, k, MARKER_LOWER, rules.item);
      ContainsMarkerSeam(base, t, MARKER_LOWER);
    }
  }

  lemma CutHeadings(base: string, t: string, headings: seq<string>)
    requires StartsBreak(t) && |t| < 13 && forall i | 0 <= i < |headings| :: GoodHeading(headings[i])
    ensures Matched(base + t, headings) == Matched(base, headings)
  {
    forall i | 0 <= i < |headings|
      ensures Contains(base + t, headings[i]) <==> Contains(base, headings[i])
    {
      ContainsHeadingSeam(base, t, headings[i]);
    }
    MatchedSame(base + t, base, headings);
  }

  lemma ScanRepaired(base: string, rest: string) returns (k: nat)
    requires |base| + 13 > CAP
    ensures k < 13 && Scan(base + MARKER + rest) == Scan(base) + MARKER_LOWER[..k]
  {
    MarkersAreMarkers();
    var d := base + MARKER + rest;
    if |base| >= CAP {
      k := 0;
      assert Capped(d) == Capped(base);
      assert Scan(base) + MARKER_LOWER[..0] == Scan(base);
    } else {
      k := CAP - |base|;
      assert Capped(d) == base + MARKER[..k];
      LowerAllConcat(base, MARKER[..k]);
      assert LowerAll(MARKER[..k]) == LowerAll(MARKER)[..k];
    }
  }

  lemma ScanMarked(base: string, rest: string)
    requires |base| + 13 <= CAP
    ensures Contains(Scan(base + MARKER + rest), MARKER_LOWER)
  {
    MarkersAreMarkers();
    var d := base + MARKER + rest;
    var tail := Capped(d)[|base| + 13..];
    assert Capped(d) == base + MARKER + tail;
    LowerAllConcat(base + MARKER, tail);
    LowerAllConcat(base, MARKER);
    assert MARKER_LOWER[0..13] == MARKER_LOWER;
    assert At(MARKER_LOWER, MARKER_LOWER, 0);
    ContainsInside(LowerAll(base), MARKER_LOWER, LowerAll(tail), MARKER_LOWER);
  }

  /** A description with an appended finish line is measurable exactly when the marker ends
      within the cap or the description was measurable without it. */
  lemma FinishLineWorksIff(base: string, rest: string, rules: Rules)
    requires Fit(rules)
    ensures Measurable(base + MARKER + rest, rules) <==> |base| + 13 <= CAP || Measurable(base, rules)
  {
    if |base| + 13 <= CAP {
      ScanMarked(base, rest);
    } else {
      var k := ScanRepaired(base, rest);
      CutMarkerIsMute(Scan(base), k, rules);
    }
  }

  function BaseOf(description: string): string {
    match SplitOnce(description, MARKER)
    case None => description
    case Some(parts) => parts.0
  }

  /** What applying a done-gate pin writes as the description. */
  function Applied(description: string, finishLine: string): string { BaseOf(description) + MARKER + finishLine }

  /** Applying keeps the text before the first marker and ends in the marker and the new line. */
  lemma AppliedKeepsText(d: string, line: string) returns (base: string, last: string)
    ensures Applied(d, line) == base + "\n\nDone when: " + line && !Contains(base, "\n\nDone when: ")
    ensures d == base || d == base + "\n\nDone when: " + last
  {
    SplitParts(d, MARKER);
    base, last := d, "";
    if Contains(d, MARKER) { base, last := SplitOnce(d, MARKER).value.0, SplitOnce(d, MARKER).value.1; }
  }

  lemma BaseOfApplied(base: string, line: string)
    requires !Contains(base, MARKER)
    ensures BaseOf(base + MARKER + line) == base
  {
    MarkersAreMarkers();
    var t := MARKER + line;
    assert base + MARKER + line == base + t;
    forall i | 0 <= i < |base| ensures !At(base + MARKER + line, MARKER, i) {
      if At(base + t, MARKER, i) { NoStraddle(base, t, MARKER, i); }
    }
    SplitAtFirst(base, MARKER, line);
  }

  lemma BaseHasNoMarker(d: string)
    ensures !Contains(BaseOf(d), MARKER)
  {
    SplitParts(d, MARKER);
  }

  /** Finish lines never stack: only the last one applied remains. */
  lemma ApplyingAgainReplaces(d: string, first: string, second: string)
    ensures Applied(Applied(d, first), second) == Applied(d, second)
  {
    BaseHasNoMarker(d);
    BaseOfApplied(BaseOf(d), first);
  }

  /** The repair makes the goal measurable exactly when its own text leaves room for the marker
      within the cap, or was measurable already. */
  lemma RepairWorksIff(d: string, line: string, rules: Rules)
    requires Fit(rules)
    ensures Measurable(Applied(d, line), rules) <==> |BaseOf(d)| + 13 <= CAP || Measurable(BaseOf(d), rules)
  {
    FinishLineWorksIff(BaseOf(d), line, rules);
  }

  function Plain(n: nat): string { seq(n, i => 'x') }

  lemma PlainSaysNothing(n: nat, rules: Rules)
    requires Fit(rules)
    ensures !Measurable(Plain(n), rules)
  {
    var scan := Scan(Plain(n));
    assert forall i | 0 <= i < |scan| :: scan[i] == 'x';
    OneLineItem(scan, rules.item);
    MarkersAreMarkers();
    NotInPlain(scan, MARKER_LOWER);
  }

  lemma NotInPlain(scan: string, n: string)
    requires (forall i | 0 <= i < |scan| :: scan[i] == 'x') && n != "" && n[0] != 'x'
    ensures !Contains(scan, n)
  {
    assert forall i | 0 <= i <= |scan| - |n| :: scan[i..i + |n|][0] == scan[i];
  }

  /** A long description defeats the repair. */
  lemma RepairCanFail(n: nat, line: string, rules: Rules)
    requires Fit(rules) && n + 13 > CAP
    ensures !Measurable(Applied(Plain(n), line), rules)
  {
    MarkersAreMarkers();
    NotInPlain(Plain(n), MARKER);
    SplitParts(Plain(n), MARKER);
    PlainSaysNothing(n, rules);
    RepairWorksIff(Plain(n), line, rules);
  }

  // The shipped rules --------------------------------------------------------------

  ghost function Shipped(): Rules { Rules(HEADINGS, IsItem) }

  lemma HeadingsAreGood()
    ensures forall i | 0 <= i < |HEADINGS| :: GoodHeading(HEADINGS[i])
  {
  }

  lemma PrefixStays(t: string, b: string, p: string)
    requires StartsWith(t, p)
    ensures StartsWith(t + b, p)
  {
    assert (t + b)[..|p|] == t[..|p|];
  }

  lemma PrefixWithoutLast(t: string, c: char, p: string)
    requires StartsWith(t + [c], p) && p != "" && p[|p| - 1] != c
    ensures StartsWith(t, p)
  {
    var s := t + [c];
    assert s[..|p|][|p| - 1] == s[|p| - 1];
    assert |p| <= |t|;
    assert s[..|p|] == t[..|p|];
  }

  lemma OrderedMore(t: string, b: string)
    requires Ordered(t)
    ensures Ordered(t + b)
  {
    var k :| 0 < k < |t| && AllOf(t[..k], IsDigit) && (t[k] == '.' || t[k] == ')');
    assert (t + b)[..k] == t[..k];
  }

  lemma OrderedLess(t: string, c: char)
    requires Ordered(t + [c]) && c == '\r'
    ensures Ordered(t)
  {
    var s := t + [c];
    var k :| 0 < k < |s| && AllOf(s[..k], IsDigit) && (s[k] == '.' || s[k] == ')');
    assert s[..k] == t[..k];
  }

  lemma MarkedMore(t: string, b: string)
    requires Marked(t)
    ensures Marked(t + b)
  {
    if Ordered(t) {
      OrderedMore(t, b);
    } else {
      var p :| Bullet(p) && StartsWith(t, p);
      PrefixStays(t, b, p);
    }
  }

  lemma MarkedLess(t: string)
    requires Marked(t + "\r")
    ensures Marked(t)
  {
    if Ordered(t + "\r") {
      OrderedLess(t, '\r');
    } else {
      var p :| Bullet(p) && StartsWith(t + "\r", p);
      PrefixWithoutLast(t, '\r', p);
    }
  }

  lemma MarkStart(t: string)
    requires Marked(t)
    ensures t != "" && t[0] != 'd' && t[0] != 'x'
  {
    if Ordered(t) {
      var k :| 0 < k < |t| && AllOf(t[..k], IsDigit) && (t[k] == '.' || t[k] == ')');
      assert t[..k][0] == t[0];
    } else {
      var p :| Bullet(p) && StartsWith(t, p);
      assert t[..|p|][0] == t[0];
    }
  }

  lemma TrimLeftMore(a: string, b: string, p: char -> bool)
    requires TrimLeft(a, p) != ""
    ensures TrimLeft(a + b, p) == TrimLeft(a, p) + b
  {
    var pre := TrimLeftParts(a, p);
    TrimLeftPad(pre, TrimLeft(a, p) + b, p);
    Regroup(pre, TrimLeft(a, p), b);
  }

  lemma ItemMore(a: string, b: string)
    requires IsItem(a)
    ensures IsItem(a + b)
  {
    MarkStart(TrimLeft(a, IsSpace));
    TrimLeftMore(a, b, IsSpace);
    MarkedMore(TrimLeft(a, IsSpace), b);
  }

  lemma TrimAllMore(a: string, c: char, p: char -> bool)
    requires TrimLeft(a, p) == "" && p(c)
    ensures TrimLeft(a + [c], p) == ""
  {
    var pre := TrimLeftParts(a, p);
    assert a == pre;
    TrimAllLeft(a + [c], p);
  }

  lemma ItemLessBy(a: string, p: char -> bool)
    requires p('\r') && Marked(TrimLeft(a + "\r", p))
    ensures Marked(TrimLeft(a, p))
  {
    MarkStart(TrimLeft(a + "\r", p));
    if TrimLeft(a, p) == "" {
      TrimAllMore(a, '\r', p);
    } else {
      TrimLeftMore(a, "\r", p);
      MarkedLess(TrimLeft(a, p));
    }
  }

  lemma ItemLess(a: string)
    requires IsItem(a + "\r")
    ensures IsItem(a)
  {
    ItemLessBy(a, IsSpace);
  }

  lemma ItemStripCr(a: string)
    ensures IsItem(StripCr(a)) == IsItem(a)
  {
    var b := StripCr(a);
    if b != a {
      assert a == b + "\r";
      if IsItem(b) { ItemMore(b, "\r"); }
      if IsItem(a) { ItemLess(b); }
    }
  }

  lemma NoMark(a: string)
    requires a == "" || a[0] == 'd' || a[0] == 'x'
    ensures !Marked(a)
  {
    if Marked(a) { MarkStart(a); }
  }

  lemma TrimLeftKeeps(a: string, p: char -> bool)
    requires a == "" || !p(a[0])
    ensures TrimLeft(a, p) == a
  {
  }

  lemma NoItemStart(a: string)
    requires a == "" || a[0] == 'd' || a[0] == 'x'
    ensures !IsItem(a)
  {
    TrimLeftKeeps(a, IsSpace);
    NoMark(a);
  }

  /** The program's own headings and items are as the results above need them. */
  lemma ShippedIsFit()
    ensures Fit(Shipped())
  {
    HeadingsAreGood();
    forall a, b | IsItem(a) ensures IsItem(a + b) { ItemMore(a, b); }
    forall a ensures IsItem(StripCr(a)) == IsItem(a) { ItemStripCr(a); }
    forall a: string | a == "" || a[0] == 'd' || a[0] == 'x' ensures !IsItem(a) { NoItemStart(a); }
  }

  // A criteria section -------------------------------------------------------------

  /** The headings in lower case. */
  predicate IsHeading(h: string) {
    || h == "acceptance criteria" || h == "definition of done" || h == "success criteria"
    || h == "completion criteria" || h == "done criteria" || h == "done-criteria" || h == "exit criteria"
  }

  /** A bullet, a checkbox, or a number with a dot or a parenthesis. */
  predicate IsMark(m: string) {
    || m == "- " || m == "* " || m == ['\U{2022}', ' '] || m == "[ ]" || m == "[x]" || m == "[X]"
    || (|m| >= 2 && AllOf(m[..|m| - 1], IsDigit) && (m[|m| - 1] == '.' || m[|m| - 1] == ')'))
  }

  lemma HeadingListed(h: string)
    ensures IsHeading(h) <==> h in HEADINGS
  {
  }

  lemma MatchedSome(scan: string, h: string)
    requires IsHeading(h) && Contains(scan, h)
    ensures Matched(scan, HEADINGS).Some? && IsHeading(Matched(scan, HEADINGS).value)
  {
    HeadingListed(h);
    var k := MatchedIsFirst(scan, HEADINGS);
    if k < |HEADINGS| {
      assert HEADINGS[k] in HEADINGS;
      HeadingListed(HEADINGS[k]);
    }
  }

  lemma MarkIsMarked(m: string)
    requires IsMark(m)
    ensures Marked(LowerAll(m)) && '\n' !in LowerAll(m) && LowerAll(m) != "" && !IsSpace(LowerAll(m)[0])
  {
    var low := LowerAll(m);
    if m == "[X]" {
      assert low == "[x]";
      assert Bullet("[x]") && low[..3] == "[x]";
    } else if Bullet(m) {
      assert low == m;
      assert low[..|m|] == m;
    } else {
      var k := |m| - 1;
      assert forall i | 0 <= i < k :: m[..k][i] == m[i];
      assert low == m;
    }
  }

  lemma MarkedLineIsItem(ws: string, m: string)
    requires AllOf(ws, IsSpace) && '\n' !in ws && IsMark(m)
    ensures IsItem(LowerAll(ws + m)) && '\n' !in LowerAll(ws + m)
  {
    MarkIsMarked(m);
    LowerAllConcat(ws, m);
    assert LowerAll(ws) == ws;
    TrimLeftPad(ws, LowerAll(m), IsSpace);
  }

  lemma ScanSection(x: string, line: string, rest: string) returns (tail: string)
    requires |x| + 1 + |line| <= CAP
    ensures Scan(x + "\n" + (line + rest)) == LowerAll(x) + "\n" + (LowerAll(line) + tail)
  {
    var d := x + "\n" + (line + rest);
    var more := Capped(d)[|x| + 1 + |line|..];
    tail := LowerAll(more);
    assert Capped(d) == x + "\n" + (line + more);
    LowerAllConcat(x + "\n", line + more);
    LowerAllConcat(x, "\n");
    LowerAllConcat(line, more);
  }

  lemma HeadingInside(a: string, h: string, b: string)
    ensures Contains(LowerAll(a + h + b), LowerAll(h))
  {
    var low := LowerAll(h);
    LowerAllConcat(a + h, b);
    LowerAllConcat(a, h);
    assert low[0..|low|] == low;
    assert At(low, low, 0);
    ContainsInside(LowerAll(a), low, LowerAll(b), low);
  }

  lemma SectionHasItem(x: string, line: string, tail: string)
    requires IsItem(line) && '\n' !in line
    ensures HasItem(x + "\n" + (line + tail), IsItem)
  {
    ShippedIsFit();
    LongerLine(line, tail, IsItem);
    ItemsSplit(x, line + tail, IsItem);
  }

  lemma SectionHasHeading(x: string, more: string, h: string)
    requires IsHeading(h) && Contains(x, h)
    ensures Matched(x + more, HEADINGS).Some? && IsHeading(Matched(x + more, HEADINGS).value)
  {
    ContainsEither(x, more, h);
    MatchedSome(x + more, h);
  }

  lemma JudgeSection(x: string, line: string, tail: string, h: string)
    requires IsItem(line) && '\n' !in line && IsHeading(h) && Contains(x, h)
    ensures var found := Judge(x + "\n" + (line + tail), Shipped()); found.Heading? && IsHeading(found.heading)
  {
    SectionHasItem(x, line, tail);
    Regroup(x, "\n", line + tail);
    SectionHasHeading(x, "\n" + (line + tail), h);
  }

  /** A criteria heading anywhere, then a line that starts with a mark, within the cap: the goal
      is measurable by its own criteria, whatever else it says. */
  lemma CriteriaSectionIsMeasurable(a: string, h: string, b: string, ws: string, m: string, rest: string)
    requires IsHeading(LowerAll(h)) && AllOf(ws, IsSpace) && '\n' !in ws && IsMark(m)
    requires |a + h + b| + 1 + |ws + m| <= CAP
    ensures var found := Detect(a + h + b + "\n" + (ws + m + rest), Shipped());
      found.Heading? && IsHeading(found.heading)
  {
    var tail := ScanSection(a + h + b, ws + m, rest);
    HeadingInside(a, h, b);
    MarkedLineIsItem(ws, m);
    JudgeSection(LowerAll(a + h + b), LowerAll(ws + m), tail, LowerAll(h));
  }
}
