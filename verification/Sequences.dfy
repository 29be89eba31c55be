/** Listings without repetition, first occurrences, and taking elements out of sequences. */
module Sequences {
  ghost predicate Distinct<T>(s: seq<T>) {
    forall i, j | 0 <= i < j < |s| :: s[i] != s[j]
  }

  /** `s` lists the members of `xs`, each once. */
  ghost predicate Lists<T(!new)>(s: seq<T>, xs: set<T>) {
    Distinct(s) && forall x :: x in s <==> x in xs
  }

  lemma ListsSnoc<T(!new)>(s: seq<T>, xs: set<T>, x: T)
    requires Lists(s, xs) && x !in xs
    ensures Lists(s + [x], xs + {x})
  {
    var t := s + [x];
    assert forall i | 0 <= i < |s| :: t[i] == s[i] && t[i] in s;
    assert forall y :: y in t <==> y in s || y == x;
  }

  lemma ListsConcat<T(!new)>(s: seq<T>, xs: set<T>, t: seq<T>, ys: set<T>)
    requires Lists(s, xs) && Lists(t, ys) && xs !! ys
    ensures Lists(s + t, xs + ys)
  {
    assert forall i | 0 <= i < |s| :: s[i] in s;
    assert forall i | 0 <= i < |t| :: t[i] in t;
  }

  lemma PrefixGrows<T(!new)>(s: seq<T>, i: nat, done: set<T>)
    requires Distinct(s) && i < |s| && Lists(s[..i], done)
    ensures s[i] !in done && Lists(s[..i + 1], done + {s[i]})
  {
    assert forall j | 0 <= j < i :: s[..i][j] == s[j];
    assert s[i] !in s[..i];
    assert s[..i + 1] == s[..i] + [s[i]];
    ListsSnoc(s[..i], done, s[i]);
  }

  /** The distinct members of `s` in order of first occurrence. */
  function FirstSeen<T(==)>(s: seq<T>): (r: seq<T>)
    ensures forall x | x in s :: x in r
    ensures forall x | x in r :: x in s
    ensures Distinct(r)
  {
    if s == [] then [] else
    var f := FirstSeen(s[..|s| - 1]);
    var x := s[|s| - 1];
    assert s == s[..|s| - 1] + [x];
    if x in f then f else f + [x]
  }

  lemma FirstSeenSnoc<T>(s: seq<T>, i: nat)
    requires i < |s|
    ensures FirstSeen(s[..i + 1]) == if s[i] in s[..i] then FirstSeen(s[..i]) else FirstSeen(s[..i]) + [s[i]]
  {
    assert s[..i + 1][..i] == s[..i];
  }

  /** Taking one occurrence of `x` out of a sequence. */
  lemma TakeOut<T>(s: seq<T>, x: T) returns (i: nat)
    requires x in multiset(s)
    ensures i < |s| && s[i] == x && s == s[..i] + [x] + s[i + 1..]
    ensures multiset(s[..i] + s[i + 1..]) == multiset(s) - multiset{x}
  {
    i :| 0 <= i < |s| && s[i] == x;
    assert s == s[..i] + [x] + s[i + 1..];
  }

  lemma LastOut<T>(s: seq<T>)
    requires s != []
    ensures multiset(s[..|s| - 1]) == multiset(s) - multiset{s[|s| - 1]}
    ensures s[|s| - 1] in multiset(s)
  {
    assert s == s[..|s| - 1] + [s[|s| - 1]];
  }
}
