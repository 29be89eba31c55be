/** Stable sorting by a comparator, and the list of the best few under a strict order. */
module Sorting {
  import opened Sequences

  /** Asymmetric, and "not before" is transitive: what a comparison sort needs. */
  ghost predicate StrictWeakOrder<T(!new)>(before: (T, T) -> bool) {
    && (forall a, b :: before(a, b) ==> !before(b, a))
    && (forall a, b, c :: !before(b, a) && !before(c, b) ==> !before(c, a))
  }

  ghost predicate Sorted<T>(s: seq<T>, before: (T, T) -> bool) {
    forall i, j | 0 <= i < j < |s| :: !before(s[j], s[i])
  }

  function Insert<T>(s: seq<T>, x: T, before: (T, T) -> bool): (r: seq<T>)
    ensures multiset(r) == multiset(s) + multiset{x}
    ensures |r| == |s| + 1
  {
    if s == [] then [x] else
    var front, last := s[..|s| - 1], s[|s| - 1];
    assert s == front + [last];
    if before(x, last) then Insert(front, x, before) + [last] else s + [x]
  }

  /** Insertion from the left: equal elements keep their order. */
  function Sort<T>(s: seq<T>, before: (T, T) -> bool): (r: seq<T>)
    ensures multiset(r) == multiset(s)
    ensures |r| == |s|
  {
    if s == [] then [] else
    assert s == s[..|s| - 1] + [s[|s| - 1]];
    Insert(Sort(s[..|s| - 1], before), s[|s| - 1], before)
  }

  lemma SortMembers<T(!new)>(s: seq<T>, before: (T, T) -> bool)
    ensures forall x :: x in Sort(s, before) <==> x in s
  {
    assert forall x :: x in s <==> x in multiset(s);
    assert forall x :: x in Sort(s, before) <==> x in multiset(Sort(s, before));
  }

  /** Sorting distinct elements leaves them distinct. */
  lemma SortDistinct<T(!new)>(s: seq<T>, before: (T, T) -> bool)
    requires Distinct(s)
    ensures Distinct(Sort(s, before))
  {
    var t := Sort(s, before);
    forall i, j | 0 <= i < j < |t|
      ensures t[i] != t[j]
    {
      if t[i] == t[j] {
        CountTwo(t, i, j);
        CountAtMostOne(s, t[i]);
      }
    }
  }

  lemma CountTwo<T>(s: seq<T>, i: nat, j: nat)
    requires i < j < |s| && s[i] == s[j]
    ensures multiset(s)[s[i]] >= 2
  {
    assert s == s[..i] + [s[i]] + s[i + 1..j] + [s[j]] + s[j + 1..];
  }

  lemma {:induction false} CountAtMostOne<T>(s: seq<T>, x: T)
    requires Distinct(s)
    ensures multiset(s)[x] <= 1
  {
    if s != [] {
      var n := |s| - 1;
      assert s == s[..n] + [s[n]];
      CountAtMostOne(s[..n], x);
      assert s[n] !in s[..n];
    }
  }

  lemma SnocSorted<T(!new)>(s: seq<T>, x: T, before: (T, T) -> bool)
    requires Sorted(s, before) && forall e | e in s :: !before(x, e)
    ensures Sorted(s + [x], before)
  {
    assert forall i | 0 <= i < |s| :: s[i] in s;
  }

  lemma {:induction false} InsertSorted<T(!new)>(s: seq<T>, x: T, before: (T, T) -> bool)
    requires StrictWeakOrder(before) && Sorted(s, before)
    ensures Sorted(Insert(s, x, before), before)
  {
    if s != [] {
      var front, last := s[..|s| - 1], s[|s| - 1];
      assert forall e | e in front :: !before(last, e);
      if before(x, last) {
        InsertSorted(front, x, before);
        var r := Insert(front, x, before);
        forall e | e in r
          ensures !before(last, e)
        {
          assert e in multiset(r);
        }
        SnocSorted(r, last, before);
      } else {
        forall e | e in s
          ensures !before(x, e)
        {
          assert e in front || e == last;
        }
        SnocSorted(s, x, before);
      }
    }
  }

  lemma {:induction false} SortSorted<T(!new)>(s: seq<T>, before: (T, T) -> bool)
    requires StrictWeakOrder(before)
    ensures Sorted(Sort(s, before), before)
  {
    if s != [] {
      SortSorted(s[..|s| - 1], before);
      InsertSorted(Sort(s[..|s| - 1], before), s[|s| - 1], before);
    }
  }

  // Sorting through a function ------------------------------------------------

  function Map<A, B>(s: seq<A>, f: A -> B): (r: seq<B>)
    ensures |r| == |s| && forall i | 0 <= i < |s| :: r[i] == f(s[i])
  {
    seq(|s|, i requires 0 <= i < |s| => f(s[i]))
  }

  lemma MapSnoc<A, B>(s: seq<A>, x: A, f: A -> B)
    ensures Map(s + [x], f) == Map(s, f) + [f(x)]
  {
  }

  lemma {:induction false} InsertMap<A(!new), B>(s: seq<A>, x: A, f: A -> B, before: (A, A) -> bool,
                                                       mapped: (B, B) -> bool)
    requires forall a, b :: mapped(f(a), f(b)) == before(a, b)
    ensures Insert(Map(s, f), f(x), mapped) == Map(Insert(s, x, before), f)
  {
    if s == [] {
      assert Map([x], f) == [f(x)];
    } else {
      var front, last, m := s[..|s| - 1], s[|s| - 1], Map(s, f);
      assert m[..|m| - 1] == Map(front, f) && m[|m| - 1] == f(last);
      if before(x, last) {
        InsertMap(front, x, f, before, mapped);
        MapSnoc(Insert(front, x, before), last, f);
      } else {
        MapSnoc(s, x, f);
      }
    }
  }

  /** Sorting the images is taking the images of the sorted sequence. */
  lemma {:induction false} SortMap<A(!new), B>(s: seq<A>, f: A -> B, before: (A, A) -> bool, mapped: (B, B) -> bool)
    requires forall a, b :: mapped(f(a), f(b)) == before(a, b)
    ensures Sort(Map(s, f), mapped) == Map(Sort(s, before), f)
  {
    if s != [] {
      var front, last, m := s[..|s| - 1], s[|s| - 1], Map(s, f);
      assert m[..|m| - 1] == Map(front, f) && m[|m| - 1] == f(last);
      SortMap(front, f, before, mapped);
      InsertMap(Sort(front, before), last, f, before, mapped);
    }
  }

  // Stability ----------------------------------------------------------------

  /** Sorted, and equal elements in increasing position. */
  ghost predicate StablySorted(s: seq<nat>, before: (nat, nat) -> bool) {
    forall i, j | 0 <= i < j < |s| :: before(s[i], s[j]) || (!before(s[j], s[i]) && s[i] < s[j])
  }

  lemma StableSnoc(s: seq<nat>, x: nat, before: (nat, nat) -> bool)
    requires StablySorted(s, before) && forall e | e in s :: before(e, x) || (!before(x, e) && e < x)
    ensures StablySorted(s + [x], before)
  {
    assert forall i | 0 <= i < |s| :: s[i] in s;
  }

  lemma {:induction false} InsertStable(s: seq<nat>, x: nat, before: (nat, nat) -> bool)
    requires StrictWeakOrder(before) && StablySorted(s, before) && forall e | e in s :: e < x
    ensures StablySorted(Insert(s, x, before), before)
  {
    if s != [] {
      var front, last := s[..|s| - 1], s[|s| - 1];
      assert s == front + [last] && last in s && forall e | e in front :: e in s;
      if before(x, last) {
        InsertStable(front, x, before);
        InsertMembers(front, x, before);
        StableSnoc(Insert(front, x, before), last, before);
      } else {
        assert forall e | e in front :: !before(last, e);
        StableSnoc(s, x, before);
      }
    }
  }

  lemma InsertMembers<T(!new)>(s: seq<T>, x: T, before: (T, T) -> bool)
    ensures forall e :: e in Insert(s, x, before) <==> e in s || e == x
  {
    var r := Insert(s, x, before);
    assert forall e :: e in r <==> e in multiset(r);
  }

  ghost predicate Increasing(s: seq<nat>) { forall i, j | 0 <= i < j < |s| :: s[i] < s[j] }

  /** Equal elements of an increasing sequence keep their order. */
  lemma {:induction false} SortStable(s: seq<nat>, before: (nat, nat) -> bool)
    requires StrictWeakOrder(before) && Increasing(s)
    ensures StablySorted(Sort(s, before), before)
  {
    if s != [] {
      var front, last := s[..|s| - 1], s[|s| - 1];
      SortStable(front, before);
      forall e | e in Sort(front, before)
        ensures e < last
      {
        assert e in multiset(front);
      }
      InsertStable(Sort(front, before), last, before);
    }
  }

  // Best-of lists ------------------------------------------------------------

  /** `list` holds the `limit` first members of `xs` under `lt`, in order. */
  ghost predicate IsTop<T(!new)>(list: seq<T>, xs: set<T>, limit: nat, lt: (T, T) -> bool) {
    && |list| == (if |xs| < limit then |xs| else limit)
    && Distinct(list) && (forall x | x in list :: x in xs)
    && forall i, x {:trigger lt(list[i], x)} | 0 <= i < |list| && x in xs && x !in list[..i + 1] :: lt(list[i], x)
  }

  lemma TopStep<T(!new)>(l1: seq<T>, l2: seq<T>, xs: set<T>, limit: nat, lt: (T, T) -> bool, i: nat)
    requires IsTop(l1, xs, limit, lt) && IsTop(l2, xs, limit, lt) && i < |l1|
    requires l1[..i] == l2[..i]
    ensures l1[i] == l2[i] || lt(l1[i], l2[i])
  {
    assert l1[..i + 1] == l1[..i] + [l1[i]];
    assert l2[i] in l2;
    assert forall j | 0 <= j < i :: l2[..i][j] == l2[j];
    assert l2[i] !in l2[..i];
  }

  /** There is only one such list. */
  lemma TopIsUnique<T(!new)>(l1: seq<T>, l2: seq<T>, xs: set<T>, limit: nat, lt: (T, T) -> bool)
    requires forall a, b :: lt(a, b) ==> !lt(b, a)
    requires IsTop(l1, xs, limit, lt) && IsTop(l2, xs, limit, lt)
    ensures l1 == l2
  {
    for i := 0 to |l1|
      invariant l1[..i] == l2[..i]
    {
      TopStep(l1, l2, xs, limit, lt, i);
      TopStep(l2, l1, xs, limit, lt, i);
      assert l1[..i + 1] == l1[..i] + [l1[i]] && l2[..i + 1] == l2[..i] + [l2[i]];
    }
  }

  lemma {:induction false} ListedCount<T(!new)>(s: seq<T>, xs: set<T>)
    requires Lists(s, xs)
    ensures |s| == |xs|
    decreases |s|
  {
    if s == [] {
      assert xs == {};
    } else {
      var n := |s| - 1;
      assert s == s[..n] + [s[n]];
      assert forall i | 0 <= i < n :: s[..n][i] == s[i];
      assert s[n] !in s[..n];
      ListedCount(s[..n], xs - {s[n]});
    }
  }

  /** The front of a listing in strict order is the top list. */
  lemma FrontIsTop<T(!new)>(s: seq<T>, xs: set<T>, limit: nat, lt: (T, T) -> bool)
    requires Lists(s, xs)
    requires forall i, j | 0 <= i < j < |s| :: lt(s[i], s[j])
    ensures |s| == |xs| && IsTop(s[..if |s| < limit then |s| else limit], xs, limit, lt)
  {
    ListedCount(s, xs);
    var list := s[..if |s| < limit then |s| else limit];
    assert forall i | 0 <= i < |list| :: list[i] == s[i];
    forall i, x | 0 <= i < |list| && x in xs && x !in list[..i + 1]
      ensures lt(list[i], x)
    {
      var j :| 0 <= j < |s| && s[j] == x;
      assert forall m | 0 <= m < i + 1 :: list[..i + 1][m] == s[m];
    }
  }
}
