/** Folding a sequence with an operation whose summands can be exchanged: permutation laws. */
module Sums {
  import opened Sequences

  function Fold<T, A>(s: seq<T>, f: T -> A, plus: (A, A) -> A, zero: A): A {
    if s == [] then zero else plus(Fold(s[..|s| - 1], f, plus, zero), f(s[|s| - 1]))
  }

  /** The last two summands can be exchanged. */
  ghost predicate Exchanges<A(!new)>(plus: (A, A) -> A) {
    forall x, y, z :: plus(plus(x, y), z) == plus(plus(x, z), y)
  }

  lemma FoldSnoc<T, A>(s: seq<T>, x: T, f: T -> A, plus: (A, A) -> A, zero: A)
    ensures Fold(s + [x], f, plus, zero) == plus(Fold(s, f, plus, zero), f(x))
  {
    assert (s + [x])[..|s|] == s;
  }

  /** Any summand can be taken out to the end. */
  lemma {:induction false} FoldTakeOut<T, A(!new)>(s: seq<T>, i: nat, f: T -> A, plus: (A, A) -> A, zero: A)
    requires Exchanges(plus) && i < |s|
    ensures Fold(s, f, plus, zero) == plus(Fold(s[..i] + s[i + 1..], f, plus, zero), f(s[i]))
  {
    var n := |s| - 1;
    var front, last := s[..n], s[n];
    if i == n {
      assert s[..i] + s[i + 1..] == front;
    } else {
      FoldTakeOut(front, i, f, plus, zero);
      var rest := front[..i] + front[i + 1..];
      assert s[..i] + s[i + 1..] == rest + [last];
      FoldSnoc(rest, last, f, plus, zero);
    }
  }

  lemma {:induction false} FoldPermuted<T, A(!new)>(s: seq<T>, t: seq<T>, f: T -> A, plus: (A, A) -> A, zero: A)
    requires Exchanges(plus) && multiset(s) == multiset(t)
    ensures Fold(s, f, plus, zero) == Fold(t, f, plus, zero)
    decreases |s|
  {
    if s == [] {
      assert |t| == |multiset(t)| == 0;
    } else {
      LastOut(s);
      var i := TakeOut(t, s[|s| - 1]);
      FoldPermuted(s[..|s| - 1], t[..i] + t[i + 1..], f, plus, zero);
      FoldTakeOut(t, i, f, plus, zero);
    }
  }

  lemma FoldThree<T, A>(x: T, y: T, z: T, f: T -> A, plus: (A, A) -> A, zero: A)
    ensures Fold([x, y, z], f, plus, zero) == plus(plus(plus(zero, f(x)), f(y)), f(z))
  {
    var one, two := [x], [x, y];
    assert [x, y, z][..2] == two && two[..1] == one && one[..0] == [];
    assert Fold(one, f, plus, zero) == plus(zero, f(x));
    assert Fold(two, f, plus, zero) == plus(Fold(one, f, plus, zero), f(y));
  }

  function RealPlus(x: real, y: real): real { x + y }
}
