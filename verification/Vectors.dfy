/** Embedding arithmetic over reals: the cosine loop, in-place normalization and the
    feature-hashing embedder. The square root is a parameter, constrained by `IsSqrt`. */
module Vectors {
  import opened Sums
  import opened Text

  type Vector = seq<real>

  ghost predicate IsSqrt(sqrt: real -> real) {
    forall x | x >= 0.0 :: sqrt(x) >= 0.0 && Times(sqrt(x), sqrt(x)) == x
  }

  /** A product by name, so that equal factors give equal products by congruence. */
  function Times(x: real, y: real): real { x * y }

  function Dot(a: Vector, b: Vector): real
    requires |a| == |b|
  {
    if a == [] then 0.0 else Dot(a[..|a| - 1], b[..|b| - 1]) + Times(a[|a| - 1], b[|b| - 1])
  }

  function Scale(a: Vector, c: real): (r: Vector)
    ensures |r| == |a| && forall i | 0 <= i < |a| :: r[i] == Times(c, a[i])
  {
    seq(|a|, i requires 0 <= i < |a| => Times(c, a[i]))
  }

  function Quotient(d: real, m: real): real { if m == 0.0 then 0.0 else d / m }

  function Cosine(a: Vector, b: Vector, sqrt: real -> real): real {
    if |a| != |b| || a == [] || Dot(a, a) <= 0.0 || Dot(b, b) <= 0.0 then 0.0
    else Quotient(Dot(a, b), Times(sqrt(Dot(a, a)), sqrt(Dot(b, b))))
  }

  // Facts about real products ------------------------------------------------

  lemma TimesPositive(x: real, y: real)
    requires x > 0.0 && y > 0.0
    ensures Times(x, y) > 0.0
  {
  }

  lemma TimesNonnegative(x: real, y: real)
    requires x >= 0.0 && y >= 0.0
    ensures Times(x, y) >= 0.0
  {
  }

  lemma CancelPositive(x: real, y: real)
    requires x > 0.0 && Times(x, y) >= 0.0
    ensures y >= 0.0
  {
    if y < 0.0 { TimesPositive(x, -y); }
  }

  lemma SquareBound(x: real, y: real)
    requires y >= 0.0 && Times(x, x) <= Times(y, y)
    ensures -y <= x <= y
  {
    if x > y { TimesPositive(x - y, x + y); }
    if x < -y { TimesPositive(-x - y, y - x); }
  }

  lemma RootUnique(x: real, y: real)
    requires x >= 0.0 && y >= 0.0 && Times(x, x) == Times(y, y)
    ensures x == y
  {
    SquareBound(x, y);
    SquareBound(y, x);
  }

  lemma ProductSquared(x: real, y: real)
    ensures Times(Times(x, y), Times(x, y)) == Times(Times(x, x), Times(y, y))
  {
  }

  lemma QuotientIs(d: real, m: real, q: real)
    requires m != 0.0 && Times(q, m) == d
    ensures d / m == q
  {
    var p := d / m;
    assert p * m == d;
    assert (p - q) * m == 0.0;
  }

  lemma QuotientInUnit(d: real, m: real)
    requires m > 0.0 && -m <= d <= m
    ensures -1.0 <= d / m <= 1.0
  {
    var q := d / m;
    assert q * m == d;
    assert Times(m, 1.0 - q) == m - d && Times(m, 1.0 + q) == m + d;
    CancelPositive(m, 1.0 - q);
    CancelPositive(m, 1.0 + q);
  }

  // Cauchy-Schwarz -----------------------------------------------------------

  function Quadratic(s: real, t: real, aa: real, ab: real, bb: real): real {
    s * s * aa - 2.0 * (s * t) * ab + t * t * bb
  }

  lemma QuadraticStep(s: real, t: real, aa: real, ab: real, bb: real, x: real, y: real)
    requires Quadratic(s, t, aa, ab, bb) >= 0.0
    ensures Quadratic(s, t, aa + Times(x, x), ab + Times(x, y), bb + Times(y, y)) >= 0.0
  {
    var e := s * x - t * y;
    assert e * e >= 0.0;
    assert Quadratic(s, t, aa + x * x, ab + x * y, bb + y * y) == Quadratic(s, t, aa, ab, bb) + e * e;
  }

  /** The sum of the squares (s a[i] - t b[i])^2, expanded. */
  lemma {:induction false} SquaresNonnegative(a: Vector, b: Vector, s: real, t: real)
    requires |a| == |b|
    ensures Quadratic(s, t, Dot(a, a), Dot(a, b), Dot(b, b)) >= 0.0
  {
    if a != [] {
      var n := |a| - 1;
      SquaresNonnegative(a[..n], b[..n], s, t);
      QuadraticStep(s, t, Dot(a[..n], a[..n]), Dot(a[..n], b[..n]), Dot(b[..n], b[..n]), a[n], b[n]);
    }
  }

  lemma SquareZero(x: real, y: real)
    ensures Times(x, x) >= 0.0
    ensures Times(x, x) == 0.0 ==> Times(x, y) == 0.0
  {
    if x > 0.0 { TimesPositive(x, x); }
    if x < 0.0 { TimesPositive(-x, -x); }
  }

  lemma {:induction false} NormNonnegative(a: Vector, b: Vector)
    requires |a| == |b|
    ensures Dot(a, a) >= 0.0
    ensures Dot(a, a) == 0.0 ==> Dot(a, b) == 0.0
  {
    if a != [] {
      var n := |a| - 1;
      NormNonnegative(a[..n], b[..n]);
      SquareZero(a[n], b[n]);
    }
  }

  lemma CauchySchwarz(a: Vector, b: Vector)
    requires |a| == |b|
    ensures Dot(a, a) >= 0.0 && Dot(b, b) >= 0.0
    ensures Times(Dot(a, b), Dot(a, b)) <= Times(Dot(a, a), Dot(b, b))
  {
    NormNonnegative(a, b);
    NormNonnegative(b, a);
    if Dot(a, a) > 0.0 {
      SquaresNonnegative(a, b, Dot(a, b), Dot(a, a));
      Discriminant(Dot(a, a), Dot(a, b), Dot(b, b));
    }
  }

  lemma Discriminant(aa: real, ab: real, bb: real)
    requires aa > 0.0 && Quadratic(ab, aa, aa, ab, bb) >= 0.0
    ensures Times(ab, ab) <= Times(aa, bb)
  {
    var gap := aa * bb - ab * ab;
    assert Quadratic(ab, aa, aa, ab, bb) == Times(aa, gap);
    CancelPositive(aa, gap);
  }

  lemma {:induction false} DotSymmetric(a: Vector, b: Vector)
    requires |a| == |b|
    ensures Dot(a, b) == Dot(b, a)
  {
    if a != [] { DotSymmetric(a[..|a| - 1], b[..|b| - 1]); }
  }

  /** The product of the two norms bounds the dot product. */
  lemma NormProduct(a: Vector, b: Vector, sqrt: real -> real)
    requires IsSqrt(sqrt) && |a| == |b|
    ensures var m := Times(sqrt(Dot(a, a)), sqrt(Dot(b, b))); m >= 0.0 && -m <= Dot(a, b) <= m
  {
    CauchySchwarz(a, b);
    var x, y := sqrt(Dot(a, a)), sqrt(Dot(b, b));
    TimesNonnegative(x, y);
    ProductSquared(x, y);
    SquareBound(Dot(a, b), Times(x, y));
  }

  lemma TimesCommutes(x: real, y: real)
    ensures Times(x, y) == Times(y, x)
  {
  }

  /** Similarity is symmetric and lies in [-1, 1]. */
  lemma CosineInUnit(a: Vector, b: Vector, sqrt: real -> real)
    requires IsSqrt(sqrt)
    ensures -1.0 <= Cosine(a, b, sqrt) <= 1.0
    ensures Cosine(a, b, sqrt) == Cosine(b, a, sqrt)
  {
    if |a| == |b| {
      DotSymmetric(a, b);
      NormProduct(a, b, sqrt);
      TimesCommutes(sqrt(Dot(a, a)), sqrt(Dot(b, b)));
      var m := Times(sqrt(Dot(a, a)), sqrt(Dot(b, b)));
      if m > 0.0 { QuotientInUnit(Dot(a, b), m); }
    }
  }

  method CosineSimilarity(a: Vector, b: Vector, sqrt: real -> real) returns (r: real)
    requires IsSqrt(sqrt)
    ensures r == Cosine(a, b, sqrt)
    ensures -1.0 <= r <= 1.0
  {
    CosineInUnit(a, b, sqrt);
    if |a| != |b| || a == [] { return 0.0; }
    var dot, na, nb := 0.0, 0.0, 0.0;
    for i := 0 to |a|
      invariant dot == Dot(a[..i], b[..i]) && na == Dot(a[..i], a[..i]) && nb == Dot(b[..i], b[..i])
    {
      assert a[..i + 1][..i] == a[..i] && b[..i + 1][..i] == b[..i];
      dot := dot + Times(a[i], b[i]);
      na := na + Times(a[i], a[i]);
      nb := nb + Times(b[i], b[i]);
    }
    assert a[..|a|] == a && b[..|b|] == b;
    if na <= 0.0 || nb <= 0.0 { return 0.0; }
    RootsPositive(na, nb, sqrt);
    r := dot / Times(sqrt(na), sqrt(nb));
  }

  lemma RootsPositive(x: real, y: real, sqrt: real -> real)
    requires IsSqrt(sqrt) && x > 0.0 && y > 0.0
    ensures sqrt(x) > 0.0 && sqrt(y) > 0.0 && Times(sqrt(x), sqrt(y)) > 0.0
  {
    assert Times(sqrt(x), sqrt(x)) == x && Times(sqrt(y), sqrt(y)) == y;
    assert Times(0.0, 0.0) == 0.0;
    TimesPositive(sqrt(x), sqrt(y));
  }

  // Normalization ------------------------------------------------------------

  lemma ScaleStep(c: real, d: real, x: real, y: real)
    ensures Times(c, d) + Times(Times(c, x), y) == Times(c, d + Times(x, y))
  {
  }

  lemma ScaleSquareStep(c: real, d: real, x: real)
    ensures Times(Times(c, c), d) + Times(Times(c, x), Times(c, x)) == Times(Times(c, c), d + Times(x, x))
  {
  }

  lemma {:induction false} DotScale(a: Vector, b: Vector, c: real)
    requires |a| == |b|
    ensures Dot(Scale(a, c), b) == Times(c, Dot(a, b))
    ensures Dot(Scale(a, c), Scale(a, c)) == Times(Times(c, c), Dot(a, a))
  {
    if a != [] {
      var n := |a| - 1;
      DotScale(a[..n], b[..n], c);
      assert Scale(a, c)[..n] == Scale(a[..n], c);
      ScaleStep(c, Dot(a[..n], b[..n]), a[n], b[n]);
      ScaleSquareStep(c, Dot(a[..n], a[..n]), a[n]);
    }
  }

  lemma ScaledRoot(c: real, x: real, sqrt: real -> real)
    requires IsSqrt(sqrt) && c > 0.0 && x > 0.0
    ensures Times(Times(c, c), x) > 0.0 && sqrt(Times(Times(c, c), x)) == Times(c, sqrt(x))
  {
    var r := sqrt(x);
    TimesPositive(c, c);
    TimesPositive(Times(c, c), x);
    TimesNonnegative(c, r);
    ProductSquared(c, r);
    RootUnique(sqrt(Times(Times(c, c), x)), Times(c, r));
  }

  lemma CancelFactor(c: real, d: real, x: real, y: real)
    requires c > 0.0 && Times(x, y) > 0.0
    ensures Quotient(Times(c, d), Times(Times(c, x), y)) == Quotient(d, Times(x, y))
  {
    var m := Times(x, y);
    TimesPositive(c, m);
    assert Times(Times(c, x), y) == Times(c, m);
    var q := d / m;
    assert q * m == d;
    assert Times(q, Times(c, m)) == Times(c, q * m);
    QuotientIs(Times(c, d), Times(c, m), q);
  }

  /** Scaling a vector up or down leaves every similarity to it unchanged. */
  lemma CosineScale(a: Vector, b: Vector, c: real, sqrt: real -> real)
    requires IsSqrt(sqrt) && c > 0.0
    ensures Cosine(Scale(a, c), b, sqrt) == Cosine(a, b, sqrt)
  {
    if |a| == |b| && a != [] {
      DotScale(a, b, c);
      NormNonnegative(a, b);
      var aa, bb := Dot(a, a), Dot(b, b);
      assert Times(Times(c, c), 0.0) == 0.0;
      if aa > 0.0 {
        ScaledRoot(c, aa, sqrt);
        if bb > 0.0 {
          RootsPositive(aa, bb, sqrt);
          CancelFactor(c, Dot(a, b), sqrt(aa), sqrt(bb));
        }
      }
    }
  }

  function Normalized(a: Vector, sqrt: real -> real): Vector {
    if sqrt(Dot(a, a)) > 0.0 then Scale(a, 1.0 / sqrt(Dot(a, a))) else a
  }

  lemma ReciprocalSquare(root: real)
    requires root > 0.0
    ensures 1.0 / root > 0.0 && Times(Times(1.0 / root, 1.0 / root), Times(root, root)) == 1.0
  {
    var c := 1.0 / root;
    assert c * root == 1.0;
    assert Times(c, root) == 1.0;
    ProductSquared(c, root);
    if c <= 0.0 { TimesNonnegative(-c, root); }
  }

  /** Normalizing gives a unit vector, or leaves the zero vector alone, and never changes a
      similarity. */
  lemma NormalizedIsUnit(a: Vector, b: Vector, sqrt: real -> real)
    requires IsSqrt(sqrt)
    ensures var n := Normalized(a, sqrt); Dot(n, n) == 1.0 || (Dot(a, a) == 0.0 && n == a)
    ensures Cosine(Normalized(a, sqrt), b, sqrt) == Cosine(a, b, sqrt)
  {
    NormNonnegative(a, a);
    var root := sqrt(Dot(a, a));
    assert Times(root, root) == Dot(a, a);
    if root > 0.0 {
      ReciprocalSquare(root);
      DotScale(a, a, 1.0 / root);
      CosineScale(a, b, 1.0 / root, sqrt);
    }
  }

  /** Between unit vectors the similarity is the dot product. */
  lemma UnitCosineIsDot(a: Vector, b: Vector, sqrt: real -> real)
    requires IsSqrt(sqrt) && |a| == |b| && Dot(a, a) == 1.0 && Dot(b, b) == 1.0
    ensures Cosine(a, b, sqrt) == Dot(a, b)
  {
    assert Times(sqrt(1.0), sqrt(1.0)) == 1.0 == Times(1.0, 1.0);
    RootUnique(sqrt(1.0), 1.0);
    assert Dot(a, b) / 1.0 == Dot(a, b);
  }

  method L2Normalize(v: array<real>, sqrt: real -> real)
    requires IsSqrt(sqrt)
    modifies v
    ensures v[..] == Normalized(old(v[..]), sqrt)
  {
    var sum := 0.0;
    for i := 0 to v.Length
      invariant v[..] == old(v[..]) && sum == Dot(v[..i], v[..i])
    {
      assert v[..i + 1][..i] == v[..i];
      sum := sum + Times(v[i], v[i]);
    }
    assert v[..v.Length] == v[..];
    var norm := sqrt(sum);
    ghost var was := v[..];
    if norm > 0.0 {
      ghost var c := 1.0 / norm;
      for i := 0 to v.Length
        invariant v[i..] == was[i..]
        invariant forall j | 0 <= j < i :: v[j] == Times(c, was[j])
      {
        assert v[i] == v[i..][0] == was[i..][0];
        DivideIsScale(was[i], norm);
        ghost var rest := v[i + 1..];
        assert rest == v[i..][1..] == was[i + 1..];
        v[i] := v[i] / norm;
        assert v[i + 1..] == rest;
      }
      assert v[..] == Scale(was, c);
    }
  }

  lemma DivideIsScale(x: real, m: real)
    requires m > 0.0
    ensures x / m == Times(1.0 / m, x)
  {
    var q := 1.0 / m;
    assert q * m == 1.0;
    assert Times(Times(q, x), m) == (q * m) * x;
    QuotientIs(x, m, Times(q, x));
  }

  // What the dot product is --------------------------------------------------------

  /** One at `i`, zero elsewhere. */
  function Basis(n: nat, i: nat): (r: Vector)
    ensures |r| == n
  {
    seq(n, j => if j == i then 1.0 else 0.0)
  }

  function Sum(a: Vector, b: Vector): (r: Vector)
    requires |a| == |b|
    ensures |r| == |a|
  {
    seq(|a|, i requires 0 <= i < |a| => a[i] + b[i])
  }

  /** The dot product with a basis vector is the coordinate. */
  lemma {:induction false} DotBasis(a: Vector, i: nat)
    ensures Dot(a, Basis(|a|, i)) == if i < |a| then a[i] else 0.0
  {
    if a != [] {
      var n := |a| - 1;
      DotBasis(a[..n], i);
      assert Basis(|a|, i)[..n] == Basis(n, i);
    }
  }

  /** The dot product is additive. */
  lemma {:induction false} DotSum(a: Vector, b: Vector, c: Vector)
    requires |a| == |b| == |c|
    ensures Dot(a, Sum(b, c)) == Dot(a, b) + Dot(a, c)
  {
    if a != [] {
      var n := |a| - 1;
      DotSum(a[..n], b[..n], c[..n]);
      assert Sum(b, c)[..n] == Sum(b[..n], c[..n]);
      assert Times(a[n], b[n] + c[n]) == Times(a[n], b[n]) + Times(a[n], c[n]);
    }
  }

  /** A vector is similar to itself. */
  lemma CosineOfSelf(a: Vector, sqrt: real -> real)
    requires IsSqrt(sqrt) && Dot(a, a) > 0.0
    ensures Cosine(a, a, sqrt) == 1.0
  {
    var aa := Dot(a, a);
    assert Times(sqrt(aa), sqrt(aa)) == aa;
    QuotientIs(aa, aa, 1.0);
  }

  // The hashing embedder -------------------------------------------------------

  /** The 64-bit hash picks a bucket and, by its top bit, a sign. */
  function SignOf(h: nat): real { if (h / 0x8000_0000_0000_0000) % 2 == 1 then -1.0 else 1.0 }

  function Unit(h: nat, dim: nat, bucket: nat): real
    requires dim > 0
  {
    if h % dim == bucket then SignOf(h) else 0.0
  }

  function UnitIn(hash: string -> nat, dim: nat, bucket: nat): string -> real
    requires dim > 0
  {
    t => Unit(hash(t), dim, bucket)
  }

  /** What the tokens add to one bucket. */
  function BucketSum(tokens: seq<string>, hash: string -> nat, dim: nat, bucket: nat): real
    requires dim > 0
  {
    Fold(tokens, UnitIn(hash, dim, bucket), RealPlus, 0.0)
  }

  function Counts(tokens: seq<string>, hash: string -> nat, dim: nat): Vector
    requires dim > 0
  {
    seq(dim, b requires 0 <= b < dim => BucketSum(tokens, hash, dim, b))
  }

  function Utf8Length(s: string): nat {
    if s == "" then 0 else
    var n := s[0] as int;
    (if n < 0x80 then 1 else if n < 0x800 then 2 else if n < 0x1_0000 then 3 else 4) + Utf8Length(s[1..])
  }

  /** A word in lower case without the punctuation around it. */
  function EmbedToken(raw: string, alnum: char -> bool): string { TrimBy(LowerAll(raw), c => !alnum(c)) }

  predicate IsLong(token: string) { Utf8Length(token) > 2 }

  /** The tokens to keep, in order. */
  function KeptTokens(raws: seq<string>, tokenOf: string -> string, keep: string -> bool): seq<string> {
    if raws == [] then [] else
    var token := tokenOf(raws[|raws| - 1]);
    KeptTokens(raws[..|raws| - 1], tokenOf, keep) + if keep(token) then [token] else []
  }

  function EmbedTokens(text: string, alnum: char -> bool): seq<string> {
    KeptTokens(Tokens(text, IsSpace), raw => EmbedToken(raw, alnum), IsLong)
  }

  ghost predicate Counted(v: seq<real>, tokens: seq<string>, hash: string -> nat)
    requires |v| > 0
  {
    forall b | 0 <= b < |v| :: v[b] == BucketSum(tokens, hash, |v|, b)
  }

  lemma CountOneMore(v: seq<real>, tokens: seq<string>, token: string, hash: string -> nat)
    requires |v| > 0 && Counted(v, tokens, hash)
    ensures var idx := hash(token) % |v|; Counted(v[idx := v[idx] + SignOf(hash(token))], tokens + [token], hash)
  {
    forall b | 0 <= b < |v|
      ensures BucketSum(tokens + [token], hash, |v|, b) == BucketSum(tokens, hash, |v|, b) + Unit(hash(token), |v|, b)
    {
      FoldSnoc(tokens, token, UnitIn(hash, |v|, b), RealPlus, 0.0);
    }
  }

  lemma CountedIsCounts(v: seq<real>, tokens: seq<string>, hash: string -> nat)
    requires |v| > 0 && Counted(v, tokens, hash)
    ensures v == Counts(tokens, hash, |v|)
  {
  }

  lemma KeptTokensSnoc(raws: seq<string>, i: nat, tokenOf: string -> string, keep: string -> bool)
    requires i < |raws|
    ensures var front, token := KeptTokens(raws[..i], tokenOf, keep), tokenOf(raws[i]);
            KeptTokens(raws[..i + 1], tokenOf, keep) == if keep(token) then front + [token] else front
  {
    assert raws[..i + 1][..i] == raws[..i];
    assert KeptTokens(raws[..i], tokenOf, keep) + [] == KeptTokens(raws[..i], tokenOf, keep);
  }

  method CountToken(v: array<real>, token: string, hash: string -> nat, ghost tokens: seq<string>)
    requires v.Length > 0 && Counted(v[..], tokens, hash)
    modifies v
    ensures Counted(v[..], tokens + [token], hash)
  {
    CountOneMore(v[..], tokens, token, hash);
    var h := hash(token);
    var idx := h % v.Length;
    ghost var next := v[..][idx := v[idx] + SignOf(h)];
    v[idx] := v[idx] + SignOf(h);
    assert v[..] == next;
  }

  method CountTokens(v: array<real>, raws: seq<string>, tokenOf: string -> string, keep: string -> bool,
                     hash: string -> nat)
    requires v.Length > 0 && Counted(v[..], [], hash)
    modifies v
    ensures Counted(v[..], KeptTokens(raws, tokenOf, keep), hash)
  {
    for i := 0 to |raws|
      invariant Counted(v[..], KeptTokens(raws[..i], tokenOf, keep), hash)
    {
      KeptTokensSnoc(raws, i, tokenOf, keep);
      var token := tokenOf(raws[i]);
      if keep(token) {
        CountToken(v, token, hash, KeptTokens(raws[..i], tokenOf, keep));
      }
    }
    assert raws[..|raws|] == raws;
  }

  method EmbedText(text: string, alnum: char -> bool, hash: string -> nat, dim0: nat, sqrt: real -> real)
    returns (v: array<real>)
    requires IsSqrt(sqrt)
    ensures v.Length > 0 && v.Length == (if dim0 == 0 then 1 else dim0)
    ensures v[..] == Normalized(Counts(EmbedTokens(text, alnum), hash, v.Length), sqrt)
  {
    v := new real[if dim0 == 0 then 1 else dim0](_ => 0.0);
    CountTokens(v, Tokens(text, IsSpace), raw => EmbedToken(raw, alnum), IsLong, hash);
    CountedIsCounts(v[..], EmbedTokens(text, alnum), hash);
    L2Normalize(v, sqrt);
  }

  /** The embedding is a bag of tokens: word order never matters. */
  lemma EmbeddingIgnoresTokenOrder(a: seq<string>, b: seq<string>, hash: string -> nat, dim: nat)
    requires dim > 0 && multiset(a) == multiset(b)
    ensures Counts(a, hash, dim) == Counts(b, hash, dim)
  {
    forall bucket | 0 <= bucket < dim
      ensures BucketSum(a, hash, dim, bucket) == BucketSum(b, hash, dim, bucket)
    {
      FoldPermuted(a, b, UnitIn(hash, dim, bucket), RealPlus, 0.0);
    }
  }

  // Which words count ------------------------------------------------------------

  /** How many characters have a code point of at least `n`. */
  function Above(s: string, n: int): nat {
    if s == "" then 0 else (if s[0] as int >= n then 1 else 0) + Above(s[1..], n)
  }

  /** One byte per character, and one more past each of the three steps of the encoding. */
  lemma {:induction false} Utf8LengthIs(s: string)
    ensures Utf8Length(s) == |s| + Above(s, 0x80) + Above(s, 0x800) + Above(s, 0x1_0000)
  {
    if s != "" { Utf8LengthIs(s[1..]); }
  }

  function Edge(alnum: char -> bool): char -> bool { c => !alnum(c) }

  /** What a word with this core adds to a bucket: nothing if the core has at most two bytes;
      otherwise one, added or, for the upper half of the hashes, taken away. */
  function WordUnit(core: string, hash: string -> nat, dim: nat, b: nat): real
    requires dim > 0
  {
    var h := hash(core);
    if |core| + Above(core, 0x80) + Above(core, 0x800) + Above(core, 0x1_0000) < 3 || h % dim != b then 0.0
    else if h < 0x8000_0000_0000_0000 then 1.0 else -1.0
  }

  lemma WordIsCore(pre: string, core: string, post: string, alnum: char -> bool)
    requires AllOf(LowerAll(pre), Edge(alnum)) && AllOf(LowerAll(post), Edge(alnum))
    requires CleanBy(LowerAll(core), Edge(alnum))
    ensures EmbedToken(pre + core + post, alnum) == LowerAll(core)
  {
    LowerAllConcat(pre + core, post);
    LowerAllConcat(pre, core);
    var a, m, b := LowerAll(pre), LowerAll(core), LowerAll(post);
    var p: char -> bool := c => !alnum(c);
    assert AllOf(a, p) && AllOf(b, p) && CleanBy(m, p);
    TrimByPad(a, m, b, p);
  }

  lemma OneMoreToken(text: string, c: char, word: string, alnum: char -> bool)
    requires IsSpace(c) && IsToken(word, IsSpace)
    ensures var token := EmbedToken(word, alnum);
      EmbedTokens(text + [c] + word, alnum) == EmbedTokens(text, alnum) + if IsLong(token) then [token] else []
  {
    var raws := Tokens(text, IsSpace);
    TokensSplit(text, c, word, IsSpace);
    TokensCons(word, "", IsSpace);
    assert word + "" == word;
    assert Tokens(word, IsSpace) == [word];
    assert (raws + [word])[..|raws|] == raws;
  }

  lemma BucketSnoc(tokens: seq<string>, token: string, hash: string -> nat, dim: nat, b: nat)
    requires dim > 0 && hash(token) < 0x1_0000_0000_0000_0000
    ensures BucketSum(tokens + if IsLong(token) then [token] else [], hash, dim, b)
         == BucketSum(tokens, hash, dim, b) + WordUnit(token, hash, dim, b)
  {
    Utf8LengthIs(token);
    if IsLong(token) {
      FoldSnoc(tokens, token, UnitIn(hash, dim, b), RealPlus, 0.0);
    } else {
      assert tokens + [] == tokens;
    }
  }

  /** One more word in a text, with punctuation around it and in any letter case, changes the
      counts by its own unit and nothing else. */
  lemma WordCounts(text: string, c: char, pre: string, core: string, post: string, alnum: char -> bool,
                   hash: string -> nat, dim: nat, b: nat)
    requires IsSpace(c) && IsToken(pre + core + post, IsSpace) && b < dim
    requires AllOf(LowerAll(pre), Edge(alnum)) && AllOf(LowerAll(post), Edge(alnum))
    requires CleanBy(LowerAll(core), Edge(alnum)) && hash(LowerAll(core)) < 0x1_0000_0000_0000_0000
    ensures Counts(EmbedTokens(text + [c] + (pre + core + post), alnum), hash, dim)[b]
         == Counts(EmbedTokens(text, alnum), hash, dim)[b] + WordUnit(LowerAll(core), hash, dim, b)
  {
    WordIsCore(pre, core, post, alnum);
    OneMoreToken(text, c, pre + core + post, alnum);
    BucketSnoc(EmbedTokens(text, alnum), LowerAll(core), hash, dim, b);
  }
}
