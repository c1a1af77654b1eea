/**
 Term vectors and cosine similarity, the arithmetic of `TFIDF.tfidf` and
 `TFIDF.computeCosineSimilarity`. `Math.log` and `Math.sqrt` are parameters:
 `ln` is any real function, `sqrt` any exact real square root.
 */
module Vectors {
  import opened Counting
  import opened Reals

  /** A term vector: a plain object from term to weight, whose keys are
      enumerated in insertion order. */
  datatype Vector = Vector(terms: seq<string>, weight: map<string, real>)

  /** The keys listed in `terms` are exactly those of `weight`, each once. */
  ghost predicate WellFormed(v: Vector)
  {
    NoDuplicates(v.terms) && forall t :: t in v.weight <==> t in v.terms
  }

  /** `vec[term] || 0` and `this.inverseDocumentFrequency[term] || 0`: the
      value of a term, 0 when it is absent. */
  function At(w: map<string, real>, t: string): real
  {
    if t in w then w[t] else 0.0
  }

  /** The sum of `f` over `keys`, accumulated from the left. */
  function Sum(keys: seq<string>, f: string -> real): real
  {
    if keys == [] then 0.0 else Sum(keys[..|keys| - 1], f) + f(keys[|keys| - 1])
  }

  /** One more key adds its value to the sum. */
  lemma SumStep(keys: seq<string>, i: nat, f: string -> real)
    requires i < |keys|
    ensures Sum(keys[..i + 1], f) == Sum(keys[..i], f) + f(keys[i])
  {
    assert keys[..i + 1][..i] == keys[..i];
  }

  /** One more key adds the product of its weights to the dot product. */
  lemma DotStep(keys: seq<string>, i: nat, a: map<string, real>, b: map<string, real>)
    requires i < |keys|
    ensures Dot(keys[..i + 1], a, b) == Dot(keys[..i], a, b) + At(a, keys[i]) * At(b, keys[i])
  {
    SumStep(keys, i, Product(a, b));
  }

  /** The sum of squares over one key is the square of its weight. */
  lemma SingleSumSquares(k: string, w: map<string, real>)
    ensures SumSquares([k], w) == At(w, k) * At(w, k)
  {
    var f := Product(w, w);
    assert [k][..0] == [];
    assert Sum([], f) == 0.0;
    assert Sum([k], f) == Sum([], f) + f(k);
    assert f(k) == At(w, k) * At(w, k);
  }

  /** The product of the weights of one term in `a` and in `b`. */
  function Product(a: map<string, real>, b: map<string, real>): string -> real
  {
    k => At(a, k) * At(b, k)
  }

  /** The dot product of `a` and `b` over `keys`. */
  function Dot(keys: seq<string>, a: map<string, real>, b: map<string, real>): real
  {
    Sum(keys, Product(a, b))
  }

  /** The sum over `keys` of the squared weights in `w`. */
  function SumSquares(keys: seq<string>, w: map<string, real>): (r: real)
    ensures r >= 0.0
  {
    SquaresNonNegative(w);
    SumNonNegative(keys, Product(w, w));
    Dot(keys, w, w)
  }

  /** The cosine similarity of `computeCosineSimilarity` (lines 82-99): over the
      keys of `a` followed by those of `b`, the dot product divided by the
      product of the magnitudes, and 0 when either sum of squares is 0. */
  function Cosine(a: Vector, b: Vector, sqrt: real -> real): real
    requires IsSqrt(sqrt)
  {
    var keys := Distinct(a.terms + b.terms);
    Quotient(Dot(keys, a.weight, b.weight), SumSquares(keys, a.weight), SumSquares(keys, b.weight), sqrt)
  }

  /** Line 94-98: 0 when either sum of squares is 0, otherwise the dot product
      divided by the product of the square roots. */
  function Quotient(dot: real, ma: real, mb: real, sqrt: real -> real): real
    requires IsSqrt(sqrt)
    requires ma >= 0.0 && mb >= 0.0
  {
    if ma == 0.0 || mb == 0.0 then 0.0
    else
      SqrtPositive(sqrt, ma);
      SqrtPositive(sqrt, mb);
      dot / (sqrt(ma) * sqrt(mb))
  }

  /** The weights of lines 57-62, before normalisation: sublinear term frequency
      `1 + ln(count)` times the term's idf. */
  function RawWeights(tokens: seq<string>, table: map<string, real>, ln: real -> real): map<string, real>
  {
    map t | t in tokens :: Weight(multiset(tokens)[t], At(table, t), ln)
  }

  /** The weight of a term occurring `count` times with inverse document
      frequency `idf`. */
  function Weight(count: nat, idf: real, ln: real -> real): real
  {
    (1.0 + ln(count as real)) * idf
  }

  /** Every weight of `w` divided by `m`. */
  function Scale(w: map<string, real>, m: real): map<string, real>
    requires m != 0.0
  {
    map t | t in w :: w[t] / m
  }

  /** Length normalisation (lines 64-70): every weight divided by the square
      root of the sum of squares over `keys`. When that sum is 0 every weight
      is 0 and is kept as it is. */
  function Normalize(keys: seq<string>, w: map<string, real>, sqrt: real -> real): map<string, real>
    requires IsSqrt(sqrt)
  {
    var ss := SumSquares(keys, w);
    if ss == 0.0 then w
    else
      SqrtPositive(sqrt, ss);
      Scale(w, sqrt(ss))
  }

  /** The vector `tfidf` builds for a token list (lines 50-70): keys in first
      occurrence order, normalised sublinear tf-idf weights. */
  function Vectorize(tokens: seq<string>, table: map<string, real>, ln: real -> real, sqrt: real -> real): Vector
    requires IsSqrt(sqrt)
  {
    var keys := Distinct(tokens);
    Vector(keys, Normalize(keys, RawWeights(tokens, table, ln), sqrt))
  }

  // ---------------------------------------------------------------------------
  // Sums

  /** A sum of non-negative terms is non-negative. */
  lemma {:induction false} SumNonNegative(keys: seq<string>, f: string -> real)
    requires forall k :: k in keys ==> f(k) >= 0.0
    ensures Sum(keys, f) >= 0.0
  {
    if keys != [] {
      SumNonNegative(keys[..|keys| - 1], f);
    }
  }

  /** A sum whose every term is 0 is 0. */
  lemma {:induction false} SumZero(keys: seq<string>, f: string -> real)
    requires forall k :: k in keys ==> f(k) == 0.0
    ensures Sum(keys, f) == 0.0
  {
    if keys != [] {
      SumZero(keys[..|keys| - 1], f);
    }
  }

  /** Sums of two functions that agree on the keys are equal. */
  lemma {:induction false} SumPointwise(keys: seq<string>, f: string -> real, g: string -> real)
    requires forall k :: k in keys ==> f(k) == g(k)
    ensures Sum(keys, f) == Sum(keys, g)
  {
    if keys != [] {
      SumPointwise(keys[..|keys| - 1], f, g);
    }
  }

  /** The sum over a concatenation is the sum of the two sums. */
  lemma {:induction false} SumAppend(u: seq<string>, v: seq<string>, f: string -> real)
    ensures Sum(u + v, f) == Sum(u, f) + Sum(v, f)
  {
    if v == [] {
      assert u + v == u;
    } else {
      var init := v[..|v| - 1];
      assert (u + v)[..|u + v| - 1] == u + init;
      SumAppend(u, init, f);
    }
  }

  /** Removing the element at `j` from a duplicate-free list removes exactly
      that element. */
  lemma RemoveAt(t: seq<string>, j: nat)
    requires NoDuplicates(t) && j < |t|
    ensures var rest := t[..j] + t[j + 1..];
      NoDuplicates(rest) && forall y :: y in rest <==> y in t && y != t[j]
  {
    var rest := t[..j] + t[j + 1..];
    assert |rest| == |t| - 1;
    assert forall i :: 0 <= i < |rest| ==> rest[i] == t[if i < j then i else i + 1];
    forall y ensures y in rest <==> y in t && y != t[j] {
      if y in t && y != t[j] {
        var m :| 0 <= m < |t| && t[m] == y;
        if m < j { assert y == rest[m]; } else { assert y == rest[m - 1]; }
      }
    }
  }

  /** The sum over a list is that over the list without its element `j`, plus
      that element's term. */
  lemma SumRemoveAt(t: seq<string>, j: nat, f: string -> real)
    requires j < |t|
    ensures Sum(t, f) == Sum(t[..j] + t[j + 1..], f) + f(t[j])
  {
    var t1, x, t2 := t[..j], t[j], t[j + 1..];
    assert t == t[..j + 1] + t2;
    SumAppend(t[..j + 1], t2, f);
    SumStep(t, j, f);
    SumAppend(t1, t2, f);
  }

  /** Two duplicate-free key lists give the same sum when every key that only
      one of them lists contributes 0: the order of the keys does not matter,
      nor do keys whose term is 0. */
  lemma {:induction false} SumSameSupport(s: seq<string>, t: seq<string>, f: string -> real)
    requires NoDuplicates(s) && NoDuplicates(t)
    requires forall x :: x in s && x !in t ==> f(x) == 0.0
    requires forall x :: x in t && x !in s ==> f(x) == 0.0
    ensures Sum(s, f) == Sum(t, f)
    decreases |s|
  {
    if s == [] {
      SumZero(t, f);
    } else {
      var init, x := s[..|s| - 1], s[|s| - 1];
      LastRemoved(s);
      if x in t {
        var j :| 0 <= j < |t| && t[j] == x;
        var rest := t[..j] + t[j + 1..];
        RemoveAt(t, j);
        SumRemoveAt(t, j, f);
        SumSameSupport(init, rest, f);
      } else {
        SumSameSupport(init, t, f);
      }
    }
  }

  /** Without its last element, a duplicate-free list loses exactly that
      element. */
  lemma LastRemoved(s: seq<string>)
    requires NoDuplicates(s) && s != []
    ensures var init, x := s[..|s| - 1], s[|s| - 1];
      && NoDuplicates(init) && x !in init
      && forall y :: y in s <==> y in init || y == x
  {
    assert s == s[..|s| - 1] + [s[|s| - 1]];
  }

  /** Squares are non-negative. */
  lemma SquaresNonNegative(w: map<string, real>)
    ensures forall k :: Product(w, w)(k) >= 0.0
  {
    forall k ensures Product(w, w)(k) >= 0.0 {
      SquareNonNegative(At(w, k));
    }
  }

  /** The sum over keys of `a` and `b` is that of `b` and `a`. */
  lemma DotSymmetric(keys: seq<string>, a: map<string, real>, b: map<string, real>)
    ensures Dot(keys, a, b) == Dot(keys, b, a)
  {
    SumPointwise(keys, Product(a, b), Product(b, a));
  }

  /** When every weight over the keys is 0, so is the sum of squares. */
  lemma SumSquaresZero(keys: seq<string>, w: map<string, real>)
    requires forall k :: k in keys ==> At(w, k) == 0.0
    ensures SumSquares(keys, w) == 0.0
  {
    forall k | k in keys ensures Product(w, w)(k) == 0.0 {
      assert At(w, k) == 0.0;
    }
    SumZero(keys, Product(w, w));
  }

  /** Over a duplicate-free list of keys that covers every term of a well-formed
      vector, its sum of squares is that over its own terms. */
  lemma OwnSumSquares(keys: seq<string>, v: Vector)
    requires WellFormed(v) && NoDuplicates(keys)
    requires forall t :: t in v.terms ==> t in keys
    ensures SumSquares(keys, v.weight) == SumSquares(v.terms, v.weight)
  {
    SumSameSupport(keys, v.terms, Product(v.weight, v.weight));
  }

  // ---------------------------------------------------------------------------
  // Cosine similarity

  /** The three sums of `Cosine(a, b)` are those of `Cosine(b, a)`, exchanged. */
  lemma CosineSumsSwap(a: Vector, b: Vector)
    ensures var ab, ba := Distinct(a.terms + b.terms), Distinct(b.terms + a.terms);
      && Dot(ab, a.weight, b.weight) == Dot(ba, b.weight, a.weight)
      && SumSquares(ab, a.weight) == SumSquares(ba, a.weight)
      && SumSquares(ab, b.weight) == SumSquares(ba, b.weight)
  {
    var ab, ba := Distinct(a.terms + b.terms), Distinct(b.terms + a.terms);
    SumSameSupport(ab, ba, Product(a.weight, b.weight));
    SumSameSupport(ab, ba, Product(a.weight, a.weight));
    SumSameSupport(ab, ba, Product(b.weight, b.weight));
    DotSymmetric(ba, a.weight, b.weight);
  }

  /** Cosine similarity does not depend on the order of its arguments. */
  lemma CosineSymmetric(a: Vector, b: Vector, sqrt: real -> real)
    requires IsSqrt(sqrt)
    ensures Cosine(a, b, sqrt) == Cosine(b, a, sqrt)
  {
    CosineSumsSwap(a, b);
    var ab := Distinct(a.terms + b.terms);
    QuotientSymmetric(Dot(ab, a.weight, b.weight), SumSquares(ab, a.weight), SumSquares(ab, b.weight), sqrt);
  }

  lemma QuotientSymmetric(dot: real, ma: real, mb: real, sqrt: real -> real)
    requires IsSqrt(sqrt)
    requires ma >= 0.0 && mb >= 0.0
    ensures Quotient(dot, ma, mb, sqrt) == Quotient(dot, mb, ma, sqrt)
  {
    if ma != 0.0 && mb != 0.0 {
      assert sqrt(ma) * sqrt(mb) == sqrt(mb) * sqrt(ma);
    }
  }

  /** The zero-magnitude guard: when either vector's own sum of squares is 0,
      the similarity is 0. */
  lemma CosineDegenerate(a: Vector, b: Vector, sqrt: real -> real)
    requires IsSqrt(sqrt)
    requires WellFormed(a) && WellFormed(b)
    requires SumSquares(a.terms, a.weight) == 0.0 || SumSquares(b.terms, b.weight) == 0.0
    ensures Cosine(a, b, sqrt) == 0.0
  {
    var keys := Distinct(a.terms + b.terms);
    OwnSumSquares(keys, a);
    OwnSumSquares(keys, b);
  }

  /** A vector whose sum of squares is not 0 has similarity 1 with itself. */
  lemma CosineSelf(a: Vector, sqrt: real -> real)
    requires IsSqrt(sqrt)
    requires WellFormed(a) && SumSquares(a.terms, a.weight) != 0.0
    ensures Cosine(a, a, sqrt) == 1.0
  {
    var keys := Distinct(a.terms + a.terms);
    assert forall t :: t in a.terms ==> t in a.terms + a.terms;
    OwnSumSquares(keys, a);
    var m := SumSquares(keys, a.weight);
    assert Dot(keys, a.weight, a.weight) == m;
    RootQuotient(sqrt, m);
    assert Quotient(m, m, m, sqrt) == 1.0;
  }

  // ---------------------------------------------------------------------------
  // Vectorisation

  /** The keys of a vectorised token list are exactly its distinct terms, in
      first-occurrence order; a term without an idf entry weighs 0. */
  lemma VectorizeKeys(tokens: seq<string>, table: map<string, real>, ln: real -> real, sqrt: real -> real)
    requires IsSqrt(sqrt)
    ensures var v := Vectorize(tokens, table, ln, sqrt);
      && WellFormed(v)
      && v.terms == Distinct(tokens)
      && (forall t :: t in v.weight <==> t in tokens)
      && (forall t :: t in tokens && t !in table ==> v.weight[t] == 0.0)
  {
    var keys, raw := Distinct(tokens), RawWeights(tokens, table, ln);
    var ss := SumSquares(keys, raw);
    assert forall t :: t in raw <==> t in tokens;
    assert forall t :: t in tokens && t !in table ==> raw[t] == 0.0;
    if ss != 0.0 {
      SqrtPositive(sqrt, ss);
      var m := sqrt(ss);
      assert Vectorize(tokens, table, ln, sqrt) == Vector(keys, Scale(raw, m));
      assert forall t :: t in tokens && t !in table ==> Scale(raw, m)[t] == 0.0 / m;
    }
  }

  /** A token list none of whose terms carries a non-zero idf (every term is
      unknown, or occurs in every document) is the zero vector: its sum of
      squares is 0, the source then divides 0 by 0 and its cosine reads the
      resulting NaN as 0, while the model keeps the zero weights. */
  lemma VectorizeDegenerate(tokens: seq<string>, table: map<string, real>, ln: real -> real, sqrt: real -> real)
    requires IsSqrt(sqrt)
    requires forall t :: t in tokens ==> At(table, t) == 0.0
    ensures var v := Vectorize(tokens, table, ln, sqrt);
      (forall t :: t in v.weight <==> t in tokens) && forall t :: t in v.weight ==> v.weight[t] == 0.0
  {
    var keys, raw := Distinct(tokens), RawWeights(tokens, table, ln);
    forall t | t in tokens ensures raw[t] == 0.0 {
      ZeroFactor(1.0 + ln(multiset(tokens)[t] as real), At(table, t));
      assert raw[t] == Weight(multiset(tokens)[t], At(table, t), ln);
    }
    SumSquaresZero(keys, raw);
  }

  /** Dividing every weight by `m` divides the sum of squares by `m * m`. */
  lemma {:induction false} SumSquaresScale(keys: seq<string>, w: map<string, real>, m: real)
    requires m != 0.0
    ensures SumSquares(keys, Scale(w, m)) * (m * m) == SumSquares(keys, w)
  {
    if keys != [] {
      var init, x := keys[..|keys| - 1], keys[|keys| - 1];
      SumSquaresScale(init, w, m);
      var s := Scale(w, m);
      var p, q := At(w, x), At(s, x);
      assert q == p / m;
      SquareOfQuotient(p, m);
      var before := SumSquares(init, s);
      assert SumSquares(keys, s) == before + q * q;
      assert SumSquares(keys, w) == SumSquares(init, w) + p * p;
      Distribute(before, q * q, m * m);
    }
  }

  /** Length normalisation: a vector whose raw sum of squares is not 0 has
      unit length. */
  lemma VectorizeUnit(tokens: seq<string>, table: map<string, real>, ln: real -> real, sqrt: real -> real)
    requires IsSqrt(sqrt)
    requires SumSquares(Distinct(tokens), RawWeights(tokens, table, ln)) != 0.0
    ensures var v := Vectorize(tokens, table, ln, sqrt);
      SumSquares(v.terms, v.weight) == 1.0
  {
    NormalizeUnit(Distinct(tokens), RawWeights(tokens, table, ln), sqrt);
  }

  /** Dividing by the square root of a non-zero sum of squares gives unit
      length. */
  lemma NormalizeUnit(keys: seq<string>, w: map<string, real>, sqrt: real -> real)
    requires IsSqrt(sqrt)
    requires SumSquares(keys, w) != 0.0
    ensures SumSquares(keys, Normalize(keys, w, sqrt)) == 1.0
  {
    var ss := SumSquares(keys, w);
    SqrtPositive(sqrt, ss);
    var m := sqrt(ss);
    SumSquaresScale(keys, w, m);
    assert m * m == ss;
    FactorOne(SumSquares(keys, Scale(w, m)), m * m, ss);
  }

  /** An empty token list gives the empty vector, whose similarity with any
      vector is 0. */
  lemma EmptyVector(table: map<string, real>, ln: real -> real, sqrt: real -> real, b: Vector)
    requires IsSqrt(sqrt) && WellFormed(b)
    ensures Vectorize([], table, ln, sqrt) == Vector([], map[])
    ensures Cosine(Vector([], map[]), b, sqrt) == 0.0
  {
    assert RawWeights([], table, ln) == map[];
    CosineDegenerate(Vector([], map[]), b, sqrt);
  }
}
