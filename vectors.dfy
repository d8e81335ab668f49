/** Frequency vectors as sparse vectors over the implicit vocabulary, and
    the merge-join that both versions use to compute their inner product
    (the two `inner_product` functions are the same code). */
module Vectors {
  import opened Order

  /** The coordinate of `v` for word `w`: the total count of its entries for
      `w` (zero when `w` is absent). */
  function CountOf(v: seq<Pair>, w: string): int
  {
    if v == [] then 0 else (if v[0].word == w then v[0].count else 0) + CountOf(v[1..], w)
  }

  /** The inner product x1*y1 + x2*y2 + ...: each entry of `a` contributes
      its count times the coordinate of `b` for its word. */
  function Dot(a: seq<Pair>, b: seq<Pair>): int
  {
    if a == [] then 0 else a[0].count * CountOf(b, a[0].word) + Dot(a[1..], b)
  }

  /** The sum of the squared counts: the squared norm of a vector whose words
      are distinct. */
  function SumSquares(v: seq<Pair>): int
  {
    if v == [] then 0 else v[0].count * v[0].count + SumSquares(v[1..])
  }

  predicate CountsPositive(v: seq<Pair>)
  {
    forall k :: 0 <= k < |v| ==> v[k].count >= 1
  }

  /** The vectors share no word. */
  predicate Disjoint(a: seq<Pair>, b: seq<Pair>)
  {
    forall i, j :: 0 <= i < |a| && 0 <= j < |b| ==> a[i].word != b[j].word
  }

  lemma {:induction false} CountOfAbsent(v: seq<Pair>, w: string)
    requires forall k :: 0 <= k < |v| ==> v[k].word != w
    ensures CountOf(v, w) == 0
  {
    if v != [] {
      CountOfAbsent(v[1..], w);
    }
  }

  lemma {:induction false} CountOfDistinct(v: seq<Pair>, k: nat)
    requires DistinctWords(v) && k < |v|
    ensures CountOf(v, v[k].word) == v[k].count
  {
    if k == 0 {
      CountOfAbsent(v[1..], v[0].word);
    } else {
      CountOfDistinct(v[1..], k - 1);
    }
  }

  lemma {:induction false} CountOfNonNegative(v: seq<Pair>, w: string)
    requires CountsPositive(v)
    ensures CountOf(v, w) >= 0
  {
    if v != [] {
      CountOfNonNegative(v[1..], w);
    }
  }

  lemma {:induction false} DotEmptyRight(a: seq<Pair>)
    ensures Dot(a, []) == 0
  {
    if a != [] {
      DotEmptyRight(a[1..]);
    }
  }

  /** Peeling the first entry off the right-hand vector. */
  lemma {:induction false} DotConsRight(a: seq<Pair>, q: Pair, b: seq<Pair>)
    ensures Dot(a, [q] + b) == q.count * CountOf(a, q.word) + Dot(a, b)
  {
    if a != [] {
      var p := a[0];
      DotConsRight(a[1..], q, b);
      assert ([q] + b)[0] == q && ([q] + b)[1..] == b;
      var m := if q.word == p.word then q.count else 0;
      var n := if p.word == q.word then p.count else 0;
      assert CountOf([q] + b, p.word) == m + CountOf(b, p.word);
      assert CountOf(a, q.word) == n + CountOf(a[1..], q.word);
      assert p.count * m == q.count * n;
      assert p.count * (m + CountOf(b, p.word)) == p.count * m + p.count * CountOf(b, p.word);
      assert q.count * (n + CountOf(a[1..], q.word)) == q.count * n + q.count * CountOf(a[1..], q.word);
    }
  }

  /** inner_product is symmetric, on every pair of vectors. */
  lemma {:induction false} DotSymmetric(a: seq<Pair>, b: seq<Pair>)
    ensures Dot(a, b) == Dot(b, a)
    decreases |b|
  {
    if b == [] {
      DotEmptyRight(a);
    } else {
      assert b == [b[0]] + b[1..];
      DotConsRight(a, b[0], b[1..]);
      DotSymmetric(a, b[1..]);
    }
  }

  lemma {:induction false} DotMatching(a: seq<Pair>, b: seq<Pair>)
    requires forall k :: 0 <= k < |a| ==> CountOf(b, a[k].word) == a[k].count
    ensures Dot(a, b) == SumSquares(a)
  {
    if a != [] {
      assert CountOf(b, a[0].word) == a[0].count;
      forall k | 0 <= k < |a| - 1 ensures CountOf(b, a[1..][k].word) == a[1..][k].count {
        assert a[1..][k] == a[k + 1];
      }
      DotMatching(a[1..], b);
    }
  }

  /** `inner_product(L, L)` is the sum of the squared counts, the squared
      norm that vector_angle takes the square root of. */
  lemma DotSelf(v: seq<Pair>)
    requires DistinctWords(v)
    ensures Dot(v, v) == SumSquares(v)
  {
    forall k | 0 <= k < |v| ensures CountOf(v, v[k].word) == v[k].count {
      CountOfDistinct(v, k);
    }
    DotMatching(v, v);
  }

  /** Counts are positive, so the inner product is never negative. */
  lemma {:induction false} DotNonNegative(a: seq<Pair>, b: seq<Pair>)
    requires CountsPositive(a) && CountsPositive(b)
    ensures Dot(a, b) >= 0
  {
    if a != [] {
      CountOfNonNegative(b, a[0].word);
      DotNonNegative(a[1..], b);
    }
  }

  /** The squared norm is positive exactly for a non-empty vector. */
  lemma {:induction false} SumSquaresPositive(v: seq<Pair>)
    requires CountsPositive(v)
    ensures SumSquares(v) >= 0
    ensures SumSquares(v) == 0 <==> v == []
  {
    if v != [] {
      SumSquaresPositive(v[1..]);
      assert v[0].count * v[0].count >= 1;
    }
  }

  /** Vectors with no word in common have inner product 0: orthogonal,
      angle pi/2. */
  lemma {:induction false} DotDisjoint(a: seq<Pair>, b: seq<Pair>)
    requires Disjoint(a, b)
    ensures Dot(a, b) == 0
  {
    if a != [] {
      CountOfAbsent(b, a[0].word);
      DotDisjoint(a[1..], b);
    }
  }

  /** The first word of a strictly ascending vector does not recur. */
  lemma FirstWordOnce(a: seq<Pair>)
    requires StrictlyAscending(a) && a != []
    ensures CountOf(a[1..], a[0].word) == 0
  {
    forall k | 0 <= k < |a[1..]| ensures a[1..][k].word != a[0].word {
      assert StrLess(a[0].word, a[k + 1].word);
      StrLessIrreflexive(a[0].word);
    }
    CountOfAbsent(a[1..], a[0].word);
  }

  /** Merge-join step: both cursors are on the same word. */
  lemma JoinMatch(a: seq<Pair>, b: seq<Pair>)
    requires StrictlyAscending(a) && StrictlyAscending(b)
    requires a != [] && b != [] && a[0].word == b[0].word
    ensures Dot(a, b) == a[0].count * b[0].count + Dot(a[1..], b[1..])
  {
    FirstWordOnce(a);
    FirstWordOnce(b);
    assert CountOf(b, a[0].word) == b[0].count;
    assert b == [b[0]] + b[1..];
    DotConsRight(a[1..], b[0], b[1..]);
  }

  /** Merge-join step: the left word is below the right cursor, so it is
      absent from the rest of the right vector. */
  lemma JoinSkipLeft(a: seq<Pair>, b: seq<Pair>)
    requires StrictlyAscending(b)
    requires a != [] && b != [] && StrLess(a[0].word, b[0].word)
    ensures Dot(a, b) == Dot(a[1..], b)
  {
    BelowFirstIsAbsent(a[0].word, b);
    CountOfAbsent(b, a[0].word);
  }

  /** Merge-join step: the right word is below the left cursor, so it is
      absent from the rest of the left vector. */
  lemma JoinSkipRight(a: seq<Pair>, b: seq<Pair>)
    requires StrictlyAscending(a)
    requires a != [] && b != [] && StrLess(b[0].word, a[0].word)
    ensures Dot(a, b) == Dot(a, b[1..])
  {
    BelowFirstIsAbsent(b[0].word, a);
    CountOfAbsent(a, b[0].word);
    assert b == [b[0]] + b[1..];
    DotConsRight(a, b[0], b[1..]);
  }

  /** inner_product: a merge-join over two vectors sorted strictly by word.
      It returns the inner product of the two vectors; `steps` counts the
      loop's iterations, each of which advances at least one cursor. */
  method InnerProduct(L1: seq<Pair>, L2: seq<Pair>) returns (sum: int, ghost steps: nat)
    requires StrictlyAscending(L1) && StrictlyAscending(L2)
    ensures sum == Dot(L1, L2)
    ensures steps <= |L1| + |L2|
  {
    sum := 0;
    steps := 0;
    var i, j := 0, 0;
    while i < |L1| && j < |L2|
      invariant 0 <= i <= |L1| && 0 <= j <= |L2|
      invariant sum + Dot(L1[i..], L2[j..]) == Dot(L1, L2)
      invariant steps <= i + j
      decreases |L1| - i + |L2| - j
    {
      if L1[i].word == L2[j].word {
        JoinMatch(L1[i..], L2[j..]);
        assert L1[i..][1..] == L1[i + 1..] && L2[j..][1..] == L2[j + 1..];
        sum := sum + L1[i].count * L2[j].count;
        i := i + 1;
        j := j + 1;
      } else if StrLess(L1[i].word, L2[j].word) {
        JoinSkipLeft(L1[i..], L2[j..]);
        assert L1[i..][1..] == L1[i + 1..];
        i := i + 1;
      } else {
        StrLessTrichotomy(L1[i].word, L2[j].word);
        JoinSkipRight(L1[i..], L2[j..]);
        assert L2[j..][1..] == L2[j + 1..];
        j := j + 1;
      }
      steps := steps + 1;
    }
    if i == |L1| {
      assert L1[i..] == [];
    } else {
      assert L2[j..] == [];
      DotEmptyRight(L1[i..]);
    }
  }

  /** The example of inner_product's documentation: the vectors are in the
      order the merge-join needs, and their inner product is 3*4 + 2*1 = 14. */
  lemma InnerProductExample()
    ensures var v1 := [Pair("and", 3), Pair("of", 2), Pair("the", 5)];
            var v2 := [Pair("and", 4), Pair("in", 1), Pair("of", 1), Pair("this", 2)];
            StrictlyAscending(v1) && StrictlyAscending(v2) && Dot(v1, v2) == 14
  {
    var v1 := [Pair("and", 3), Pair("of", 2), Pair("the", 5)];
    var v2 := [Pair("and", 4), Pair("in", 1), Pair("of", 1), Pair("this", 2)];
    assert StrLess("and", "in") && StrLess("in", "of") && StrLess("of", "this");
    assert StrLess("and", "of") && StrLess("of", "the");
    StrLessTransitive("and", "of", "the");
    StrLessTransitive("and", "in", "of");
    StrLessTransitive("and", "of", "this");
    StrLessTransitive("in", "of", "this");
    assert CountOf(v2, "and") == 4;
    assert CountOf(v2, "of") == 1;
    assert CountOf(v2, "the") == 0;
  }

  /** vector_angle up to its floating-point step: the numerator of the
      cosine, and the product of the two squared norms whose square root is
      the denominator. */
  method VectorAngleTerms(L1: seq<Pair>, L2: seq<Pair>) returns (numerator: int, radicand: int)
    requires StrictlyAscending(L1) && StrictlyAscending(L2)
    ensures numerator == Dot(L1, L2)
    ensures radicand == SumSquares(L1) * SumSquares(L2)
  {
    ghost var steps;
    numerator, steps := InnerProduct(L1, L2);
    var norm1, norm2;
    norm1, steps := InnerProduct(L1, L1);
    norm2, steps := InnerProduct(L2, L2);
    StrictlyAscendingDistinct(L1);
    StrictlyAscendingDistinct(L2);
    DotSelf(L1);
    DotSelf(L2);
    radicand := norm1 * norm2;
  }

  /** A document compared with itself: the numerator squared equals the
      radicand, so the cosine is 1 and the angle 0 (for a non-empty
      vector). */
  lemma SelfAngleTerms(v: seq<Pair>)
    requires StrictlyAscending(v)
    ensures Dot(v, v) * Dot(v, v) == SumSquares(v) * SumSquares(v)
  {
    StrictlyAscendingDistinct(v);
    DotSelf(v);
  }

  /** The radicand is zero, and vector_angle divides 0.0 by 0.0, exactly
      when one of the documents has no words. */
  lemma DegenerateRadicand(a: seq<Pair>, b: seq<Pair>)
    requires CountsPositive(a) && CountsPositive(b)
    ensures SumSquares(a) * SumSquares(b) >= 0
    ensures SumSquares(a) * SumSquares(b) == 0 <==> a == [] || b == []
  {
    SumSquaresPositive(a);
    SumSquaresPositive(b);
    if a != [] && b != [] {
      assert SumSquares(a) * SumSquares(b) >= SumSquares(b);
    }
  }
}
