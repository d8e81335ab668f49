/** The (word, count) entries of a frequency vector and the order Python
    puts on them. Strings compare character by character, a proper prefix
    first; `[word, count]` lists and `(word, count)` tuples compare by word,
    then by count. */
module Order {

  datatype Pair = Pair(word: string, count: int)

  /** Python's `a < b` on strings. */
  predicate StrLess(a: string, b: string)
    decreases |a|
  {
    if b == [] then false
    else if a == [] then true
    else a[0] < b[0] || (a[0] == b[0] && StrLess(a[1..], b[1..]))
  }

  /** Python's `p < q` on two entries. */
  predicate PairLess(p: Pair, q: Pair)
  {
    StrLess(p.word, q.word) || (p.word == q.word && p.count < q.count)
  }

  /** `not (q < p)`, the test that keeps an element in place in both
      sorts. */
  predicate PairLe(p: Pair, q: Pair)
  {
    !PairLess(q, p)
  }

  /** Ascending, as both sorts leave their output. */
  predicate Sorted(s: seq<Pair>)
  {
    forall i, j :: 0 <= i < j < |s| ==> PairLe(s[i], s[j])
  }

  /** Strictly ascending by word: the shape the merge-join needs. */
  predicate StrictlyAscending(s: seq<Pair>)
  {
    forall i, j :: 0 <= i < j < |s| ==> StrLess(s[i].word, s[j].word)
  }

  predicate DistinctWords(s: seq<Pair>)
  {
    forall i, j :: 0 <= i < j < |s| ==> s[i].word != s[j].word
  }

  function WordsOf(s: seq<Pair>): (r: seq<string>)
    ensures |r| == |s| && forall k :: 0 <= k < |s| ==> r[k] == s[k].word
  {
    seq(|s|, k requires 0 <= k < |s| => s[k].word)
  }

  lemma {:induction false} StrLessIrreflexive(a: string)
    ensures !StrLess(a, a)
    decreases |a|
  {
    if a != [] {
      StrLessIrreflexive(a[1..]);
    }
  }

  lemma {:induction false} StrLessTransitive(a: string, b: string, c: string)
    requires StrLess(a, b) && StrLess(b, c)
    ensures StrLess(a, c)
    decreases |a|
  {
    if a != [] && a[0] == b[0] && b[0] == c[0] {
      StrLessTransitive(a[1..], b[1..], c[1..]);
    }
  }

  lemma {:induction false} StrLessTrichotomy(a: string, b: string)
    ensures StrLess(a, b) || a == b || StrLess(b, a)
    decreases |a|
  {
    if a != [] && b != [] && a[0] == b[0] {
      StrLessTrichotomy(a[1..], b[1..]);
      if a[1..] == b[1..] {
        assert a == [a[0]] + a[1..] && b == [b[0]] + b[1..];
      }
    }
  }

  lemma StrLessAsymmetric(a: string, b: string)
    requires StrLess(a, b)
    ensures !StrLess(b, a)
  {
    if StrLess(b, a) {
      StrLessTransitive(a, b, a);
      StrLessIrreflexive(a);
    }
  }

  /** Python's order on entries is total ... */
  lemma PairLeTotal(p: Pair, q: Pair)
    ensures PairLe(p, q) || PairLe(q, p)
  {
    StrLessTrichotomy(p.word, q.word);
    if StrLess(p.word, q.word) {
      StrLessAsymmetric(p.word, q.word);
    } else if StrLess(q.word, p.word) {
      StrLessAsymmetric(q.word, p.word);
    }
  }

  /** ... antisymmetric ... */
  lemma PairLeAntisymmetric(p: Pair, q: Pair)
    requires PairLe(p, q) && PairLe(q, p)
    ensures p == q
  {
    StrLessTrichotomy(p.word, q.word);
  }

  /** ... and transitive. */
  lemma PairLeTransitive(p: Pair, q: Pair, r: Pair)
    requires PairLe(p, q) && PairLe(q, r)
    ensures PairLe(p, r)
  {
    StrLessTrichotomy(p.word, q.word);
    StrLessTrichotomy(q.word, r.word);
    if StrLess(r.word, p.word) {
      if StrLess(p.word, q.word) {
        StrLessTransitive(r.word, p.word, q.word);
        StrLessAsymmetric(r.word, q.word);
      } else if StrLess(q.word, r.word) {
        StrLessTransitive(q.word, r.word, p.word);
        StrLessAsymmetric(q.word, p.word);
      } else {
        StrLessIrreflexive(p.word);
      }
    } else if r.word == p.word && r.count < p.count {
      if StrLess(p.word, q.word) {
        StrLessAsymmetric(p.word, q.word);
      } else if StrLess(q.word, p.word) {
        StrLessAsymmetric(q.word, p.word);
      }
    }
  }

  lemma PairLessLe(p: Pair, q: Pair)
    requires PairLess(p, q)
    ensures PairLe(p, q)
  {
    if StrLess(p.word, q.word) {
      StrLessAsymmetric(p.word, q.word);
    } else {
      StrLessIrreflexive(p.word);
    }
  }

  /** Once the words are distinct, ascending order is strict ascent by
      word: the count never decides. */
  lemma {:induction false} SortedDistinctIsStrictlyAscending(s: seq<Pair>)
    requires Sorted(s) && DistinctWords(s)
    ensures StrictlyAscending(s)
  {
    forall i, j | 0 <= i < j < |s| ensures StrLess(s[i].word, s[j].word) {
      assert PairLe(s[i], s[j]) && s[i].word != s[j].word;
      StrLessTrichotomy(s[i].word, s[j].word);
    }
  }

  lemma {:induction false} StrictlyAscendingDistinct(s: seq<Pair>)
    requires StrictlyAscending(s)
    ensures DistinctWords(s)
  {
    forall i, j | 0 <= i < j < |s| ensures s[i].word != s[j].word {
      StrLessIrreflexive(s[i].word);
    }
  }

  /** A word below the first word of a strictly ascending vector occurs
      nowhere in it. */
  lemma {:induction false} BelowFirstIsAbsent(w: string, s: seq<Pair>)
    requires StrictlyAscending(s) && s != [] && StrLess(w, s[0].word)
    ensures forall k :: 0 <= k < |s| ==> s[k].word != w
  {
    forall k | 0 <= k < |s| ensures s[k].word != w {
      if k > 0 {
        StrLessTransitive(w, s[0].word, s[k].word);
      }
      StrLessIrreflexive(w);
    }
  }
}
