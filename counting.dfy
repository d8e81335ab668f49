/** What both frequency counters promise: one entry per distinct word, each
    with that word's number of occurrences. A word's number of occurrences
    in a word list `ws` is `multiset(ws)[w]`. */
module Counting {
  import opened Order
  import opened Sorting

  /** The distinct words of `ws`, in the order of their first occurrence. */
  function Dedup(ws: seq<string>): (r: seq<string>)
    ensures forall i, j :: 0 <= i < j < |r| ==> r[i] != r[j]
    ensures forall w :: w in r <==> w in ws
    decreases |ws|
  {
    if ws == [] then []
    else
      var d := Dedup(ws[..|ws| - 1]);
      var last := ws[|ws| - 1];
      assert ws == ws[..|ws| - 1] + [last];
      if last in d then d else d + [last]
  }

  /** `items` is an exact frequency table of `ws`: its words are distinct,
      they are exactly the words of `ws`, and each count is the number of
      occurrences of its word. */
  predicate IsTally(items: seq<Pair>, ws: seq<string>)
  {
    && DistinctWords(items)
    && (forall w :: w in WordsOf(items) ==> w in ws)
    && (forall w :: w in ws ==> w in WordsOf(items))
    && (forall k :: 0 <= k < |items| ==> items[k].count == multiset(ws)[items[k].word])
  }

  /** A frequency vector of `ws`: its frequency table, strictly ascending by
      word. */
  predicate IsFrequencyVector(v: seq<Pair>, ws: seq<string>)
  {
    IsTally(v, ws) && StrictlyAscending(v)
  }

  function TotalCount(items: seq<Pair>): int
  {
    if items == [] then 0 else items[0].count + TotalCount(items[1..])
  }

  /** `ws` with every occurrence of `w` removed. */
  function Without(ws: seq<string>, w: string): (r: seq<string>)
    ensures |ws| == |r| + multiset(ws)[w]
    ensures forall x :: x != w ==> multiset(r)[x] == multiset(ws)[x]
    ensures forall x :: x in r <==> x in ws && x != w
  {
    if ws == [] then []
    else
      assert ws == [ws[0]] + ws[1..];
      (if ws[0] == w then [] else [ws[0]]) + Without(ws[1..], w)
  }

  /** The words of `ws` that are not in `s`. */
  function Outside(ws: seq<string>, s: seq<string>): seq<string>
  {
    if ws == [] then [] else (if ws[0] in s then [] else [ws[0]]) + Outside(ws[1..], s)
  }

  lemma {:induction false} OutsideNothing(ws: seq<string>)
    ensures Outside(ws, []) == ws
  {
    if ws != [] {
      OutsideNothing(ws[1..]);
      assert ws == [ws[0]] + ws[1..];
    }
  }

  lemma {:induction false} OutsideCovered(ws: seq<string>, s: seq<string>)
    requires forall w :: w in ws ==> w in s
    ensures Outside(ws, s) == []
  {
    if ws != [] {
      assert ws[0] in ws;
      OutsideCovered(ws[1..], s);
    }
  }

  lemma {:induction false} OutsideCons(ws: seq<string>, w0: string, s: seq<string>)
    ensures Outside(ws, [w0] + s) == Outside(Without(ws, w0), s)
  {
    if ws != [] {
      OutsideCons(ws[1..], w0, s);
      if ws[0] != w0 {
        var r := [ws[0]] + Without(ws[1..], w0);
        assert Without(ws, w0) == r;
        assert r[0] == ws[0] && r[1..] == Without(ws[1..], w0);
        assert (ws[0] in [w0] + s) == (ws[0] in s);
      } else {
        assert Without(ws, w0) == [] + Without(ws[1..], w0) == Without(ws[1..], w0);
        assert ws[0] in [w0] + s;
      }
    }
  }

  lemma {:induction false} TotalCountCovers(items: seq<Pair>, ws: seq<string>)
    requires DistinctWords(items)
    requires forall k :: 0 <= k < |items| ==> items[k].count == multiset(ws)[items[k].word]
    ensures TotalCount(items) + |Outside(ws, WordsOf(items))| == |ws|
    decreases |items|
  {
    if items == [] {
      assert WordsOf(items) == [];
      OutsideNothing(ws);
    } else {
      var w0 := items[0].word;
      var rest := items[1..];
      var ws' := Without(ws, w0);
      forall k | 0 <= k < |rest| ensures rest[k].count == multiset(ws')[rest[k].word] {
        assert rest[k] == items[k + 1];
      }
      TotalCountCovers(rest, ws');
      assert WordsOf(items) == [w0] + WordsOf(rest);
      OutsideCons(ws, w0, WordsOf(rest));
    }
  }

  /** The counts of a frequency table add up to the number of words. */
  lemma TallyTotal(items: seq<Pair>, ws: seq<string>)
    requires IsTally(items, ws)
    ensures TotalCount(items) == |ws|
  {
    TotalCountCovers(items, ws);
    OutsideCovered(ws, WordsOf(items));
  }

  /** Every count of a frequency table is at least 1. */
  lemma TallyCountsPositive(items: seq<Pair>, ws: seq<string>)
    requires IsTally(items, ws)
    ensures forall k :: 0 <= k < |items| ==> items[k].count >= 1
  {
    forall k | 0 <= k < |items| ensures items[k].count >= 1 {
      assert items[k].word in WordsOf(items);
    }
  }

  /** No entry occurs twice in a list whose words are distinct. */
  lemma {:induction false} DistinctMultiplicity(x: seq<Pair>, p: Pair)
    requires DistinctWords(x)
    ensures multiset(x)[p] <= 1
  {
    if x != [] {
      assert x == [x[0]] + x[1..];
      DistinctMultiplicity(x[1..], p);
      if x[0] == p {
        assert p !in x[1..];
      }
    }
  }

  lemma TwoPositions(y: seq<Pair>, i: nat, j: nat)
    requires i < j < |y| && y[i] == y[j]
    ensures multiset(y)[y[i]] >= 2
  {
    assert y == y[..i] + [y[i]] + y[i + 1..j] + [y[j]] + y[j + 1..];
  }

  /** Reordering a frequency table leaves a frequency table of the same
      words: a sort may not lose, duplicate or alter an entry. */
  lemma TallyPermutation(x: seq<Pair>, y: seq<Pair>, ws: seq<string>)
    requires IsTally(x, ws) && multiset(x) == multiset(y)
    ensures IsTally(y, ws)
  {
    forall i, j | 0 <= i < j < |y| ensures y[i].word != y[j].word {
      assert y[i] in multiset(x) && y[j] in multiset(x);
      if y[i] == y[j] {
        TwoPositions(y, i, j);
        DistinctMultiplicity(x, y[i]);
      }
    }
    forall w ensures w in WordsOf(y) <==> w in ws {
      if w in WordsOf(y) {
        var k :| 0 <= k < |y| && y[k].word == w;
        assert y[k] in multiset(x);
        var a :| 0 <= a < |x| && x[a] == y[k];
        assert w in WordsOf(x);
      }
      if w in ws {
        assert w in WordsOf(x);
        var a :| 0 <= a < |x| && x[a].word == w;
        assert x[a] in multiset(y);
        var k :| 0 <= k < |y| && y[k] == x[a];
        assert w == WordsOf(y)[k];
      }
    }
    forall k | 0 <= k < |y| ensures y[k].count == multiset(ws)[y[k].word] {
      assert y[k] in multiset(x);
      var a :| 0 <= a < |x| && x[a] == y[k];
    }
  }

  /** A word list has exactly one frequency vector: the output of the whole
      count-then-sort stage is determined by the words alone. */
  lemma FrequencyVectorUnique(v1: seq<Pair>, v2: seq<Pair>, ws: seq<string>)
    requires IsFrequencyVector(v1, ws) && IsFrequencyVector(v2, ws)
    ensures v1 == v2
  {
    StrictlyAscendingDistinct(v1);
    StrictlyAscendingDistinct(v2);
    forall p ensures multiset(v1)[p] == multiset(v2)[p] {
      DistinctMultiplicity(v1, p);
      DistinctMultiplicity(v2, p);
      SameEntry(v1, v2, ws, p);
      SameEntry(v2, v1, ws, p);
    }
    assert multiset(v1) == multiset(v2);
    StrictlyAscendingSorted(v1);
    StrictlyAscendingSorted(v2);
    SortedPermutationUnique(v1, v2);
  }

  lemma SameEntry(v1: seq<Pair>, v2: seq<Pair>, ws: seq<string>, p: Pair)
    requires IsTally(v1, ws) && IsTally(v2, ws)
    ensures p in v1 ==> p in v2
  {
    if p in v1 {
      var a :| 0 <= a < |v1| && v1[a] == p;
      assert p.word in WordsOf(v1);
      assert p.word in WordsOf(v2);
      var b :| 0 <= b < |v2| && v2[b].word == p.word;
      assert v2[b] == p;
    }
  }

  lemma StrictlyAscendingSorted(s: seq<Pair>)
    requires StrictlyAscending(s)
    ensures Sorted(s)
  {
    forall i, j | 0 <= i < j < |s| ensures PairLe(s[i], s[j]) {
      PairLessLe(s[i], s[j]);
    }
  }
}
