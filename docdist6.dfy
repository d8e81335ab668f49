/** The sixth version of the document-distance program: a line is passed
    through a translation table (punctuation to spaces, upper case to lower
    case) and split on whitespace; lines are joined with `extend`;
    frequencies are counted in a dictionary; the entries are sorted by
    merge sort (insertion sort is still present, as in the first version). */
module DocDist6 {
  import opened Chars
  import opened Runs
  import opened Order
  import opened Counting
  import opened Sorting

  /** A word as this version produces it: non-empty, with no whitespace, no
      punctuation and no upper-case letter. Any other character may occur. */
  predicate IsWord(w: string)
  {
    w != [] && forall c :: c in w ==> !IsSpace(c) && !IsPunct(c) && !IsUpper(c)
  }

  /** get_words_from_string: `line.translate(translation_table).split()`. */
  function GetWordsFromString(line: string): (r: seq<string>)
    ensures forall k :: 0 <= k < |r| ==> IsWord(r[k])
  {
    var t := Translate(line);
    RunsFromText(t, NotSpace);
    assert forall c :: c in t ==> !IsPunct(c) && !IsUpper(c) by {
      forall c | c in t ensures !IsPunct(c) && !IsUpper(c) {
        var k :| 0 <= k < |t| && t[k] == c;
      }
    }
    SplitRuns(t, NotSpace)
  }

  /** get_words_from_line_list: each line's words are appended to the list
      with `extend`, in line order. */
  method GetWordsFromLineList(L: seq<string>) returns (wordList: seq<string>)
    ensures wordList == WordsOfLines(L, GetWordsFromString)
  {
    wordList := [];
    for k := 0 to |L|
      invariant wordList == WordsOfLines(L[..k], GetWordsFromString)
    {
      var wordsInLine := GetWordsFromString(L[k]);
      assert L[..k + 1] == L[..k] + [L[k]];
      WordsOfLinesAppend(L[..k], [L[k]], GetWordsFromString);
      assert WordsOfLines([L[k]], GetWordsFromString) == wordsInLine + WordsOfLines([], GetWordsFromString);
      wordList := wordList + wordsInLine;
    }
    assert L[..|L|] == L;
  }

  /** What the counting loop keeps after reading `prefix`: the keys of
      the dictionary are the words read so far, each mapped to its number
      of occurrences. */
  ghost predicate CountedSoFar(D: map<string, int>, prefix: seq<string>)
  {
    && (forall w :: w in D <==> w in prefix)
    && (forall w :: w in D ==> D[w] == multiset(prefix)[w])
  }

  lemma CountStep(D: map<string, int>, prefix: seq<string>, w: string)
    requires CountedSoFar(D, prefix)
    ensures w in D ==> CountedSoFar(D[w := D[w] + 1], prefix + [w])
    ensures w !in D ==> CountedSoFar(D[w := 1], prefix + [w])
  {
    assert multiset(prefix + [w]) == multiset(prefix) + multiset{w};
  }

  /** What the draining of `items()` keeps: the entries taken out so far
      are entries of `D` with distinct words, and the rest of `D` holds
      exactly the entries not taken out yet. */
  ghost predicate TakenOut(items: seq<Pair>, rest: map<string, int>, D: map<string, int>)
  {
    && (forall w :: w in rest ==> w in D && rest[w] == D[w])
    && (forall w :: w in D ==> w in rest || w in WordsOf(items))
    && (forall k :: 0 <= k < |items| ==> items[k].word in D && items[k].word !in rest && items[k].count == D[items[k].word])
    && DistinctWords(items)
  }

  lemma TakeOutStep(items: seq<Pair>, rest: map<string, int>, D: map<string, int>, w: string)
    requires TakenOut(items, rest, D) && w in rest
    ensures TakenOut(items + [Pair(w, rest[w])], rest - {w}, D)
  {
    var items' := items + [Pair(w, rest[w])];
    assert WordsOf(items') == WordsOf(items) + [w];
    assert items'[|items|].word == w;
  }

  /** count_frequency: a dictionary from word to count is built in one
      pass, then its `items()` are returned. Their order depends on the
      dictionary's hashing, which is not modelled: the entries are taken
      out of the map in an arbitrary order, and the contract holds for
      every order. */
  method CountFrequency(wordList: seq<string>) returns (items: seq<Pair>)
    ensures IsTally(items, wordList)
    ensures forall k :: 0 <= k < |items| ==> items[k].count >= 1
    ensures TotalCount(items) == |wordList|
  {
    var D: map<string, int> := map[];
    for n := 0 to |wordList|
      invariant CountedSoFar(D, wordList[..n])
    {
      var newWord := wordList[n];
      assert wordList[..n + 1] == wordList[..n] + [newWord];
      CountStep(D, wordList[..n], newWord);
      if newWord in D {
        D := D[newWord := D[newWord] + 1];
      } else {
        D := D[newWord := 1];
      }
    }
    assert wordList[..|wordList|] == wordList;
    items := [];
    var rest := D;
    while rest != map[]
      invariant TakenOut(items, rest, D)
      decreases |rest|
    {
      var w :| w in rest;
      TakeOutStep(items, rest, D, w);
      items := items + [Pair(w, rest[w])];
      rest := rest - {w};
    }
    assert IsTally(items, wordList);
    TallyCountsPositive(items, wordList);
    TallyTotal(items, wordList);
  }

  /** The merge of two lists: the head of `L` goes first when it is
      smaller than the head of `R`, otherwise the head of `R`; what is left
      of either list when the other runs out follows unchanged. */
  function Merged(L: seq<Pair>, R: seq<Pair>): seq<Pair>
    decreases |L| + |R|
  {
    if L == [] then R
    else if R == [] then L
    else if PairLess(L[0], R[0]) then [L[0]] + Merged(L[1..], R)
    else [R[0]] + Merged(L, R[1..])
  }

  /** The merge holds exactly the entries of both lists. */
  lemma {:induction false} MergedPermutation(L: seq<Pair>, R: seq<Pair>)
    ensures multiset(Merged(L, R)) == multiset(L) + multiset(R)
    decreases |L| + |R|
  {
    if L != [] && R != [] {
      if PairLess(L[0], R[0]) {
        MergedPermutation(L[1..], R);
        HeadTail(L);
        assert Merged(L, R) == [L[0]] + Merged(L[1..], R);
      } else {
        MergedPermutation(L, R[1..]);
        HeadTail(R);
        assert Merged(L, R) == [R[0]] + Merged(L, R[1..]);
      }
    }
  }

  lemma SplitEntries(s: seq<Pair>, mid: nat)
    requires mid <= |s|
    ensures multiset(s) == multiset(s[..mid]) + multiset(s[mid..])
  {
    assert s == s[..mid] + s[mid..];
  }

  lemma HeadTail(s: seq<Pair>)
    requires s != []
    ensures multiset(s) == multiset{s[0]} + multiset(s[1..])
  {
    assert s == [s[0]] + s[1..];
  }

  /** Putting an entry no greater than any other in front keeps a list
      sorted. */
  lemma SortedCons(x: Pair, s: seq<Pair>)
    requires Sorted(s)
    requires forall y :: y in multiset(s) ==> PairLe(x, y)
    ensures Sorted([x] + s)
  {
    var t := [x] + s;
    forall i, j | 0 <= i < j < |t| ensures PairLe(t[i], t[j]) {
      if i == 0 {
        assert t[j] == s[j - 1] && t[j] in multiset(s);
      } else {
        assert t[i] == s[i - 1] && t[j] == s[j - 1];
      }
    }
  }

  /** An entry no greater than the head of a sorted list is no greater
      than any of its entries. */
  lemma BelowSortedHead(x: Pair, s: seq<Pair>)
    requires Sorted(s) && s != [] && PairLe(x, s[0])
    ensures forall y :: y in multiset(s) ==> PairLe(x, y)
  {
    forall y | y in multiset(s) ensures PairLe(x, y) {
      SortedHeadIsLeast(s, y);
      PairLeTransitive(x, s[0], y);
    }
  }

  /** The merge of two sorted lists is sorted. */
  lemma {:induction false} MergedSorted(L: seq<Pair>, R: seq<Pair>)
    requires Sorted(L) && Sorted(R)
    ensures Sorted(Merged(L, R))
    decreases |L| + |R|
  {
    if L != [] && R != [] {
      assert Sorted(L[1..]) && Sorted(R[1..]);
      if PairLess(L[0], R[0]) {
        MergedSorted(L[1..], R);
        MergedPermutation(L[1..], R);
        PairLessLe(L[0], R[0]);
        BelowSortedHead(L[0], R);
        forall y | y in multiset(L[1..]) ensures PairLe(L[0], y) {
          var k :| 0 <= k < |L[1..]| && L[1..][k] == y;
          assert y == L[k + 1];
        }
        SortedCons(L[0], Merged(L[1..], R));
      } else {
        MergedSorted(L, R[1..]);
        MergedPermutation(L, R[1..]);
        BelowSortedHead(R[0], L);
        forall y | y in multiset(R[1..]) ensures PairLe(R[0], y) {
          var k :| 0 <= k < |R[1..]| && R[1..][k] == y;
          assert y == R[k + 1];
        }
        SortedCons(R[0], Merged(L, R[1..]));
      }
    }
  }

  /** What merge promises: the merge of `L` and `R` holds their entries,
      and it is sorted when both are. */
  lemma MergedFacts(L: seq<Pair>, R: seq<Pair>)
    ensures multiset(Merged(L, R)) == multiset(L) + multiset(R)
    ensures |Merged(L, R)| == |L| + |R|
    ensures Sorted(L) && Sorted(R) ==> Sorted(Merged(L, R))
  {
    MergedPermutation(L, R);
    assert |multiset(Merged(L, R))| == |multiset(L)| + |multiset(R)|;
    if Sorted(L) && Sorted(R) {
      MergedSorted(L, R);
    }
  }

  /** One step of the merge loop: the smaller head moves from the
      unprocessed suffixes to the end of `answer`. */
  lemma MergeLoopStep(L: seq<Pair>, R: seq<Pair>, i: nat, j: nat, answer: seq<Pair>)
    requires i < |L| && j < |R|
    requires answer + Merged(L[i..], R[j..]) == Merged(L, R)
    ensures PairLess(L[i], R[j]) ==> (answer + [L[i]]) + Merged(L[i + 1..], R[j..]) == Merged(L, R)
    ensures !PairLess(L[i], R[j]) ==> (answer + [R[j]]) + Merged(L[i..], R[j + 1..]) == Merged(L, R)
  {
    assert L[i..][0] == L[i] && L[i..][1..] == L[i + 1..];
    assert R[j..][0] == R[j] && R[j..][1..] == R[j + 1..];
    if PairLess(L[i], R[j]) {
      assert answer + ([L[i]] + Merged(L[i + 1..], R[j..])) == (answer + [L[i]]) + Merged(L[i + 1..], R[j..]);
    } else {
      assert answer + ([R[j]] + Merged(L[i..], R[j + 1..])) == (answer + [R[j]]) + Merged(L[i..], R[j + 1..]);
    }
  }

  /** When one list is used up, the merge ends with what is left of the
      other. */
  lemma MergeLoopEnd(L: seq<Pair>, R: seq<Pair>, i: nat, j: nat, answer: seq<Pair>)
    requires i <= |L| && j <= |R| && (i == |L| || j == |R|)
    requires answer + Merged(L[i..], R[j..]) == Merged(L, R)
    ensures i < |L| ==> answer + L[i..] == Merged(L, R)
    ensures j < |R| ==> answer + R[j..] == Merged(L, R)
    ensures i == |L| && j == |R| ==> answer == Merged(L, R)
  {
    if i == |L| {
      assert L[i..] == [];
    } else {
      assert R[j..] == [];
    }
  }

  /** merge: two cursors walk `L` and `R`, appending the smaller head to
      `answer`; the leftovers of the list not yet exhausted are appended at
      the end. */
  method Merge(L: seq<Pair>, R: seq<Pair>) returns (answer: seq<Pair>)
    ensures answer == Merged(L, R)
    ensures |answer| == |L| + |R| && multiset(answer) == multiset(L) + multiset(R)
    ensures Sorted(L) && Sorted(R) ==> Sorted(answer)
  {
    var i, j := 0, 0;
    answer := [];
    assert L[0..] == L && R[0..] == R;
    while i < |L| && j < |R|
      invariant 0 <= i <= |L| && 0 <= j <= |R|
      invariant answer + Merged(L[i..], R[j..]) == Merged(L, R)
      decreases |L| - i + |R| - j
    {
      MergeLoopStep(L, R, i, j, answer);
      if PairLess(L[i], R[j]) {
        answer := answer + [L[i]];
        i := i + 1;
      } else {
        answer := answer + [R[j]];
        j := j + 1;
      }
    }
    MergeLoopEnd(L, R, i, j, answer);
    if i < |L| {
      answer := answer + L[i..];
    }
    if j < |R| {
      answer := answer + R[j..];
    }
    MergedFacts(L, R);
  }

  /** merge_sort, on the inputs on which it returns: a non-empty list is
      cut at `n // 2`, both halves are sorted recursively into new lists,
      and the results merged. The input itself is not changed. */
  function MergeSort(A: seq<Pair>): (r: seq<Pair>)
    requires |A| >= 1
    ensures Sorted(r) && multiset(r) == multiset(A)
    decreases |A|
  {
    if |A| == 1 then A
    else
      var mid := |A| / 2;
      HalfBounds(|A|);
      var L := MergeSort(A[..mid]);
      var R := MergeSort(A[mid..]);
      MergedFacts(L, R);
      SplitEntries(A, mid);
      Merged(L, R)
  }

  /** Whether merge_sort, as written, returns on a list of length `n`
      within `depth` nested calls. Its recursion depends only on lengths:
      a call on length 1 returns at once, any other call makes two calls,
      on lengths `n // 2` and `n - n // 2`. */
  predicate ReturnsWithin(n: nat, depth: nat)
  {
    depth > 0 && (n == 1 || (ReturnsWithin(n / 2, depth - 1) && ReturnsWithin(n - n / 2, depth - 1)))
  }

  /** On the empty list merge_sort never reaches its base case: both
      halves are empty again, at every depth. */
  lemma {:induction false} EmptyNeverReturns(depth: nat)
    ensures !ReturnsWithin(0, depth)
  {
    if depth > 0 {
      EmptyNeverReturns(depth - 1);
    }
  }

  lemma HalfBounds(n: int)
    requires n > 1
    ensures 1 <= n / 2 < n && 1 <= n - n / 2 < n
  {
  }

  /** On a non-empty list the recursion returns within `n` nested calls. */
  lemma {:induction false} NonEmptyReturns(n: nat, depth: nat)
    requires 1 <= n <= depth
    ensures ReturnsWithin(n, depth)
  {
    if n > 1 {
      HalfBounds(n);
      NonEmptyReturns(n / 2, depth - 1);
      NonEmptyReturns(n - n / 2, depth - 1);
    }
  }

  /** MergeSort returns the one ascending arrangement of its input: it
      agrees with every other correct sort, insertion sort included, and
      sorting its result again changes nothing. */
  lemma MergeSortUnique(A: seq<Pair>, B: seq<Pair>)
    requires |A| >= 1 && Sorted(B) && multiset(B) == multiset(A)
    ensures MergeSort(A) == B
  {
    SortedPermutationUnique(MergeSort(A), B);
  }

  lemma MergeSortIdempotent(A: seq<Pair>)
    requires |A| >= 1
    ensures |MergeSort(A)| >= 1 && MergeSort(MergeSort(A)) == MergeSort(A)
  {
    assert |MergeSort(A)| == |multiset(MergeSort(A))| == |multiset(A)| == |A|;
    MergeSortUnique(MergeSort(A), MergeSort(A));
  }

  /** word_frequencies_for_file, from the lines of the file on: the
      document's frequency vector, for a document with at least one word
      (merge_sort does not return on an empty list of entries). */
  method WordFrequencies(lines: seq<string>) returns (v: seq<Pair>)
    requires WordsOfLines(lines, GetWordsFromString) != []
    ensures IsFrequencyVector(v, WordsOfLines(lines, GetWordsFromString))
  {
    var wordList := GetWordsFromLineList(lines);
    var freqMapping := CountFrequency(wordList);
    assert wordList[0] in WordsOf(freqMapping);
    ghost var counted := freqMapping;
    freqMapping := MergeSort(freqMapping);
    TallyPermutation(counted, freqMapping, wordList);
    v := freqMapping;
    SortedDistinctIsStrictlyAscending(v);
  }
}
