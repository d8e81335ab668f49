/** The first version of the document-distance program: a word is a
    maximal run of alphanumeric characters, lower-cased; lines are joined
    by list concatenation; frequencies are counted by a linear search of a
    list of `[word, count]` entries; the list is sorted by insertion sort. */
module DocDist1 {
  import opened Chars
  import opened Runs
  import opened Order
  import opened Counting
  import opened Sorting

  /** A word as this version produces it: non-empty, alphanumeric, with no
      upper-case letter. */
  predicate IsWord(w: string)
  {
    w != [] && forall c :: c in w ==> IsAlnum(c) && !IsUpper(c)
  }

  lemma LoweredRunIsWord(run: string)
    requires run != [] && forall c :: c in run ==> IsAlnum(c)
    ensures IsWord(LowerStr(run))
  {
    forall c | c in LowerStr(run) ensures IsAlnum(c) && !IsUpper(c) {
      var k :| 0 <= k < |run| && LowerStr(run)[k] == c;
      assert run[k] in run;
    }
  }

  /** The words of one line: its maximal runs of alphanumeric characters,
      each lower-cased, in order. */
  function Words(line: string): seq<string>
  {
    LowerAll(SplitRuns(line, IsAlnum))
  }

  /** Every word of a line is non-empty, alphanumeric and lower case. */
  lemma WordsAreWords(line: string)
    ensures forall k :: 0 <= k < |Words(line)| ==> IsWord(Words(line)[k])
  {
    var runs := SplitRuns(line, IsAlnum);
    forall k | 0 <= k < |runs| ensures IsWord(LowerStr(runs[k])) {
      LoweredRunIsWord(runs[k]);
    }
  }

  /** The words still to come while scanning: those of the pending
      characters followed by the unread rest of the line. */
  function Pending(characterList: string, rest: string): seq<string>
  {
    LowerAll(SplitRuns(characterList + rest, IsAlnum))
  }

  /** An alphanumeric character extends the pending word. */
  lemma ScanWordChar(characterList: string, line: string, k: nat)
    requires k < |line|
    ensures Pending(characterList, line[k..]) == Pending(characterList + [line[k]], line[k + 1..])
  {
    assert characterList + line[k..] == (characterList + [line[k]]) + line[k + 1..];
  }

  /** Any other character closes the pending word, if there is one. */
  lemma ScanSeparator(wordList: seq<string>, characterList: string, line: string, k: nat)
    requires k < |line| && !IsAlnum(line[k]) && forall x :: x in characterList ==> IsAlnum(x)
    ensures characterList != [] ==>
      (wordList + [LowerStr(characterList)]) + Pending([], line[k + 1..]) == wordList + Pending(characterList, line[k..])
    ensures characterList == [] ==> Pending(characterList, line[k..]) == Pending([], line[k + 1..])
  {
    var c, rest := line[k], line[k + 1..];
    assert [] + rest == rest;
    if characterList != [] {
      assert characterList + line[k..] == characterList + [c] + rest;
      RunThenSeparator(characterList, c, rest, IsAlnum);
      LowerAllAppend([characterList], SplitRuns(rest, IsAlnum));
    } else {
      assert characterList + line[k..] == [c] + rest;
    }
  }

  /** At the end of the line the pending word, if any, is the last one. */
  lemma ScanEnd(wordList: seq<string>, characterList: string, line: string)
    requires forall x :: x in characterList ==> IsAlnum(x)
    ensures characterList != [] ==> wordList + Pending(characterList, line[|line|..]) == wordList + [LowerStr(characterList)]
    ensures characterList == [] ==> wordList + Pending(characterList, line[|line|..]) == wordList
  {
    assert characterList + line[|line|..] == characterList;
    if characterList != [] {
      SingleRun(characterList, IsAlnum);
    }
  }

  /** get_words_from_string: scans the line character by character,
      collecting alphanumeric characters into the current word and closing
      the word at every other character and at the end of the line. */
  method GetWordsFromString(line: string) returns (wordList: seq<string>)
    ensures wordList == Words(line)
  {
    wordList := [];
    var characterList: string := [];
    assert [] + line[0..] == line;
    for k := 0 to |line|
      invariant forall c :: c in characterList ==> IsAlnum(c)
      invariant wordList + Pending(characterList, line[k..]) == Words(line)
    {
      var c := line[k];
      if IsAlnum(c) {
        ScanWordChar(characterList, line, k);
        characterList := characterList + [c];
      } else {
        ScanSeparator(wordList, characterList, line, k);
        if |characterList| > 0 {
          var word := LowerStr(characterList);
          wordList := wordList + [word];
          characterList := [];
        }
      }
    }
    ScanEnd(wordList, characterList, line);
    if |characterList| > 0 {
      var word := LowerStr(characterList);
      wordList := wordList + [word];
    }
  }

  /** get_words_from_line_list: the words of every line, concatenated in
      line order. */
  method GetWordsFromLineList(L: seq<string>) returns (wordList: seq<string>)
    ensures wordList == WordsOfLines(L, Words)
  {
    wordList := [];
    for k := 0 to |L|
      invariant wordList == WordsOfLines(L[..k], Words)
    {
      var wordsInLine := GetWordsFromString(L[k]);
      assert L[..k + 1] == L[..k] + [L[k]];
      WordsOfLinesAppend(L[..k], [L[k]], Words);
      assert WordsOfLines([L[k]], Words) == Words(L[k]) + WordsOfLines([], Words);
      wordList := wordList + wordsInLine;
    }
    assert L[..|L|] == L;
  }

  /** What the counting loop keeps after reading `prefix`: one entry per
      distinct word, in order of first occurrence, each with the word's
      number of occurrences so far. */
  ghost predicate CountedSoFar(L: seq<Pair>, prefix: seq<string>)
  {
    && WordsOf(L) == Dedup(prefix)
    && forall k :: 0 <= k < |L| ==> L[k].count == multiset(prefix)[L[k].word]
  }

  lemma DedupExtend(prefix: seq<string>, w: string)
    ensures Dedup(prefix + [w]) == if w in Dedup(prefix) then Dedup(prefix) else Dedup(prefix) + [w]
  {
    assert (prefix + [w])[..|prefix|] == prefix;
  }

  /** A word already in the list: its entry's count goes up by one. */
  lemma CountHit(L: seq<Pair>, prefix: seq<string>, w: string, i: nat)
    requires CountedSoFar(L, prefix)
    requires i < |L| && L[i].word == w
    ensures CountedSoFar(L[i := Pair(w, L[i].count + 1)], prefix + [w])
  {
    var L' := L[i := Pair(w, L[i].count + 1)];
    assert WordsOf(L)[i] == w;
    DedupExtend(prefix, w);
    assert WordsOf(L') == WordsOf(L);
  }

  /** A new word: it is appended with count 1. */
  lemma CountMiss(L: seq<Pair>, prefix: seq<string>, w: string)
    requires CountedSoFar(L, prefix)
    requires forall m :: 0 <= m < |L| ==> L[m].word != w
    ensures CountedSoFar(L + [Pair(w, 1)], prefix + [w])
  {
    assert w !in WordsOf(L);
    DedupExtend(prefix, w);
    assert WordsOf(L + [Pair(w, 1)]) == WordsOf(L) + [w];
  }

  /** count_frequency: for each word, a linear search of the entries; a
      hit increments that entry's count, a miss appends a new entry with
      count 1. The entries come out in order of first occurrence. */
  method CountFrequency(wordList: seq<string>) returns (L: seq<Pair>)
    ensures IsTally(L, wordList)
    ensures WordsOf(L) == Dedup(wordList)
    ensures TotalCount(L) == |wordList|
  {
    L := [];
    for n := 0 to |wordList|
      invariant CountedSoFar(L, wordList[..n])
    {
      var newWord := wordList[n];
      ghost var L0 := L;
      var i := 0;
      while i < |L|
        invariant L == L0
        invariant 0 <= i <= |L|
        invariant forall m :: 0 <= m < i ==> L[m].word != newWord
      {
        if newWord == L[i].word {
          CountHit(L, wordList[..n], newWord, i);
          L := L[i := Pair(L[i].word, L[i].count + 1)];
          break;
        }
        i := i + 1;
      }
      if i == |L| {
        CountMiss(L, wordList[..n], newWord);
        L := L + [Pair(newWord, 1)];
      }
      assert wordList[..n + 1] == wordList[..n] + [newWord];
    }
    assert wordList[..|wordList|] == wordList;
    TallyTotal(L, wordList);
  }

  /** word_frequencies_for_file, from the lines of the file on: the
      document's frequency vector. The list of entries is copied into an
      array and sorted in place, as insertion_sort sorts the list. */
  method WordFrequencies(lines: seq<string>) returns (v: seq<Pair>)
    ensures IsFrequencyVector(v, WordsOfLines(lines, Words))
  {
    var wordList := GetWordsFromLineList(lines);
    var freqMapping := CountFrequency(wordList);
    var A := new Pair[|freqMapping|](k requires 0 <= k < |freqMapping| => freqMapping[k]);
    assert A[..] == freqMapping;
    InsertionSort(A);
    v := A[..];
    TallyPermutation(freqMapping, v, wordList);
    SortedDistinctIsStrictlyAscending(v);
  }

  lemma {:induction false} ConcatLowerAll(ws: seq<string>)
    ensures Concat(LowerAll(ws)) == LowerStr(Concat(ws))
  {
    if ws != [] {
      ConcatLowerAll(ws[1..]);
      assert LowerAll(ws)[1..] == LowerAll(ws[1..]);
      LowerStrAppend(ws[0], Concat(ws[1..]));
    }
  }

  /** The words of a line, put back together, are its alphanumeric
      characters lower-cased: none is lost (not even in a word that ends
      the line) and nothing else gets in. */
  lemma WordsConcat(line: string)
    ensures Concat(Words(line)) == LowerStr(Keep(line, IsAlnum))
  {
    ConcatRuns(line, IsAlnum);
    ConcatLowerAll(SplitRuns(line, IsAlnum));
  }

  /** No word spans a non-alphanumeric character. */
  lemma WordsAtSeparator(a: string, c: char, b: string)
    requires !IsAlnum(c)
    ensures Words(a + [c] + b) == Words(a) + Words(b)
  {
    SplitAtSeparator(a, c, b, IsAlnum);
    LowerAllAppend(SplitRuns(a, IsAlnum), SplitRuns(b, IsAlnum));
  }

  /** Tokenizing line by line gives the words of the whole text whenever
      every line but the last ends in a non-alphanumeric character, as the
      lines of a file read with their line terminators do. */
  lemma {:induction false} LinesAsOneText(lines: seq<string>)
    requires forall k :: 0 <= k < |lines| - 1 ==> lines[k] != [] && !IsAlnum(lines[k][|lines[k]| - 1])
    ensures WordsOfLines(lines, Words) == Words(Concat(lines))
  {
    if |lines| == 1 {
      assert lines[1..] == [];
      assert Concat(lines) == lines[0] + [] == lines[0];
      assert WordsOfLines(lines, Words) == Words(lines[0]) + [] == Words(lines[0]);
    } else if |lines| > 1 {
      var line := lines[0];
      var a, c := line[..|line| - 1], line[|line| - 1];
      LinesAsOneText(lines[1..]);
      assert line == a + [c] + [];
      WordsAtSeparator(a, c, []);
      assert Concat(lines) == a + [c] + Concat(lines[1..]);
      WordsAtSeparator(a, c, Concat(lines[1..]));
    }
  }

  /** Without the separator, a line break can cut a word in two: the line
      "ab" has one word, the lines "a" and "b" have two. */
  lemma LineBreakCanSplitWord()
    ensures Words("ab") == ["ab"]
    ensures WordsOfLines(["a", "b"], Words) == ["a", "b"]
  {
    SingleRun("ab", IsAlnum);
    SingleRun("a", IsAlnum);
    SingleRun("b", IsAlnum);
    assert ["a", "b"][1..] == ["b"];
    assert LowerStr("ab") == "ab";
    assert LowerStr("a") == "a";
    assert LowerStr("b") == "b";
  }
}
