/** The two versions of the program compared. On text made only of
    letters, digits, punctuation and whitespace the two tokenizers give
    the same words, so the two programs compute the same frequency
    vectors. On other characters (control characters, bytes above 127)
    they part: the first version cuts words there, the sixth keeps them
    inside words. */
module Versions {
  import opened Chars
  import opened Runs
  import opened Order
  import opened Counting
  import DocDist1
  import DocDist6

  /** A character of plain ASCII text, as far as both tokenizers are
      concerned: a letter, a digit, a punctuation mark or whitespace. */
  predicate IsPlainText(c: char)
  {
    IsAlnum(c) || IsPunct(c) || IsSpace(c)
  }

  lemma TranslateDrop(s: string, k: nat)
    requires k <= |s|
    ensures Translate(s)[k..] == Translate(s[k..])
  {
  }

  /** On plain text, a word of the translated line is the lower-cased
      alphanumeric run of the original line. */
  lemma {:induction false} RunTranslate(s: string)
    requires forall c :: c in s ==> IsPlainText(c)
    ensures Run(Translate(s), NotSpace) == LowerStr(Run(s, IsAlnum))
    decreases |s|
  {
    if s != [] {
      assert s[0] in s;
      if IsAlnum(s[0]) {
        PlainSuffix(s, 1);
        RunTranslate(s[1..]);
        TranslateDrop(s, 1);
        LowerStrAppend([s[0]], Run(s[1..], IsAlnum));
      }
    }
  }

  lemma PlainSuffix(s: string, k: nat)
    requires k <= |s| && forall c :: c in s ==> IsPlainText(c)
    ensures forall c :: c in s[k..] ==> IsPlainText(c)
  {
    forall c | c in s[k..] ensures IsPlainText(c) {
      assert c in s;
    }
  }

  /** A leading separator contributes no word to either tokenizer. */
  lemma SkipSeparator(s: string)
    requires s != [] && !IsAlnum(s[0]) && IsPlainText(s[0])
    ensures SplitRuns(Translate(s), NotSpace) == SplitRuns(Translate(s[1..]), NotSpace)
    ensures LowerAll(SplitRuns(s, IsAlnum)) == LowerAll(SplitRuns(s[1..], IsAlnum))
  {
    TranslateDrop(s, 1);
  }

  /** A leading word is the same word in both tokenizers. */
  lemma LeadingWord(s: string)
    requires s != [] && IsAlnum(s[0]) && forall c :: c in s ==> IsPlainText(c)
    ensures var w := Run(s, IsAlnum);
      && SplitRuns(Translate(s), NotSpace) == [LowerStr(w)] + SplitRuns(Translate(s[|w|..]), NotSpace)
      && LowerAll(SplitRuns(s, IsAlnum)) == [LowerStr(w)] + LowerAll(SplitRuns(s[|w|..], IsAlnum))
  {
    LeadingWordTranslated(s);
    var w := Run(s, IsAlnum);
    LowerAllAppend([w], SplitRuns(s[|w|..], IsAlnum));
  }

  lemma LeadingWordTranslated(s: string)
    requires s != [] && IsAlnum(s[0]) && forall c :: c in s ==> IsPlainText(c)
    ensures var w := Run(s, IsAlnum);
      SplitRuns(Translate(s), NotSpace) == [LowerStr(w)] + SplitRuns(Translate(s[|w|..]), NotSpace)
  {
    var w := Run(s, IsAlnum);
    var t := Translate(s);
    RunTranslate(s);
    assert NotSpace(t[0]);
    assert |Run(t, NotSpace)| == |w|;
    TranslateDrop(s, |w|);
  }

  /** On plain text, translating and splitting on whitespace gives the
      lower-cased alphanumeric runs. */
  lemma {:induction false} SplitTranslate(s: string)
    requires forall c :: c in s ==> IsPlainText(c)
    ensures SplitRuns(Translate(s), NotSpace) == LowerAll(SplitRuns(s, IsAlnum))
    decreases |s|
  {
    if s != [] {
      assert s[0] in s;
      if !IsAlnum(s[0]) {
        SkipSeparator(s);
        PlainSuffix(s, 1);
        SplitTranslate(s[1..]);
      } else {
        var w := Run(s, IsAlnum);
        LeadingWord(s);
        PlainSuffix(s, |w|);
        SplitTranslate(s[|w|..]);
      }
    }
  }

  /** On a line of plain text both versions of get_words_from_string
      return the same words. */
  lemma TokenizersAgree(line: string)
    requires forall c :: c in line ==> IsPlainText(c)
    ensures DocDist6.GetWordsFromString(line) == DocDist1.Words(line)
  {
    SplitTranslate(line);
  }

  /** So do both versions of get_words_from_line_list. */
  lemma {:induction false} LineListsAgree(lines: seq<string>)
    requires forall k, c :: 0 <= k < |lines| && c in lines[k] ==> IsPlainText(c)
    ensures WordsOfLines(lines, DocDist6.GetWordsFromString) == WordsOfLines(lines, DocDist1.Words)
  {
    if lines != [] {
      TokenizersAgree(lines[0]);
      forall k, c | 0 <= k < |lines[1..]| && c in lines[1..][k] ensures IsPlainText(c) {
        assert lines[1..][k] == lines[k + 1];
      }
      LineListsAgree(lines[1..]);
    }
  }

  /** On a document of plain text both versions compute the same
      frequency vector. */
  lemma FrequencyVectorsAgree(lines: seq<string>, v1: seq<Pair>, v6: seq<Pair>)
    requires forall k, c :: 0 <= k < |lines| && c in lines[k] ==> IsPlainText(c)
    requires IsFrequencyVector(v1, WordsOfLines(lines, DocDist1.Words))
    requires IsFrequencyVector(v6, WordsOfLines(lines, DocDist6.GetWordsFromString))
    ensures v1 == v6
  {
    LineListsAgree(lines);
    FrequencyVectorUnique(v1, v6, WordsOfLines(lines, DocDist1.Words));
  }

  /** Outside plain text the tokenizers differ: a control character
      between two letters separates two words in the first version and
      stays inside one word in the sixth. */
  lemma TokenizersDiffer()
    ensures DocDist1.Words("a\U{1}b") == ["a", "b"]
    ensures DocDist6.GetWordsFromString("a\U{1}b") == ["a\U{1}b"]
  {
    FirstVersionCuts();
    SixthVersionKeeps();
  }

  lemma FirstVersionCuts()
    ensures DocDist1.Words("a\U{1}b") == ["a", "b"]
  {
    assert "a\U{1}b" == "a" + ['\U{1}'] + "b";
    DocDist1.WordsAtSeparator("a", '\U{1}', "b");
    SingleRun("a", IsAlnum);
    SingleRun("b", IsAlnum);
    assert LowerStr("a") == "a" && LowerStr("b") == "b";
  }

  lemma SixthVersionKeeps()
    ensures DocDist6.GetWordsFromString("a\U{1}b") == ["a\U{1}b"]
  {
    var line := "a\U{1}b";
    assert Translate(line) == line;
    SingleRun(line, NotSpace);
  }
}
