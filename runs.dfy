/** Splitting a line into words. Both versions of the program cut a line
    into the maximal runs of characters of one class: docdist1 keeps the
    runs of alphanumeric characters, docdist6 (through `split()`) the runs
    of non-whitespace characters. The splitter is written once here, with
    the class as a parameter, together with what every line-by-line
    driver does: tokenize each line on its own and concatenate. */
module Runs {

  /** The longest prefix of `s` whose characters all belong to the class. */
  function Run(s: string, inWord: char -> bool): (w: string)
    ensures |w| <= |s| && w == s[..|w|]
    ensures forall c :: c in w ==> inWord(c)
    ensures |w| < |s| ==> !inWord(s[|w|])
  {
    if s == [] || !inWord(s[0]) then [] else [s[0]] + Run(s[1..], inWord)
  }

  /** The maximal runs of class characters of `s`, in order; every other
      character only separates. */
  function SplitRuns(s: string, inWord: char -> bool): (r: seq<string>)
    ensures forall k :: 0 <= k < |r| ==> r[k] != [] && forall c :: c in r[k] ==> inWord(c)
    decreases |s|
  {
    if s == [] then []
    else if !inWord(s[0]) then SplitRuns(s[1..], inWord)
    else
      var w := Run(s, inWord);
      [w] + SplitRuns(s[|w|..], inWord)
  }

  /** Every character of every run comes from the text. */
  lemma {:induction false} RunsFromText(s: string, inWord: char -> bool)
    ensures forall k, c :: 0 <= k < |SplitRuns(s, inWord)| && c in SplitRuns(s, inWord)[k] ==> c in s
    decreases |s|
  {
    if s != [] {
      if !inWord(s[0]) {
        RunsFromText(s[1..], inWord);
        assert forall c :: c in s[1..] ==> c in s;
      } else {
        var w := Run(s, inWord);
        RunsFromText(s[|w|..], inWord);
        assert forall c :: c in w || c in s[|w|..] ==> c in s;
        var r := [w] + SplitRuns(s[|w|..], inWord);
        assert forall k :: 0 < k < |r| ==> r[k] == SplitRuns(s[|w|..], inWord)[k - 1];
      }
    }
  }

  /** The class characters of `s`, in order. */
  function Keep(s: string, inWord: char -> bool): string
  {
    if s == [] then [] else (if inWord(s[0]) then [s[0]] else []) + Keep(s[1..], inWord)
  }

  function Concat(ws: seq<string>): string
  {
    if ws == [] then [] else ws[0] + Concat(ws[1..])
  }

  /** A run ends at the first separator: what follows it does not matter. */
  lemma {:induction false} RunStopsAtSeparator(a: string, c: char, b: string, inWord: char -> bool)
    requires !inWord(c)
    ensures Run(a + [c] + b, inWord) == Run(a, inWord)
    decreases |a|
  {
    if a != [] && inWord(a[0]) {
      assert (a + [c] + b)[1..] == a[1..] + [c] + b;
      RunStopsAtSeparator(a[1..], c, b, inWord);
    }
  }

  /** A non-empty string of class characters is one run. */
  lemma {:induction false} SingleRun(w: string, inWord: char -> bool)
    requires w != [] && forall c :: c in w ==> inWord(c)
    ensures SplitRuns(w, inWord) == [w]
  {
    RunOfWord(w, inWord);
    assert w[|w|..] == [];
  }

  lemma {:induction false} RunOfWord(w: string, inWord: char -> bool)
    requires forall c :: c in w ==> inWord(c)
    ensures Run(w, inWord) == w
    decreases |w|
  {
    if w != [] {
      assert w[0] in w;
      forall c | c in w[1..] ensures inWord(c) { assert c in w; }
      RunOfWord(w[1..], inWord);
      assert w == [w[0]] + w[1..];
    }
  }

  /** Cutting a text at a separator character does not change its words:
      no word contains a separator, so none is split. */
  lemma {:induction false} SplitAtSeparator(a: string, c: char, b: string, inWord: char -> bool)
    requires !inWord(c)
    ensures SplitRuns(a + [c] + b, inWord) == SplitRuns(a, inWord) + SplitRuns(b, inWord)
    decreases |a|
  {
    var s := a + [c] + b;
    if a == [] {
      assert s[0] == c && s[1..] == b;
    } else if !inWord(a[0]) {
      assert s[0] == a[0] && s[1..] == a[1..] + [c] + b;
      SplitAtSeparator(a[1..], c, b, inWord);
    } else {
      assert s[0] == a[0];
      RunStopsAtSeparator(a, c, b, inWord);
      var w := Run(a, inWord);
      assert s[|w|..] == a[|w|..] + [c] + b;
      SplitAtSeparator(a[|w|..], c, b, inWord);
      assert SplitRuns(s, inWord) == [w] + SplitRuns(s[|w|..], inWord);
      assert SplitRuns(a, inWord) == [w] + SplitRuns(a[|w|..], inWord);
    }
  }

  /** A completed run followed by a separator contributes exactly itself. */
  lemma RunThenSeparator(w: string, c: char, rest: string, inWord: char -> bool)
    requires w != [] && forall x :: x in w ==> inWord(x)
    requires !inWord(c)
    ensures SplitRuns(w + [c] + rest, inWord) == [w] + SplitRuns(rest, inWord)
  {
    SplitAtSeparator(w, c, rest, inWord);
    SingleRun(w, inWord);
  }

  lemma {:induction false} KeepRun(s: string, inWord: char -> bool)
    ensures Keep(s, inWord) == Run(s, inWord) + Keep(s[|Run(s, inWord)|..], inWord)
    decreases |s|
  {
    if s == [] || !inWord(s[0]) {
      assert Run(s, inWord) == [];
      assert s[0..] == s;
    } else {
      var w := Run(s[1..], inWord);
      KeepRun(s[1..], inWord);
      assert Run(s, inWord) == [s[0]] + w;
      assert Keep(s, inWord) == [s[0]] + Keep(s[1..], inWord);
      assert s[1..][|w|..] == s[|w| + 1..];
    }
  }

  /** No class character is dropped and none is added: the words, put
      back together, are exactly the class characters of the text. */
  lemma {:induction false} ConcatRuns(s: string, inWord: char -> bool)
    ensures Concat(SplitRuns(s, inWord)) == Keep(s, inWord)
    decreases |s|
  {
    if s == [] {
    } else if !inWord(s[0]) {
      ConcatRuns(s[1..], inWord);
    } else {
      var w := Run(s, inWord);
      ConcatRuns(s[|w|..], inWord);
      KeepRun(s, inWord);
      var r := [w] + SplitRuns(s[|w|..], inWord);
      assert r[0] == w && r[1..] == SplitRuns(s[|w|..], inWord);
    }
  }

  /** The driver over a list of lines: each line is tokenized on its own
      and the word lists are concatenated in order. */
  function WordsOfLines(lines: seq<string>, tokenize: string -> seq<string>): seq<string>
  {
    if lines == [] then [] else tokenize(lines[0]) + WordsOfLines(lines[1..], tokenize)
  }

  /** Line-boundedness: the words of a document are the words of its first
      part followed by those of the rest, so no word spans two lines. */
  lemma {:induction false} WordsOfLinesAppend(a: seq<string>, b: seq<string>, tokenize: string -> seq<string>)
    ensures WordsOfLines(a + b, tokenize) == WordsOfLines(a, tokenize) + WordsOfLines(b, tokenize)
  {
    if a == [] {
      assert a + b == b;
    } else {
      assert (a + b)[1..] == a[1..] + b;
      WordsOfLinesAppend(a[1..], b, tokenize);
    }
  }
}
