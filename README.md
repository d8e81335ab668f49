# Document distance: a verified model of the word-frequency pipeline

The document-distance programs measure how alike two texts are by the
angle between their word-frequency vectors. This project models the
in-memory pipeline of two versions of the program, `docdist1.py` and
`docdist6.py`:

- tokenize each line into lower-case words, and concatenate the words of
  the lines;
- count the occurrences of each word as `(word, count)` pairs;
- sort the pairs (insertion sort in place in both versions; `docdist6.py`
  also has a recursive merge sort with its `merge` helper);
- compute the inner product of two sorted vectors with a two-cursor
  merge join.

Modules:

- `Chars`: the ASCII character classes of Python 2 byte strings
  (`isalnum`, `string.punctuation`, `split()` whitespace, `string.lower`)
  and docdist6's translation table.
- `Runs`: maximal runs of one character class, the splitter both
  tokenizers reduce to, and the line-list driver.
- `Order`: the `(word, count)` pair and Python's ordering of strings and
  of `[word, count]` lists.
- `Counting`: exact frequency tables and frequency vectors.
- `Sorting`: the in-place insertion sort shared by both files.
- `Vectors`: the sparse dot product, `inner_product` and the integer terms
  of `vector_angle`.
- `DocDist1` and `DocDist6`: each version's own tokenizer, counter and
  composition.
- `Versions`: where the two tokenizers agree and where they differ.

Loops that update state are methods proved against specification
functions. `docdist1`'s scanner, counter and line driver are such methods.
So are `docdist6`'s dictionary counter, line driver and `merge`, and the
shared `inner_product`. The insertion sort works in place on an `array`.
`docdist6`'s expression-style tokenizer and its recursive `merge_sort` are
functions.

The `docdist6.py` docstring says its words are "alphanumeric". The code
keeps inside a word every character that is neither whitespace nor ASCII
punctuation, so control characters and bytes above 127 stay in words. The
model follows the code: `Versions.TokenizersDiffer` exhibits the
difference, and `Versions.TokenizersAgree` proves the tokenizers equal on
plain ASCII text.

## Model

| member | source | states |
|---|---|---|
| Chars.Lower | docdist1.py:91 | lower-casing changes exactly the letters A-Z, keeps every character class, and never yields an upper-case letter |
| Chars.TranslateChar | docdist6.py:88-89 | the translation table turns punctuation into a space and A-Z into a-z, and leaves every other character unchanged |
| DocDist1.GetWordsFromString | docdist1.py:75-98 | the character loop returns the lower-cased maximal alphanumeric runs of the line, in order, including a run that ends the line |
| DocDist1.WordsAreWords | docdist1.py:75-98 | every word returned is non-empty, alphanumeric and has no upper-case letter |
| DocDist1.WordsConcat | docdist1.py:86-97 | the words put back together are exactly the lower-cased alphanumeric characters of the line: none dropped, none added |
| DocDist1.WordsAtSeparator | docdist1.py:86-93 | a non-alphanumeric character splits the words of a text into those before it and those after it |
| DocDist1.GetWordsFromLineList | docdist1.py:63-73 | the result is the concatenation, in line order, of the words of each line |
| DocDist1.LinesAsOneText | docdist1.py:63-73 | when each line but the last ends in a separator, tokenizing line by line equals tokenizing the joined text |
| DocDist1.LineBreakCanSplitWord | docdist1.py:63-73 | no word crosses a line boundary: "ab" is one word, but the lines "a" and "b" give two |
| DocDist1.CountHit | docdist1.py:109-112 | incrementing the matched entry keeps the list an exact first-occurrence tally of the words read so far |
| DocDist1.CountMiss | docdist1.py:113-114 | appending `[word, 1]` after a failed search keeps the list an exact first-occurrence tally |
| DocDist1.CountFrequency | docdist1.py:103-115 | one entry per distinct word in order of first occurrence, each count the word's number of occurrences, counts summing to the number of words |
| DocDist1.WordFrequencies | docdist1.py:142-158 | tokenize, count and sort yield the frequency vector of the document's words: an exact tally, strictly ascending by word |
| Sorting.InsertKeepsSorted | docdist1.py:129-136 | inserting the key into its place after the shifts keeps the prefix ascending |
| Sorting.InsertionSort | docdist1.py:120-137 | the array ends ascending and holds the same entries as before (also docdist6.py:154-171, the same code) |
| Sorting.SortedPermutationUnique | docdist6.py:154-171 | two ascending lists holding the same entries are equal, so every correct sort gives the same result |
| Order.PairLeTotal | docdist1.py:133 | Python's order on `[word, count]` pairs is total |
| Order.PairLeTransitive | docdist1.py:133 | Python's order on `[word, count]` pairs is transitive |
| Order.SortedDistinctIsStrictlyAscending | docdist1.py:150-151 | a sorted list with distinct words is strictly ascending by word, which is what `inner_product` needs |
| Counting.TallyTotal | docdist1.py:103-115 | the counts of an exact tally add up to the number of words |
| Counting.TallyCountsPositive | docdist6.py:113-116 | every count of an exact tally is at least 1 |
| Counting.TallyPermutation | docdist1.py:150-151 | reordering the entries of an exact tally gives an exact tally |
| Counting.FrequencyVectorUnique | docdist6.py:184-185 | the frequency vector of a word list is unique, whichever counter and sort produced it |
| Vectors.InnerProduct | docdist1.py:160-184 | on vectors strictly ascending by word, the merge join returns the sum of count products over common words and stops within `len(L1)+len(L2)` steps (also docdist6.py:194-218) |
| Vectors.JoinMatch | docdist1.py:173-177 | equal leading words contribute their product, and the join moves on in both vectors |
| Vectors.JoinSkipLeft | docdist1.py:178-180 | a smaller leading word of L1 has no partner in L2 and can be skipped |
| Vectors.JoinSkipRight | docdist1.py:181-183 | a smaller leading word of L2 has no partner in L1 and can be skipped |
| Vectors.InnerProductExample | docdist1.py:165-166 | the docstring example evaluates to 14 (also docdist6.py:199-200) |
| Vectors.DotSymmetric | docdist1.py:29 | the inner product is symmetric |
| Vectors.DotSelf | docdist1.py:30 | the inner product of a vector with itself is its sum of squared counts, the squared norm |
| Vectors.DotNonNegative | docdist1.py:160-184 | the inner product of two vectors with positive counts is non-negative |
| Vectors.DotDisjoint | docdist1.py:160-184 | vectors with no word in common have inner product 0 |
| Vectors.SumSquaresPositive | docdist1.py:193 | the squared norm is non-negative, and 0 exactly for the empty vector |
| Vectors.VectorAngleTerms | docdist1.py:186-193 | the numerator is the inner product and the radicand is the product of the squared norms |
| Vectors.SelfAngleTerms | docdist1.py:192-193 | comparing a document with itself makes the squared numerator equal the radicand |
| Vectors.DegenerateRadicand | docdist1.py:193-194 | the radicand is 0 exactly when one document has no words |
| DocDist6.GetWordsFromString | docdist6.py:91-102 | every word returned is non-empty and has no whitespace, ASCII punctuation or upper-case letter |
| DocDist6.GetWordsFromLineList | docdist6.py:73-84 | the result is the concatenation, in line order, of the words of each line |
| DocDist6.CountStep | docdist6.py:112-116 | each dictionary update keeps every count equal to the word's occurrences so far |
| DocDist6.TakeOutStep | docdist6.py:117 | taking one item out of the dictionary keeps the listed items and the rest a partition of the dictionary |
| DocDist6.CountFrequency | docdist6.py:107-117 | the items are an exact tally in an arbitrary order, every count is at least 1, and counts add up to the number of words |
| DocDist6.MergedPermutation | docdist6.py:134-152 | the merge holds exactly the entries of both inputs |
| DocDist6.MergedSorted | docdist6.py:134-152 | the merge of two ascending lists is ascending |
| DocDist6.MergeLoopStep | docdist6.py:141-147 | each loop step appends the smaller head, or R's head on a tie, and keeps the result a prefix of the merge |
| DocDist6.MergeLoopEnd | docdist6.py:148-151 | once one side is used up, appending the other side's leftovers completes the merge |
| DocDist6.Merge | docdist6.py:134-152 | the loop returns the merge: length `len(L)+len(R)`, the entries of both inputs, ascending when both inputs are |
| DocDist6.MergeSort | docdist6.py:122-132 | on a non-empty list the result is ascending and holds the same entries |
| DocDist6.EmptyNeverReturns | docdist6.py:126-131 | on the empty list the recursion never reaches its `n == 1` base case, at any depth |
| DocDist6.NonEmptyReturns | docdist6.py:126-131 | on a list of length n ≥ 1 the recursion returns within depth n |
| DocDist6.MergeSortUnique | docdist6.py:122-132 | merge_sort gives the only ascending arrangement of its input |
| DocDist6.MergeSortIdempotent | docdist6.py:122-132 | sorting a sorted result again changes nothing |
| DocDist6.WordFrequencies | docdist6.py:176-192 | tokenize, count and merge sort yield the frequency vector of the document's words |
| Versions.TokenizersAgree | docdist6.py:91-102 | on plain ASCII text the sixth version's tokenizer returns the first version's words (docdist1.py:75-98) |
| Versions.LineListsAgree | docdist6.py:73-84 | on plain ASCII text the two line drivers return the same words (docdist1.py:63-73) |
| Versions.FrequencyVectorsAgree | docdist6.py:176-192 | on plain ASCII text both versions compute the same frequency vector (docdist1.py:142-158) |
| Versions.TokenizersDiffer | docdist6.py:91-102 | a control character cuts a word in the first version (docdist1.py:87) but stays inside the word in the sixth |

## Left out

- `read_file` in both files is left out: file I/O, printing and `sys.exit` on an I/O error. Documents enter as sequences of lines.
- The `print` statements in `word_frequencies_for_file` are left out as diagnostic output. `WordFrequencies` starts from the list of lines.
- `main`, the command-line arguments and `profile.run` are a harness and are left out.
- The `math.sqrt`/`math.acos` step of `vector_angle` is floating point and is left out. `Vectors.VectorAngleTerms` models the integer numerator and radicand, and no clamping is added.
- `Vectors.DotSymmetric` and the angle lemmas do not prove the Cauchy–Schwarz bound that keeps `acos` inside its domain.
- `Vectors.InnerProduct` accumulates in `int`, whereas the source uses the float `0.0`. The counts are whole numbers, so floating-point rounding of large sums is not modelled.
- `Vectors.InnerProduct`: its termination measure is a ghost step count, which the source does not have.
- The locale and Unicode behaviour of `isalnum`, `string.punctuation` and `string.uppercase` are left out. Characters are classified by the ASCII sets of the C locale.
- `DocDist6.CountFrequency` returns the items in an arbitrary order, chosen by `:|`. Python's `dict.items()` order depends on hashing and is not modelled.
- `DocDist1.CountFrequency` models the list of `[word, count]` entries as a sequence of values. Aliasing of an entry list mutated in place is not modelled.
- `Sorting.InsertionSort` does not model the return value of `insertion_sort`. That value is the same list object, and the callers ignore it.
- `DocDist6.MergeSort` requires a non-empty list, because the source recurses forever on the empty list. `DocDist6.EmptyNeverReturns` shows the divergence on a model of the recursion depth, not on the function itself.
- `DocDist6.MergeSort` works on values, so the source's fresh slices and its leaving the input unmodified hold trivially.
- `DocDist6.WordFrequencies` requires at least one word, because `merge_sort` diverges on an empty document.
- `DocDist6.Merge`: on a tie it takes `R`'s head, but tied pairs are equal values, so which side supplied the pair cannot be observed.
- The docdist1 `vector_angle` on an empty document divides 0.0 by 0.0. `Vectors.DegenerateRadicand` states when the radicand is 0, and no error path is added.
