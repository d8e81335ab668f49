/** Character classes as Python 2's byte-string methods see them in the C
    locale: `isalnum`, `string.punctuation`, `string.uppercase`, the
    whitespace that `split()` breaks on, `string.lower`, and the
    translation table of docdist6. Characters outside ASCII belong to none
    of these classes. */
module Chars {

  predicate IsUpper(c: char) { 'A' <= c <= 'Z' }

  predicate IsLowerLetter(c: char) { 'a' <= c <= 'z' }

  predicate IsDigit(c: char) { '0' <= c <= '9' }

  /** `str.isalnum` on one character */
  predicate IsAlnum(c: char) { IsUpper(c) || IsLowerLetter(c) || IsDigit(c) }

  /** Membership in `string.punctuation`: the 32 printable ASCII characters
      that are neither letters, digits nor the space. */
  predicate IsPunct(c: char)
  {
    ('!' <= c <= '/') || (':' <= c <= '@') || ('[' <= c <= '`') || ('{' <= c <= '~')
  }

  /** The whitespace that `str.split()` without a separator breaks on. */
  predicate IsSpace(c: char)
  {
    c == ' ' || c == '\t' || c == '\n' || c == '\r' || c == '\U{B}' || c == '\U{C}'
  }

  predicate NotSpace(c: char) { !IsSpace(c) }

  /** `string.lower` on one character: only A-Z change. */
  function Lower(c: char): (l: char)
    ensures !IsUpper(l)
    ensures IsAlnum(l) <==> IsAlnum(c)
    ensures IsPunct(l) <==> IsPunct(c)
    ensures IsSpace(l) <==> IsSpace(c)
    ensures IsUpper(c) ==> IsLowerLetter(l) && l as int - c as int == 'a' as int - 'A' as int
    ensures !IsUpper(c) ==> l == c
  {
    if IsUpper(c) then (c as int + ('a' as int - 'A' as int)) as char else c
  }

  function LowerStr(s: string): (r: string)
    ensures |r| == |s|
    ensures forall k :: 0 <= k < |s| ==> r[k] == Lower(s[k])
  {
    seq(|s|, k requires 0 <= k < |s| => Lower(s[k]))
  }

  function LowerAll(ws: seq<string>): (r: seq<string>)
    ensures |r| == |ws|
    ensures forall k :: 0 <= k < |ws| ==> r[k] == LowerStr(ws[k])
  {
    seq(|ws|, k requires 0 <= k < |ws| => LowerStr(ws[k]))
  }

  /** One entry of docdist6's `translation_table`, built with
      `string.maketrans(string.punctuation + string.uppercase,
      " " * 32 + string.lowercase)`: punctuation becomes a space, an
      upper-case letter its lower-case partner, anything else itself. */
  function TranslateChar(c: char): (t: char)
    ensures !IsPunct(t) && !IsUpper(t)
    ensures IsSpace(t) <==> IsSpace(c) || IsPunct(c)
    ensures IsAlnum(t) <==> IsAlnum(c)
    ensures IsAlnum(c) ==> t == Lower(c)
    ensures !IsPunct(c) && !IsUpper(c) ==> t == c
  {
    if IsPunct(c) then ' ' else Lower(c)
  }

  /** `line.translate(translation_table)` */
  function Translate(s: string): (r: string)
    ensures |r| == |s|
    ensures forall k :: 0 <= k < |s| ==> r[k] == TranslateChar(s[k])
  {
    seq(|s|, k requires 0 <= k < |s| => TranslateChar(s[k]))
  }

  lemma LowerStrAppend(a: string, b: string)
    ensures LowerStr(a + b) == LowerStr(a) + LowerStr(b)
  {
    assert forall k :: 0 <= k < |a + b| ==> LowerStr(a + b)[k] == (LowerStr(a) + LowerStr(b))[k];
  }

  lemma LowerAllAppend(a: seq<string>, b: seq<string>)
    ensures LowerAll(a + b) == LowerAll(a) + LowerAll(b)
  {
    assert forall k :: 0 <= k < |a + b| ==> LowerAll(a + b)[k] == (LowerAll(a) + LowerAll(b))[k];
  }

  lemma TranslateAppend(a: string, b: string)
    ensures Translate(a + b) == Translate(a) + Translate(b)
  {
    assert forall k :: 0 <= k < |a + b| ==> Translate(a + b)[k] == (Translate(a) + Translate(b))[k];
  }
}
