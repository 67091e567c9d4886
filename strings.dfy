/**
 * The string operations the bot applies to user and catalogue text, restricted to
 * ASCII: Python's `str.lower`, `str.title`, `str.replace` of one character by another,
 * and `str.split(sep)[0]`.
 */
module Strings {

  predicate IsAsciiUpper(c: char) { 'A' <= c <= 'Z' }

  predicate IsAsciiLower(c: char) { 'a' <= c <= 'z' }

  /** The cased characters of ASCII. */
  predicate IsAsciiLetter(c: char) { IsAsciiUpper(c) || IsAsciiLower(c) }

  function LowerChar(c: char): char
  {
    if IsAsciiUpper(c) then (c as int - 'A' as int + 'a' as int) as char else c
  }

  function UpperChar(c: char): char
  {
    if IsAsciiLower(c) then (c as int - 'a' as int + 'A' as int) as char else c
  }

  /** `s.lower()`: every ASCII capital becomes its small letter, nothing else changes. */
  function Lower(s: string): (r: string)
    ensures |r| == |s|
    ensures forall i :: 0 <= i < |s| ==> r[i] == LowerChar(s[i])
  {
    if s == [] then [] else [LowerChar(s[0])] + Lower(s[1..])
  }

  /** `s.replace(x, y)` for one-character `x` and `y`. */
  function Replace(s: string, x: char, y: char): (r: string)
    ensures |r| == |s|
    ensures forall i :: 0 <= i < |s| ==> r[i] == (if s[i] == x then y else s[i])
  {
    if s == [] then [] else [if s[0] == x then y else s[0]] + Replace(s[1..], x, y)
  }

  /**
   * `s.split(sep)[0]`: the text before the first `sep`, or all of `s` when it holds none.
   * The result is a prefix of `s`, holds no `sep`, and stops either at the end of `s`
   * or just before a `sep`.
   */
  function BeforeFirst(s: string, sep: char): (r: string)
    ensures r <= s
    ensures sep !in r
    ensures |r| < |s| ==> s[|r|] == sep
  {
    if s == [] || s[0] == sep then [] else [s[0]] + BeforeFirst(s[1..], sep)
  }

  /** Any prefix with the three properties above is the one `BeforeFirst` computes. */
  lemma BeforeFirstUnique(s: string, sep: char, p: string)
    requires p <= s && sep !in p
    requires |p| < |s| ==> s[|p|] == sep
    ensures BeforeFirst(s, sep) == p
  {
  }

  /** An ISO date `yyyy-mm-dd` (or any text) split at `-` gives back what preceded the first `-`. */
  lemma BeforeFirstOfJoined(head: string, sep: char, tail: string)
    requires sep !in head
    ensures BeforeFirst(head + [sep] + tail, sep) == head
  {
    var s := head + [sep] + tail;
    assert head <= s;
    assert s[|head|] == sep;
    BeforeFirstUnique(s, sep, head);
  }

  /**
   * One step of `str.title`: a letter is capitalised when the character before it is
   * not cased and made small when it is; any other character is left alone.
   */
  function TitleChar(previousCased: bool, c: char): char
  {
    if !IsAsciiLetter(c) then c else if previousCased then LowerChar(c) else UpperChar(c)
  }

  function TitleFrom(previousCased: bool, s: string): (r: string)
    decreases s
    ensures |r| == |s|
    ensures |s| > 0 ==> r[0] == TitleChar(previousCased, s[0])
    ensures forall i :: 0 < i < |s| ==> r[i] == TitleChar(IsAsciiLetter(s[i - 1]), s[i])
  {
    if s == [] then [] else [TitleChar(previousCased, s[0])] + TitleFrom(IsAsciiLetter(s[0]), s[1..])
  }

  /**
   * `s.title()`: each run of letters starts with a capital and continues in small
   * letters; the start of the text counts as following an uncased character.
   */
  function TitleCase(s: string): (r: string)
    ensures |r| == |s|
    ensures forall i :: 0 <= i < |s| ==> r[i] == TitleChar(i > 0 && IsAsciiLetter(s[i - 1]), s[i])
  {
    TitleFrom(false, s)
  }

  lemma TitleCharKeepsLetters(previousCased: bool, c: char)
    ensures IsAsciiLetter(TitleChar(previousCased, c)) == IsAsciiLetter(c)
    ensures TitleChar(previousCased, TitleChar(previousCased, c)) == TitleChar(previousCased, c)
  {
  }

  /** Title-casing an already title-cased text changes nothing. */
  lemma TitleCaseIdempotent(s: string)
    ensures TitleCase(TitleCase(s)) == TitleCase(s)
  {
    var t := TitleCase(s);
    forall i | 0 <= i < |s|
      ensures TitleCase(t)[i] == t[i]
    {
      TitleCharKeepsLetters(i > 0 && IsAsciiLetter(s[i - 1]), s[i]);
      if i > 0 {
        TitleCharKeepsLetters(i > 1 && IsAsciiLetter(s[i - 2]), s[i - 1]);
      }
    }
  }
}
