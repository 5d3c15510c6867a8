/**
 * The string operations the engine applies to what the player types:
 * Python's str.strip(), str.upper() and str.endswith(), over ASCII.
 */
module Text {

  /** An ASCII character that str.strip() removes: space, \t \n \v \f \r and the separators \x1c-\x1f. */
  predicate IsSpace(c: char) {
    c == ' ' || 9 <= c as int <= 13 || 28 <= c as int <= 31
  }

  /** An upper-case ASCII letter. */
  predicate IsCapital(c: char) {
    'A' <= c <= 'Z'
  }

  /** A word made only of upper-case ASCII letters, as the word library holds them. */
  predicate IsCapitalWord(w: string) {
    forall i :: 0 <= i < |w| ==> IsCapital(w[i])
  }

  /** s without its leading whitespace: a suffix of s, and everything dropped is whitespace. */
  function TrimStart(s: string): (r: string)
    ensures |r| <= |s| && r == s[|s| - |r|..]
    ensures r == [] || !IsSpace(r[0])
    ensures forall i :: 0 <= i < |s| - |r| ==> IsSpace(s[i])
  {
    if s != [] && IsSpace(s[0]) then TrimStart(s[1..]) else s
  }

  /** s without its trailing whitespace: a prefix of s, and everything dropped is whitespace. */
  function TrimEnd(s: string): (r: string)
    ensures |r| <= |s| && r == s[..|r|]
    ensures r == [] || !IsSpace(r[|r| - 1])
    ensures forall i :: |r| <= i < |s| ==> IsSpace(s[i])
  {
    if s != [] && IsSpace(s[|s| - 1]) then TrimEnd(s[..|s| - 1]) else s
  }

  /** str.strip() with no argument. */
  function Strip(s: string): string {
    TrimEnd(TrimStart(s))
  }

  /** str.upper() on one character: a-z become A-Z, everything else is kept. */
  function UpperChar(c: char): char {
    if 'a' <= c <= 'z' then (c as int - 32) as char else c
  }

  /** str.upper(). */
  function ToUpper(s: string): string {
    if s == [] then [] else [UpperChar(s[0])] + ToUpper(s[1..])
  }

  /** Upper-casing works character by character and keeps the length. */
  lemma {:induction false} ToUpperAt(s: string)
    ensures |ToUpper(s)| == |s|
    ensures forall i :: 0 <= i < |s| ==> ToUpper(s)[i] == UpperChar(s[i])
  {
    if s != [] {
      ToUpperAt(s[1..]);
    }
  }

  /** What the engine does to every typed word and seed: .strip().upper(). */
  function Normalize(s: string): string {
    ToUpper(Strip(s))
  }

  /** str.endswith(suffix). */
  predicate EndsWith(s: string, suffix: string) {
    |suffix| <= |s| && s[|s| - |suffix|..] == suffix
  }

  /** Stripping keeps a string whose two ends are not whitespace. */
  lemma {:induction false} StripKeepsTrimmed(s: string)
    requires s == [] || (!IsSpace(s[0]) && !IsSpace(s[|s| - 1]))
    ensures Strip(s) == s
  {
  }

  /** Upper-casing leaves a word of capitals as it is. */
  lemma UpperKeepsCapitalWord(w: string)
    requires IsCapitalWord(w)
    ensures ToUpper(w) == w
  {
    ToUpperAt(w);
    forall i | 0 <= i < |w|
      ensures ToUpper(w)[i] == w[i]
    {
      assert IsCapital(w[i]);
    }
  }

  /** Stripping and upper-casing both leave a word of capitals as it is. */
  lemma NormalizeKeepsCapitalWord(w: string)
    requires IsCapitalWord(w)
    ensures Normalize(w) == w
  {
    if w != [] {
      assert IsCapital(w[0]) && IsCapital(w[|w| - 1]);
    }
    StripKeepsTrimmed(w);
    UpperKeepsCapitalWord(w);
  }

  /** The normalised input is the stripped input, upper-cased character by character. */
  lemma NormalizeAt(s: string)
    ensures |Normalize(s)| == |Strip(s)|
    ensures forall i :: 0 <= i < |Strip(s)| ==> Normalize(s)[i] == UpperChar(Strip(s)[i])
  {
    ToUpperAt(Strip(s));
  }
}
