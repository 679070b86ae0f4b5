/**
  The name helpers `ToPascalCase` and `ToSnakeCase`. Both copies of the repository hold the
  same code, so they are modelled once. Casing is modelled over ASCII letters: every other
  character is left unchanged by upper- and lower-casing.
*/
module StringExtensions {

  predicate IsSeparator(c: char) {
    c == '_' || c == '-' || c == ' '
  }

  predicate IsUpper(c: char) {
    'A' <= c <= 'Z'
  }

  predicate IsLower(c: char) {
    'a' <= c <= 'z'
  }

  function ToLowerChar(c: char): (r: char)
    ensures !IsUpper(r)
    ensures IsSeparator(r) <==> IsSeparator(c)
    ensures !IsUpper(c) ==> r == c
  {
    if IsUpper(c) then (c as int - 'A' as int + 'a' as int) as char else c
  }

  function ToUpperChar(c: char): (r: char)
    ensures !IsLower(r)
    ensures IsSeparator(r) <==> IsSeparator(c)
    ensures !IsLower(c) ==> r == c
  {
    if IsLower(c) then (c as int - 'a' as int + 'A' as int) as char else c
  }

  /** `ToLower` / `ToLowerInvariant` over ASCII: each character lower-cased in place. */
  function ToLower(s: string): (r: string)
    ensures |r| == |s|
    ensures forall i :: 0 <= i < |s| ==> r[i] == ToLowerChar(s[i])
  {
    seq(|s|, i requires 0 <= i < |s| => ToLowerChar(s[i]))
  }

  /** Length of the leading run of non-separator characters. */
  function RunLength(s: string): (n: nat)
    ensures n <= |s|
    ensures forall k :: 0 <= k < n ==> !IsSeparator(s[k])
    ensures n < |s| ==> IsSeparator(s[n])
  {
    if s == [] || IsSeparator(s[0]) then 0 else 1 + RunLength(s[1..])
  }

  /** The words written one after the other. */
  function Join(words: seq<string>): string {
    if words == [] then "" else words[0] + Join(words[1..])
  }

  /** `s` with every `_`, `-` and space removed. */
  function WithoutSeparators(s: string): string {
    if s == [] then ""
    else (if IsSeparator(s[0]) then "" else [s[0]]) + WithoutSeparators(s[1..])
  }

  lemma {:induction false} WithoutSeparatorsOfRun(s: string, n: nat)
    requires n <= |s|
    requires forall k :: 0 <= k < n ==> !IsSeparator(s[k])
    ensures WithoutSeparators(s) == s[..n] + WithoutSeparators(s[n..])
    decreases n
  {
    if n == 0 {
      assert s[..0] + WithoutSeparators(s[0..]) == WithoutSeparators(s);
    } else {
      WithoutSeparatorsOfRun(s[1..], n - 1);
      assert s[1..][..n - 1] == s[1..n];
      assert s[1..][n - 1..] == s[n..];
      assert [s[0]] + s[1..n] == s[..n];
    }
  }

  /**
    `Split` on `_`, `-` and space with empty entries removed: the maximal separator-free runs.
    Every word is non-empty and free of separators, and the words joined give back the input
    without its separators; `StringExtensionsProperties.SplitWordsAt` shows where each word
    begins.
  */
  function SplitWords(s: string): (words: seq<string>)
    ensures forall i :: 0 <= i < |words| ==> words[i] != []
    ensures forall i, k :: 0 <= i < |words| && 0 <= k < |words[i]| ==> !IsSeparator(words[i][k])
    ensures Join(words) == WithoutSeparators(s)
    decreases |s|
  {
    if s == [] then []
    else if IsSeparator(s[0]) then SplitWords(s[1..])
    else
      var n := RunLength(s);
      var rest := SplitWords(s[n..]);
      WithoutSeparatorsOfRun(s, n);
      assert ([s[..n]] + rest)[1..] == rest;
      [s[..n]] + rest
  }

  /** One word of the result: its first character upper-cased, the rest lower-cased. */
  function Capitalize(word: string): string
    requires word != []
  {
    [ToUpperChar(word[0])] + ToLower(word[1..])
  }

  function ConcatCapitalized(words: seq<string>): string
    requires forall i :: 0 <= i < |words| ==> words[i] != []
  {
    if words == [] then "" else Capitalize(words[0]) + ConcatCapitalized(words[1..])
  }

  /** Lower-case the input, split it into words, capitalise each word and concatenate. */
  function ToPascalCase(input: string): string {
    if input == "" then input
    else ConcatCapitalized(SplitWords(ToLower(input)))
  }

  /** The piece one character contributes: an upper-case letter after index 0 gets `_` before it. */
  function SnakePiece(c: char, i: nat): string {
    if !IsUpper(c) then [c]
    else (if i > 0 then "_" else "") + [ToLowerChar(c)]
  }

  /** The concatenation of the pieces of `s[i..]`, each taken with its index in `s`. */
  function SnakeFrom(s: string, i: nat): string
    requires i <= |s|
    decreases |s| - i
  {
    if i == |s| then "" else SnakePiece(s[i], i) + SnakeFrom(s, i + 1)
  }

  function ToSnakeCase(input: string): string {
    if input == "" then input else SnakeFrom(input, 0)
  }
}
