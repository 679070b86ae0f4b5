/**
  Properties of the name helpers. `PascalChars` is a character-by-character description of
  `ToPascalCase` that does not split into words; it is proved equal to the source's
  split/capitalise/concatenate pipeline and then carries the length, separator and case
  properties.
*/
module StringExtensionsProperties {
  import opened StringExtensions

  function SeparatorCount(s: string): nat {
    if s == [] then 0 else (if IsSeparator(s[0]) then 1 else 0) + SeparatorCount(s[1..])
  }

  function UpperCount(s: string): nat {
    if s == [] then 0 else (if IsUpper(s[0]) then 1 else 0) + UpperCount(s[1..])
  }

  /** `s` without its underscores. */
  function RemoveUnderscores(s: string): string {
    if s == [] then [] else (if s[0] == '_' then [] else [s[0]]) + RemoveUnderscores(s[1..])
  }

  /**
    The reference description of PascalCase: separators vanish; a character that starts a
    word (at the start, or after a separator) is upper-cased, any other is lower-cased.
  */
  function PascalChars(s: string, wordStart: bool): string {
    if s == [] then []
    else if IsSeparator(s[0]) then PascalChars(s[1..], true)
    else [if wordStart then ToUpperChar(s[0]) else ToLowerChar(s[0])] + PascalChars(s[1..], false)
  }

  lemma LowerCharFacts(c: char)
    ensures ToLowerChar(ToLowerChar(c)) == ToLowerChar(c)
    ensures ToUpperChar(ToLowerChar(c)) == ToUpperChar(c)
  {
  }

  /** Lower-casing first changes nothing in the reference description. */
  lemma {:induction false} PascalCharsOfLower(s: string, wordStart: bool)
    ensures PascalChars(ToLower(s), wordStart) == PascalChars(s, wordStart)
  {
    if s != [] {
      LowerCharFacts(s[0]);
      assert ToLower(s)[1..] == ToLower(s[1..]);
      PascalCharsOfLower(s[1..], true);
      PascalCharsOfLower(s[1..], false);
    }
  }

  lemma AppendTail(a: string, b: string)
    requires a != []
    ensures (a + b)[0] == a[0]
    ensures (a + b)[1..] == a[1..] + b
  {
  }

  lemma AppendAssoc(a: string, b: string, c: string)
    ensures a + (b + c) == (a + b) + c
  {
  }

  lemma ToLowerTail(s: string)
    requires s != []
    ensures ToLower(s) == [ToLowerChar(s[0])] + ToLower(s[1..])
  {
  }

  /** After a word, the rest starts a word whatever the flag says. */
  lemma PascalCharsAfterWord(rest: string)
    requires rest == [] || IsSeparator(rest[0])
    ensures PascalChars(rest, false) == PascalChars(rest, true)
  {
  }

  /** Inside a run of non-separators, the reference description lower-cases. */
  lemma {:induction false} PascalCharsOfRun(run: string, rest: string)
    requires forall k :: 0 <= k < |run| ==> !IsSeparator(run[k])
    ensures PascalChars(run + rest, false) == ToLower(run) + PascalChars(rest, false)
    decreases |run|
  {
    if run == [] {
      assert run + rest == rest;
    } else {
      var tail := run[1..];
      AppendTail(run, rest);
      PascalCharsOfRun(tail, rest);
      ToLowerTail(run);
      AppendAssoc([ToLowerChar(run[0])], ToLower(tail), PascalChars(rest, false));
    }
  }

  /** A whole word at a word start: its first character upper-cased, the rest lower-cased. */
  lemma PascalCharsOfWord(w: string, rest: string)
    requires w != [] && forall k :: 0 <= k < |w| ==> !IsSeparator(w[k])
    requires rest == [] || IsSeparator(rest[0])
    ensures PascalChars(w + rest, true) == Capitalize(w) + PascalChars(rest, true)
  {
    var tail := w[1..];
    AppendTail(w, rest);
    PascalCharsOfRun(tail, rest);
    PascalCharsAfterWord(rest);
    AppendAssoc([ToUpperChar(w[0])], ToLower(tail), PascalChars(rest, true));
  }

  /** The pipeline on an input that starts with a word: that word capitalised, then the rest. */
  lemma SplitFirstWord(s: string)
    requires s != [] && !IsSeparator(s[0])
    ensures 0 < RunLength(s)
    ensures ConcatCapitalized(SplitWords(s)) ==
            Capitalize(s[..RunLength(s)]) + ConcatCapitalized(SplitWords(s[RunLength(s)..]))
  {
    var n := RunLength(s);
    var ws := SplitWords(s[n..]);
    assert SplitWords(s) == [s[..n]] + ws;
    assert ([s[..n]] + ws)[1..] == ws;
  }

  /** The split/capitalise/concatenate pipeline equals the reference description. */
  lemma {:induction false} SplitMatchesPascalChars(s: string)
    ensures ConcatCapitalized(SplitWords(s)) == PascalChars(s, true)
    decreases |s|
  {
    if s == [] {
    } else if IsSeparator(s[0]) {
      SplitMatchesPascalChars(s[1..]);
    } else {
      var n := RunLength(s);
      var w, rest := s[..n], s[n..];
      SplitFirstWord(s);
      SplitMatchesPascalChars(rest);
      assert forall k :: 0 <= k < |w| ==> w[k] == s[k];
      PascalCharsOfWord(w, rest);
      assert w + rest == s;
    }
  }

  /** `ToPascalCase` is the reference description applied to its input. */
  lemma PascalCaseByCharacters(s: string)
    ensures ToPascalCase(s) == PascalChars(s, true)
  {
    if s != [] {
      SplitMatchesPascalChars(ToLower(s));
      PascalCharsOfLower(s, true);
    }
  }

  /** `ToPascalCase` ignores the case of its input. */
  lemma PascalCaseIgnoresCase(s: string)
    ensures ToPascalCase(s) == ToPascalCase(ToLower(s))
  {
    PascalCaseByCharacters(s);
    PascalCaseByCharacters(ToLower(s));
    PascalCharsOfLower(s, true);
  }

  lemma {:induction false} PascalCharsLength(s: string, wordStart: bool)
    ensures |PascalChars(s, wordStart)| == |s| - SeparatorCount(s)
  {
    if s != [] {
      PascalCharsLength(s[1..], true);
      PascalCharsLength(s[1..], false);
    }
  }

  lemma {:induction false} PascalCharsNoSeparator(s: string, wordStart: bool)
    ensures forall c | c in PascalChars(s, wordStart) :: !IsSeparator(c)
  {
    if s != [] {
      PascalCharsNoSeparator(s[1..], true);
      PascalCharsNoSeparator(s[1..], false);
    }
  }

  /**
    The result has no separator left, is shorter than the input by exactly the number of
    separators, and is empty when the input is made of separators only.
  */
  lemma PascalCaseShape(s: string)
    ensures forall c | c in ToPascalCase(s) :: !IsSeparator(c)
    ensures |ToPascalCase(s)| == |s| - SeparatorCount(s)
    ensures SeparatorCount(s) == |s| ==> ToPascalCase(s) == ""
  {
    PascalCaseByCharacters(s);
    PascalCharsLength(s, true);
    PascalCharsNoSeparator(s, true);
  }

  lemma {:induction false} PascalCharsAt(s: string, wordStart: bool, i: nat)
    requires i < |s| && !IsSeparator(s[i])
    ensures SeparatorCount(s[..i]) <= i
    ensures i - SeparatorCount(s[..i]) < |PascalChars(s, wordStart)|
    ensures PascalChars(s, wordStart)[i - SeparatorCount(s[..i])] ==
      (if (if i == 0 then wordStart else IsSeparator(s[i - 1])) then ToUpperChar(s[i]) else ToLowerChar(s[i]))
  {
    PascalCharsLength(s, wordStart);
    SeparatorCountBound(s[..i]);
    if i > 0 {
      assert s[..i][1..] == s[1..][..i - 1];
      assert SeparatorCount(s[..i]) == (if IsSeparator(s[0]) then 1 else 0) + SeparatorCount(s[1..][..i - 1]);
      SeparatorCountBound(s[1..][..i - 1]);
      if IsSeparator(s[0]) {
        PascalCharsAt(s[1..], true, i - 1);
      } else {
        PascalCharsAt(s[1..], false, i - 1);
      }
    }
  }

  lemma {:induction false} SeparatorCountBound(s: string)
    ensures SeparatorCount(s) <= |s|
  {
    if s != [] {
      SeparatorCountBound(s[1..]);
    }
  }

  /**
    Every non-separator character of the input lands in the result, in order, after as many
    positions as there were separators before it: upper-cased when it starts a word (first
    character, or after a separator), lower-cased otherwise.
  */
  lemma PascalCaseAt(s: string, i: nat)
    requires i < |s| && !IsSeparator(s[i])
    ensures SeparatorCount(s[..i]) <= i
    ensures i - SeparatorCount(s[..i]) < |ToPascalCase(s)|
    ensures ToPascalCase(s)[i - SeparatorCount(s[..i])] ==
      (if i == 0 || IsSeparator(s[i - 1]) then ToUpperChar(s[i]) else ToLowerChar(s[i]))
  {
    PascalCaseByCharacters(s);
    PascalCharsAt(s, true, i);
  }

  /** For each character of the joined words, whether it begins a word. */
  function WordStartMarks(words: seq<string>): (m: seq<bool>)
    ensures |m| == |Join(words)|
  {
    if words == [] then [] else seq(|words[0]|, k => k == 0) + WordStartMarks(words[1..])
  }

  lemma {:induction false} SeparatorCountAppend(a: string, b: string)
    ensures SeparatorCount(a + b) == SeparatorCount(a) + SeparatorCount(b)
  {
    if a == [] {
      assert a + b == b;
    } else {
      assert (a + b)[0] == a[0];
      assert (a + b)[1..] == a[1..] + b;
      SeparatorCountAppend(a[1..], b);
    }
  }

  lemma {:induction false} SeparatorCountOfRun(t: string)
    requires forall k :: 0 <= k < |t| ==> !IsSeparator(t[k])
    ensures SeparatorCount(t) == 0
  {
    if t != [] {
      SeparatorCountOfRun(t[1..]);
    }
  }

  lemma WordStartMarksCons(w: string, rest: seq<string>, k: nat)
    requires k < |w| + |Join(rest)|
    ensures |Join([w] + rest)| == |w| + |Join(rest)|
    ensures k < |w| ==> WordStartMarks([w] + rest)[k] == (k == 0)
    ensures |w| <= k ==> WordStartMarks([w] + rest)[k] == WordStartMarks(rest)[k - |w|]
  {
    assert ([w] + rest)[1..] == rest;
  }

  /**
    The words are the maximal separator-free runs: a non-separator input character, at its
    place in the joined words (its index minus the separators before it), begins a word
    exactly when it is the first character or follows a separator.
  */
  lemma {:induction false} SplitWordsAt(s: string, i: nat)
    requires i < |s| && !IsSeparator(s[i])
    ensures SeparatorCount(s[..i]) <= i
    ensures i - SeparatorCount(s[..i]) < |WordStartMarks(SplitWords(s))|
    ensures WordStartMarks(SplitWords(s))[i - SeparatorCount(s[..i])] <==> (i == 0 || IsSeparator(s[i - 1]))
    decreases |s|, 1
  {
    SeparatorCountBound(s[..i]);
    if IsSeparator(s[0]) {
      assert s[..i][1..] == s[1..][..i - 1];
      assert SeparatorCount(s[..i]) == 1 + SeparatorCount(s[1..][..i - 1]);
      SplitWordsAt(s[1..], i - 1);
    } else {
      SplitWordsAtRun(s, i);
    }
  }

  /** `SplitWordsAt` for an input that starts with a word. */
  lemma {:induction false} SplitWordsAtRun(s: string, i: nat)
    requires i < |s| && !IsSeparator(s[i]) && !IsSeparator(s[0])
    ensures SeparatorCount(s[..i]) <= i
    ensures i - SeparatorCount(s[..i]) < |WordStartMarks(SplitWords(s))|
    ensures WordStartMarks(SplitWords(s))[i - SeparatorCount(s[..i])] <==> (i == 0 || IsSeparator(s[i - 1]))
    decreases |s|, 0
  {
    var n := RunLength(s);
    var w, rest := s[..n], SplitWords(s[n..]);
    assert SplitWords(s) == [w] + rest;
    if i < n {
      SeparatorCountOfRun(s[..i]);
      WordStartMarksCons(w, rest, i);
    } else {
      var j := i - n;
      assert s[..i] == s[..n] + s[n..][..j];
      SeparatorCountAppend(s[..n], s[n..][..j]);
      SeparatorCountOfRun(s[..n]);
      SplitWordsAt(s[n..], j);
      WordStartMarksCons(w, rest, n + j - SeparatorCount(s[n..][..j]));
      assert s[n..][j - 1] == s[i - 1];
    }
  }

  /** A word that ends the input is capitalised. */
  lemma PascalCharsOfLastWord(w: string)
    requires w != [] && forall k :: 0 <= k < |w| ==> !IsSeparator(w[k])
    ensures PascalChars(w, true) == Capitalize(w)
  {
    PascalCharsOfWord(w, "");
    assert w + "" == w;
    assert Capitalize(w) + "" == Capitalize(w);
  }

  lemma PascalCharsName()
    ensures PascalChars("name", true) == "Name"
  {
    PascalCharsOfLastWord("name");
    assert ToLower("ame") == "ame";
  }

  /** A word, one separator, and the word `name`. */
  lemma PascalCharsUserName(sep: char)
    requires IsSeparator(sep)
    ensures PascalChars("user" + [sep] + "name", true) == "UserName"
  {
    var rest := [sep] + "name";
    PascalCharsOfWord("user", rest);
    assert ToLower("ser") == "ser";
    assert PascalChars(rest, true) == PascalChars("name", true) by {
      assert rest[1..] == "name";
    }
    PascalCharsName();
    assert "user" + [sep] + "name" == "user" + rest;
  }

  /** The documented example: `user_name` gives `UserName`. */
  lemma PascalCaseUnderscoreExample()
    ensures ToPascalCase("user_name") == "UserName"
  {
    PascalCharsUserName('_');
    assert "user" + ['_'] + "name" == "user_name";
    PascalCaseByCharacters("user_name");
  }

  /** The documented example: `user-name` gives `UserName`. */
  lemma PascalCaseDashExample()
    ensures ToPascalCase("user-name") == "UserName"
  {
    PascalCharsUserName('-');
    assert "user" + ['-'] + "name" == "user-name";
    PascalCaseByCharacters("user-name");
  }

  lemma LowerSerName()
    ensures ToLower("serName") == "sername"
  {
    var r := ToLower("serName");
    assert ToLowerChar('N') == 'n';
    assert r[3] == 'n';
  }

  lemma PascalCharsHumps(s: string)
    requires s == "UserName"
    ensures PascalChars(s, true) == "Username"
  {
    assert PascalChars(s, true) == Capitalize(s) by {
      assert forall k :: 0 <= k < |s| ==> !IsSeparator(s[k]);
      PascalCharsOfLastWord(s);
    }
    assert Capitalize(s) == ['U'] + "sername" by {
      assert s[0] == 'U' && s[1..] == "serName";
      LowerSerName();
    }
    assert ['U'] + "sername" == "Username";
  }

  /** Lower-casing first makes `ToPascalCase` turn `UserName` into `Username`. */
  lemma PascalCaseLowersHumps()
    ensures ToPascalCase("UserName") == "Username"
  {
    PascalCharsHumps("UserName");
    PascalCaseByCharacters("UserName");
  }

  /** Hence `ToPascalCase` is not idempotent on multi-word output. */
  lemma PascalCaseNotIdempotent()
    ensures exists s :: ToPascalCase(ToPascalCase(s)) != ToPascalCase(s)
  {
    PascalCaseUnderscoreExample();
    PascalCaseLowersHumps();
    assert ToPascalCase(ToPascalCase("user_name")) != ToPascalCase("user_name");
  }

  lemma {:induction false} SnakeFromNoUpper(s: string, i: nat)
    requires i <= |s|
    ensures forall c | c in SnakeFrom(s, i) :: !IsUpper(c)
    decreases |s| - i
  {
    if i < |s| {
      SnakeFromNoUpper(s, i + 1);
    }
  }

  lemma {:induction false} SnakeFromLength(s: string, i: nat)
    requires 0 < i <= |s|
    ensures |SnakeFrom(s, i)| == |s| - i + UpperCount(s[i..])
    decreases |s| - i
  {
    if i < |s| {
      SnakeFromLength(s, i + 1);
      assert s[i..][1..] == s[i + 1..];
    }
  }

  /**
    `ToSnakeCase` leaves no upper-case letter, and adds exactly one character (the `_`) for
    each upper-case letter after index 0.
  */
  lemma SnakeCaseShape(s: string)
    ensures forall c | c in ToSnakeCase(s) :: !IsUpper(c)
    ensures |ToSnakeCase(s)| == |s| + (if s == [] then 0 else UpperCount(s[1..]))
  {
    if s != [] {
      SnakeFromNoUpper(s, 0);
      SnakeFromLength(s, 1);
    }
  }

  lemma {:induction false} RemoveUnderscoresAppend(a: string, b: string)
    ensures RemoveUnderscores(a + b) == RemoveUnderscores(a) + RemoveUnderscores(b)
  {
    if a != [] {
      var head := if a[0] == '_' then [] else [a[0]];
      assert (a + b)[0] == a[0];
      assert (a + b)[1..] == a[1..] + b;
      calc {
        RemoveUnderscores(a + b);
        head + RemoveUnderscores(a[1..] + b);
        { RemoveUnderscoresAppend(a[1..], b); }
        head + (RemoveUnderscores(a[1..]) + RemoveUnderscores(b));
        (head + RemoveUnderscores(a[1..])) + RemoveUnderscores(b);
      }
    } else {
      assert a + b == b;
    }
  }

  lemma {:induction false} SnakeFromRemoveUnderscores(s: string, i: nat)
    requires i <= |s|
    ensures RemoveUnderscores(SnakeFrom(s, i)) == RemoveUnderscores(ToLower(s)[i..])
    decreases |s| - i
  {
    if i < |s| {
      SnakeFromRemoveUnderscores(s, i + 1);
      RemoveUnderscoresAppend(SnakePiece(s[i], i), SnakeFrom(s, i + 1));
      assert ToLower(s)[i..] == [ToLowerChar(s[i])] + ToLower(s)[i + 1..];
      RemoveUnderscoresAppend([ToLowerChar(s[i])], ToLower(s)[i + 1..]);
      if IsUpper(s[i]) && i > 0 {
        RemoveUnderscoresAppend("_", [ToLowerChar(s[i])]);
      }
    }
  }

  /**
    Apart from the underscores, `ToSnakeCase` only lower-cases: every character of the input
    is kept, in order, at the place `SnakeCaseAt` gives, with an inserted `_` before it exactly
    when it is an upper-case letter after index 0.
  */
  lemma SnakeCaseOnlyLowersAndInserts(s: string)
    ensures RemoveUnderscores(ToSnakeCase(s)) == RemoveUnderscores(ToLower(s))
    ensures forall i | 0 <= i < |s| :: SnakePlaced(s, i)
  {
    if s != [] {
      SnakeFromRemoveUnderscores(s, 0);
      assert ToLower(s)[0..] == ToLower(s);
    }
    forall i | 0 <= i < |s|
      ensures SnakePlaced(s, i)
    {
      SnakeCaseAt(s, i);
    }
  }

  lemma UpperCountOne(c: char)
    ensures UpperCount([c]) == if IsUpper(c) then 1 else 0
  {
    assert [c][1..] == [];
  }

  /** After index 0, a character's piece is its `_` if it is upper-case, then the character lower-cased. */
  lemma SnakeFromStep(s: string, j: nat)
    requires 1 <= j < |s|
    ensures SnakeFrom(s, j) == (if IsUpper(s[j]) then "_" else "") + [ToLowerChar(s[j])] + SnakeFrom(s, j + 1)
  {
  }

  /** The length of a character's piece after index 0. */
  function PieceLength(c: char): nat {
    if IsUpper(c) then 2 else 1
  }

  lemma SnakeFromHead(s: string, j: nat)
    requires 1 <= j < |s|
    ensures PieceLength(s[j]) <= |SnakeFrom(s, j)|
    ensures SnakeFrom(s, j)[PieceLength(s[j]) - 1] == ToLowerChar(s[j])
    ensures IsUpper(s[j]) ==> SnakeFrom(s, j)[0] == '_'
  {
    SnakeFromStep(s, j);
  }

  lemma SnakeFromShift(s: string, j: nat, k: nat)
    requires 1 <= j < |s|
    requires PieceLength(s[j]) <= k < |SnakeFrom(s, j)|
    ensures k - PieceLength(s[j]) < |SnakeFrom(s, j + 1)|
    ensures SnakeFrom(s, j)[k] == SnakeFrom(s, j + 1)[k - PieceLength(s[j])]
  {
    SnakeFromStep(s, j);
  }

  lemma SnakeFromLengthBound(s: string, j: nat)
    requires 1 <= j < |s|
    ensures |SnakeFrom(s, j)| == PieceLength(s[j]) + |SnakeFrom(s, j + 1)|
  {
    SnakeFromStep(s, j);
  }

  lemma {:induction false} UpperCountAppend(a: string, b: string)
    ensures UpperCount(a + b) == UpperCount(a) + UpperCount(b)
  {
    if a == [] {
      assert a + b == b;
    } else {
      assert (a + b)[0] == a[0];
      assert (a + b)[1..] == a[1..] + b;
      UpperCountAppend(a[1..], b);
    }
  }

  /** Where, within `SnakeFrom(s, j)` for `j > 0`, the piece of character `i` starts. */
  function PieceStart(s: string, j: nat, i: nat): nat
    requires 1 <= j <= i < |s|
  {
    (i - j) + UpperCount(s[j..i])
  }

  lemma PieceStartStep(s: string, j: nat, i: nat)
    requires 1 <= j < i < |s|
    ensures PieceStart(s, j, i) == PieceLength(s[j]) + PieceStart(s, j + 1, i)
  {
    assert s[j..i][0] == s[j];
    assert s[j..i][1..] == s[j + 1..i];
  }

  /** The piece of character `i` lies inside `SnakeFrom(s, j)`: its `_` if any, then the letter. */
  lemma {:induction false} SnakeFromPiece(s: string, j: nat, i: nat)
    requires 1 <= j <= i < |s|
    ensures PieceStart(s, j, i) + PieceLength(s[i]) <= |SnakeFrom(s, j)|
    ensures SnakeFrom(s, j)[PieceStart(s, j, i) + PieceLength(s[i]) - 1] == ToLowerChar(s[i])
    ensures IsUpper(s[i]) ==> SnakeFrom(s, j)[PieceStart(s, j, i)] == '_'
    decreases i - j
  {
    if j == i {
      assert s[j..i] == [];
      assert PieceStart(s, j, i) == 0;
      SnakeFromHead(s, j);
    } else {
      var r, t := SnakeFrom(s, j), SnakeFrom(s, j + 1);
      var a, k, n := PieceLength(s[j]), PieceStart(s, j + 1, i), PieceLength(s[i]);
      PieceStartStep(s, j, i);
      assert PieceStart(s, j, i) == a + k;
      SnakeFromPiece(s, j + 1, i);
      assert k + n <= |t| && t[k + n - 1] == ToLowerChar(s[i]);
      SnakeFromLengthBound(s, j);
      assert |r| == a + |t|;
      SnakeFromShift(s, j, a + k + n - 1);
      assert r[a + k + n - 1] == t[k + n - 1];
      if IsUpper(s[i]) {
        assert t[k] == '_';
        SnakeFromShift(s, j, a + k);
        assert r[a + k] == '_';
      }
    }
  }


  /** The offset, within `SnakeFrom(s, j)` for `j > 0`, of character `i`. */
  function SnakeOffset(s: string, j: nat, i: nat): nat
    requires 1 <= j <= i < |s|
  {
    (i - j) + UpperCount(s[j..i + 1])
  }

  lemma SnakeOffsetIsPieceEnd(s: string, j: nat, i: nat)
    requires 1 <= j <= i < |s|
    ensures SnakeOffset(s, j, i) == PieceStart(s, j, i) + PieceLength(s[i]) - 1
  {
    assert s[j..i + 1] == s[j..i] + [s[i]];
    UpperCountAppend(s[j..i], [s[i]]);
    UpperCountOne(s[i]);
  }

  /**
    From index `j > 0` on, character `i` lands `i - j` places on, plus one place per
    upper-case letter in `s[j..i+1]`, lower-cased.
  */
  lemma SnakeFromAt(s: string, j: nat, i: nat)
    requires 1 <= j <= i < |s|
    ensures SnakeOffset(s, j, i) < |SnakeFrom(s, j)|
    ensures SnakeFrom(s, j)[SnakeOffset(s, j, i)] == ToLowerChar(s[i])
  {
    SnakeFromPiece(s, j, i);
    SnakeOffsetIsPieceEnd(s, j, i);
  }

  /** What precedes character `i`: its `_` when it is upper-case, or else the previous character. */
  lemma SnakeFromBefore(s: string, j: nat, i: nat)
    requires 1 <= j <= i < |s|
    requires IsUpper(s[i]) || j < i
    ensures 0 < SnakeOffset(s, j, i) < |SnakeFrom(s, j)|
    ensures SnakeFrom(s, j)[SnakeOffset(s, j, i) - 1] ==
            if IsUpper(s[i]) then '_' else ToLowerChar(s[i - 1])
  {
    SnakeFromAt(s, j, i);
    SnakeFromPiece(s, j, i);
    SnakeOffsetIsPieceEnd(s, j, i);
    if !IsUpper(s[i]) {
      SnakeFromAt(s, j, i - 1);
    }
  }

  /**
    Where `ToSnakeCase` puts character `i` of the input: lower-cased, at index `i` plus the
    number of upper-case letters in `s[1..i+1]`. The character before it is an inserted `_`
    exactly when `s[i]` is upper-case and `i > 0`, and otherwise the previous input character,
    lower-cased.
  */
  predicate SnakePlaced(s: string, i: nat)
    requires i < |s|
  {
    var r, p := ToSnakeCase(s), i + UpperCount(s[1..i + 1]);
    p < |r| && r[p] == ToLowerChar(s[i]) &&
    (0 < i ==> r[p - 1] == if IsUpper(s[i]) then '_' else ToLowerChar(s[i - 1]))
  }

  lemma SnakeCaseAt(s: string, i: nat)
    requires i < |s|
    ensures SnakePlaced(s, i)
  {
    var head := SnakePiece(s[0], 0);
    assert head == [ToLowerChar(s[0])];
    assert ToSnakeCase(s) == head + SnakeFrom(s, 1);
    if 0 < i {
      SnakeFromAt(s, 1, i);
      if IsUpper(s[i]) || 1 < i {
        SnakeFromBefore(s, 1, i);
      } else {
        UpperCountOne(s[1]);
        assert s[1..2] == [s[1]];
      }
    } else {
      assert s[1..1] == [];
    }
  }

  lemma {:induction false} SnakeFromCopies(s: string, i: nat)
    requires i <= |s|
    requires forall c | c in s :: !IsUpper(c)
    ensures SnakeFrom(s, i) == s[i..]
    decreases |s| - i
  {
    if i < |s| {
      SnakeFromCopies(s, i + 1);
      assert s[i] in s;
      assert s[i..] == [s[i]] + s[i + 1..];
    }
  }

  /** A string without upper-case letters is returned unchanged. */
  lemma SnakeCaseKeepsLowerInput(s: string)
    requires forall c | c in s :: !IsUpper(c)
    ensures ToSnakeCase(s) == s
  {
    if s != [] {
      SnakeFromCopies(s, 0);
    }
  }

  /** `ToSnakeCase` is idempotent. */
  lemma SnakeCaseIdempotent(s: string)
    ensures ToSnakeCase(ToSnakeCase(s)) == ToSnakeCase(s)
  {
    SnakeCaseShape(s);
    SnakeCaseKeepsLowerInput(ToSnakeCase(s));
  }

  /** A run without upper-case letters is copied by `SnakeFrom`. */
  lemma {:induction false} SnakeFromCopiesRun(s: string, i: nat, j: nat)
    requires i <= j <= |s|
    requires forall k :: i <= k < j ==> !IsUpper(s[k])
    ensures SnakeFrom(s, i) == s[i..j] + SnakeFrom(s, j)
    decreases j - i
  {
    if i == j {
      assert s[i..j] + SnakeFrom(s, j) == SnakeFrom(s, j);
    } else {
      SnakeFromCopiesRun(s, i + 1, j);
      assert SnakePiece(s[i], i) == [s[i]];
      assert SnakeFrom(s, i) == [s[i]] + SnakeFrom(s, i + 1);
      assert s[i..j] == [s[i]] + s[i + 1..j];
      AppendAssoc([s[i]], s[i + 1..j], SnakeFrom(s, j));
    }
  }

  lemma SnakeFromUser()
    ensures SnakeFrom("UserName", 0) == "user" + SnakeFrom("UserName", 4)
  {
    var s := "UserName";
    SnakeFromCopiesRun(s, 1, 4);
    assert s[1..4] == "ser";
    assert SnakePiece(s[0], 0) == "u";
  }

  lemma SnakeFromName()
    ensures SnakeFrom("UserName", 4) == "_name"
  {
    var s := "UserName";
    SnakeFromCopiesRun(s, 5, 8);
    assert s[5..8] == "ame";
    assert SnakePiece(s[4], 4) == "_n";
    assert SnakeFrom(s, 8) == "";
  }

  /** The documented example: `UserName` gives `user_name`. */
  lemma SnakeCaseExample()
    ensures ToSnakeCase("UserName") == "user_name"
  {
    SnakeFromUser();
    SnakeFromName();
  }

  /** `UserName` survives the trip through `ToSnakeCase` and back through `ToPascalCase`. */
  lemma SnakeThenPascalRoundTrip()
    ensures ToPascalCase(ToSnakeCase("UserName")) == "UserName"
  {
    SnakeCaseExample();
    PascalCaseUnderscoreExample();
  }
}
