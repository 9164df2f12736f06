/**
 * The pieces of the .NET base library the core relies on: fixed-width
 * integers and the `string` operations `Trim`, `TrimEnd`, `Split`,
 * `EndsWith`, case-insensitive `Equals` and `IsNullOrWhiteSpace`.
 */
module DotNet {
  import opened Wrappers

  /** C# `int` and `long`. */
  newtype int32 = x: int | -0x8000_0000 <= x < 0x8000_0000
  newtype int64 = x: int | -0x8000_0000_0000_0000 <= x < 0x8000_0000_0000_0000

  predicate FitsInt32(x: int) { -0x8000_0000 <= x < 0x8000_0000 }

  /** `char.IsWhiteSpace` and the regex class `\s`, restricted to ASCII. */
  predicate IsWhiteSpaceChar(c: char) {
    c == ' ' || c == '\t' || c == '\n' || c == '\r' || c == '\U{000B}' || c == '\U{000C}'
  }

  /** Every character is whitespace (true of the empty string). */
  predicate IsBlank(s: string) {
    forall i :: 0 <= i < |s| ==> IsWhiteSpaceChar(s[i])
  }

  /** `string.IsNullOrWhiteSpace`: false exactly for a non-null string with a non-whitespace character. */
  function IsNullOrWhiteSpace(str: Option<string>): (b: bool)
    ensures !b <==> str.Some? && exists i :: 0 <= i < |str.value| && !IsWhiteSpaceChar(str.value[i])
    ensures str == Some("") ==> b
  {
    str.None? || IsBlank(str.value)
  }

  /** The number of leading characters of `s` in `cls`. */
  function LeadingCount(s: string, cls: char -> bool): (n: nat)
    ensures n <= |s|
    ensures forall i :: 0 <= i < n ==> cls(s[i])
    ensures n == |s| || !cls(s[n])
  {
    if s == [] || !cls(s[0]) then 0 else 1 + LeadingCount(s[1..], cls)
  }

  /** The number of trailing characters of `s` in `cls`. */
  function TrailingCount(s: string, cls: char -> bool): (n: nat)
    ensures n <= |s|
    ensures forall i :: |s| - n <= i < |s| ==> cls(s[i])
    ensures n == |s| || !cls(s[|s| - n - 1])
  {
    if s == [] || !cls(s[|s| - 1]) then 0 else 1 + TrailingCount(s[..|s| - 1], cls)
  }

  /** `TrimStart` with a set of characters: drop the leading characters in `cls`. */
  function TrimStart(s: string, cls: char -> bool): (r: string)
    ensures |r| <= |s| && r == s[|s| - |r|..]
    ensures forall i :: 0 <= i < |s| - |r| ==> cls(s[i])
    ensures |r| == 0 || !cls(r[0])
  {
    s[LeadingCount(s, cls)..]
  }

  /** `TrimEnd` with a set of characters: drop the trailing characters in `cls`. */
  function TrimEnd(s: string, cls: char -> bool): (r: string)
    ensures |r| <= |s| && r == s[..|r|]
    ensures forall i :: |r| <= i < |s| ==> cls(s[i])
    ensures |r| == 0 || !cls(r[|r| - 1])
  {
    s[..|s| - TrailingCount(s, cls)]
  }

  /** `string.Trim()`: drop leading and trailing whitespace. */
  function Trim(s: string): (r: string)
    ensures |r| == 0 <==> IsBlank(s)
    ensures |r| == 0 || (!IsWhiteSpaceChar(r[0]) && !IsWhiteSpaceChar(r[|r| - 1]))
    ensures var a := LeadingCount(s, IsWhiteSpaceChar);
      a + |r| <= |s| && r == s[a..a + |r|] &&
      forall i :: 0 <= i < |s| && !(a <= i < a + |r|) ==> IsWhiteSpaceChar(s[i])
  {
    TrimEnd(TrimStart(s, IsWhiteSpaceChar), IsWhiteSpaceChar)
  }

  /**
   * `string.Split(sep)`: the pieces between occurrences of `sep`, empty
   * pieces included; there is always at least one piece.
   */
  function Split(s: string, sep: char): (r: seq<string>)
    ensures |r| >= 1
    ensures forall k :: 0 <= k < |r| ==> sep !in r[k]
    decreases |s|
  {
    if s == [] then [""]
    else
      var rest := Split(s[1..], sep);
      if s[0] == sep then [""] + rest
      else [[s[0]] + rest[0]] + rest[1..]
  }

  /** `string.Join(sep, pieces)`. */
  function Join(pieces: seq<string>, sep: string): (r: string)
    ensures |pieces| >= 1 ==> |pieces[0]| <= |r| && r[..|pieces[0]|] == pieces[0]
  {
    if |pieces| == 0 then ""
    else if |pieces| == 1 then pieces[0]
    else pieces[0] + sep + Join(pieces[1..], sep)
  }

  /** Ordinal `s.EndsWith(suffix)`. */
  function EndsWith(s: string, suffix: string): (b: bool)
    ensures b <==> |suffix| <= |s| && forall i :: 0 <= i < |suffix| ==> s[|s| - |suffix| + i] == suffix[i]
  {
    |suffix| <= |s| && s[|s| - |suffix|..] == suffix
  }

  /** ASCII lower-casing of one character. */
  function ToLower(c: char): char {
    if 'A' <= c <= 'Z' then (c as int + 32) as char else c
  }

  /** Case-insensitive string equality, with ASCII case folding. */
  function EqualsIgnoreCase(a: string, b: string): (r: bool)
    ensures a == b ==> r
    ensures r ==> |a| == |b|
  {
    |a| == |b| && forall i :: 0 <= i < |a| ==> ToLower(a[i]) == ToLower(b[i])
  }

  /** ASCII lower-casing of a whole string. */
  function Lower(s: string): (r: string)
    ensures |r| == |s|
  {
    seq(|s|, i requires 0 <= i < |s| => ToLower(s[i]))
  }

  /** `x` and `y` are the same character, or the two cases of one ASCII letter. */
  predicate SameLetterIgnoringCase(x: char, y: char) {
    x == y ||
    ('a' <= x <= 'z' && y as int == x as int - 32) ||
    ('A' <= x <= 'Z' && y as int == x as int + 32)
  }

  /** Case-insensitive equality is equality of the lower-cased strings. */
  lemma EqualsIgnoreCaseIffSameLower(a: string, b: string)
    ensures EqualsIgnoreCase(a, b) <==> Lower(a) == Lower(b)
  {
    if Lower(a) == Lower(b) {
      assert forall i :: 0 <= i < |a| ==> Lower(a)[i] == ToLower(a[i]) && Lower(b)[i] == ToLower(b[i]);
    }
  }

  /**
   * Two strings are equal ignoring case exactly when they have the same
   * length and, position by position, differ at most in the case of a letter.
   */
  lemma EqualsIgnoreCaseIffCaseVariants(a: string, b: string)
    ensures EqualsIgnoreCase(a, b) <==>
      |a| == |b| && forall i :: 0 <= i < |a| ==> SameLetterIgnoringCase(a[i], b[i])
  {
  }

  /** Case-insensitive equality does not depend on the order of its arguments. */
  lemma EqualsIgnoreCaseSymmetric(a: string, b: string)
    ensures EqualsIgnoreCase(a, b) == EqualsIgnoreCase(b, a)
  {
  }

  /** Joining the pieces of a split with the separator gives back the string. */
  lemma {:induction false} JoinSplit(s: string, sep: char)
    ensures Join(Split(s, sep), [sep]) == s
    decreases |s|
  {
    if s != [] {
      var rest := Split(s[1..], sep);
      JoinSplit(s[1..], sep);
      if s[0] == sep {
        assert Split(s, sep) == [""] + rest;
        assert ([""] + rest)[1..] == rest;
      } else if |rest| == 1 {
        assert Split(s, sep) == [[s[0]] + rest[0]];
      } else {
        var r := Split(s, sep);
        assert r == [[s[0]] + rest[0]] + rest[1..];
        assert r[1..] == rest[1..];
        assert Join(rest, [sep]) == rest[0] + [sep] + Join(rest[1..], [sep]);
      }
    }
  }

  /**
   * The first piece of a split is the text before the first separator:
   * a prefix of `s` free of `sep`, followed either by the end of `s` or by `sep`.
   */
  lemma {:induction false} SplitFirstPiece(s: string, sep: char)
    ensures var h := Split(s, sep)[0];
      |h| <= |s| && h == s[..|h|] && sep !in h && (|h| == |s| || s[|h|] == sep)
    decreases |s|
  {
    if s != [] && s[0] != sep {
      SplitFirstPiece(s[1..], sep);
    }
  }

  /** Appending one more piece to a non-empty join adds the separator and that piece. */
  lemma {:induction false} JoinSnoc(pieces: seq<string>, last: string, sep: string)
    requires pieces != []
    ensures Join(pieces + [last], sep) == Join(pieces, sep) + sep + last
  {
    if |pieces| > 1 {
      assert (pieces + [last])[1..] == pieces[1..] + [last];
      JoinSnoc(pieces[1..], last, sep);
    } else {
      assert pieces + [last] == [pieces[0], last];
    }
  }

  /** Trimming a string that is all whitespace leaves nothing. */
  lemma TrimBlank(s: string)
    requires IsBlank(s)
    ensures Trim(s) == ""
  {
  }

  /** A string free of the separator is a single piece. */
  lemma {:induction false} SplitWithoutSeparator(s: string, sep: char)
    requires sep !in s
    ensures Split(s, sep) == [s]
  {
    if s != [] {
      assert s[0] != sep;
      assert sep !in s[1..];
      SplitWithoutSeparator(s[1..], sep);
      assert [s[0]] + s[1..] == s;
    }
  }

  /** A string with exactly one separator, at index i, splits into the text before and after it. */
  lemma SplitInTwo(s: string, sep: char, i: nat)
    requires i < |s| && s[i] == sep && sep !in s[..i] && sep !in s[i + 1..]
    ensures Split(s, sep) == [s[..i], s[i + 1..]]
  {
    SplitAtFirst(s, sep, i);
    SplitWithoutSeparator(s[i + 1..], sep);
  }

  /** Splitting at the first separator, at index i. */
  lemma {:induction false} SplitAtFirst(s: string, sep: char, i: nat)
    requires i < |s| && s[i] == sep && sep !in s[..i]
    ensures Split(s, sep) == [s[..i]] + Split(s[i + 1..], sep)
  {
    if i > 0 {
      assert s[1..][..i - 1] == s[1..i];
      assert s[1..][i - 1..] == s[i..];
      SplitAtFirst(s[1..], sep, i - 1);
      assert s[1..][i..] == s[i + 1..];
      assert [s[0]] + s[1..i] == s[..i];
    }
  }
}
