/**
 * `Simple.Extensions.StringExtensions`: null/empty/whitespace tests and
 * the character-class tests and removals. A `Regex.Replace` of the
 * one-class pattern `[...]+` by "" and a `Regex.Match` of it are modelled
 * by their effect on runs of characters of that class.
 */
module StringExtensions {
  import opened Wrappers
  import opened DotNet
  import opened Sequences

  /**
   * The class `[~`!@#$%^&*()\-_+={}[\]|\\/:,<>;.?'"]`: the 32 ASCII
   * punctuation characters the library calls special.
   */
  function IsSpecialCharacter(c: char): (b: bool)
    ensures b ==> '!' <= c <= '~' && !IsWhiteSpaceChar(c)
    ensures b ==> !('a' <= c <= 'z' || 'A' <= c <= 'Z' || '0' <= c <= '9')
  {
    c == '~' || c == '`' || c == '!' || c == '@' || c == '#' || c == '$' || c == '%' || c == '^' ||
    c == '&' || c == '*' || c == '(' || c == ')' || c == '-' || c == '_' || c == '+' || c == '=' ||
    c == '{' || c == '}' || c == '[' || c == ']' || c == '|' || c == '\\' || c == '/' || c == ':' ||
    c == ',' || c == '<' || c == '>' || c == ';' || c == '.' || c == '?' || c == '\'' || c == '"'
  }

  /** The same class with `\s` added. */
  predicate IsSpecialCharacterOrWhiteSpace(c: char) {
    IsSpecialCharacter(c) || IsWhiteSpaceChar(c)
  }

  predicate NotSpecialCharacter(c: char) { !IsSpecialCharacter(c) }
  predicate NotWhiteSpace(c: char) { !IsWhiteSpaceChar(c) }
  predicate NotSpecialCharacterOrWhiteSpace(c: char) { !IsSpecialCharacterOrWhiteSpace(c) }

  /**
   * `Regex.Replace(s, "[cls]+", replacement)`: every maximal run of
   * characters in the class is replaced, scanning left to right.
   */
  function ReplaceRuns(s: string, cls: char -> bool, replacement: string): (r: string)
    ensures !MatchesRun(s, cls) ==> r == s
    ensures replacement == "" ==> |r| <= |s| && forall i :: 0 <= i < |r| ==> !cls(r[i])
    decreases |s|
  {
    if s == [] then ""
    else if cls(s[0]) then replacement + ReplaceRuns(s[LeadingCount(s, cls)..], cls, replacement)
    else [s[0]] + ReplaceRuns(s[1..], cls, replacement)
  }

  /** `Regex.Match(s, "[cls]+").Success`: some character of `s` is in the class. */
  function MatchesRun(s: string, cls: char -> bool): (b: bool)
    ensures b <==> exists i :: 0 <= i < |s| && LeadingCount(s[i..], cls) >= 1
  {
    var b := exists i :: 0 <= i < |s| && cls(s[i]);
    forall i | 0 <= i < |s|
      ensures LeadingCount(s[i..], cls) >= 1 <==> cls(s[i])
    {
      assert s[i..][0] == s[i];
    }
    b
  }

  /** Replacing the runs of a class by "" keeps exactly the other characters, in order. */
  lemma {:induction false} ReplaceRunsByEmptyIsFilter(s: string, cls: char -> bool, keep: char -> bool)
    requires forall c :: keep(c) == !cls(c)
    ensures ReplaceRuns(s, cls, "") == Filter(s, keep)
    decreases |s|
  {
    if s != [] {
      if cls(s[0]) {
        var n := LeadingCount(s, cls);
        ReplaceRunsByEmptyIsFilter(s[n..], cls, keep);
        assert s == s[..n] + s[n..];
        FilterConcat(s[..n], s[n..], keep);
        FilterEmptyIffNoneKept(s[..n], keep);
      } else {
        ReplaceRunsByEmptyIsFilter(s[1..], cls, keep);
      }
    }
  }

  /** `IsEmpty`: true for "" only, false for null. */
  function IsEmpty(str: Option<string>): (b: bool)
    ensures b <==> str.Some? && |str.value| == 0
  {
    str == Some("")
  }

  /** `IsNull`: true for null only. */
  function IsNull(str: Option<string>): (b: bool)
    ensures b <==> !str.Some?
  {
    str == None
  }

  /** The specification of `IsWhiteSpace`: a non-empty string of whitespace characters. */
  predicate WhiteSpaceOnly(str: Option<string>) {
    str.Some? && str.value != "" && IsBlank(str.value)
  }

  /** `IsWhiteSpace`: false for null and "", then a scan that stops at the first non-whitespace character. */
  method IsWhiteSpace(str: Option<string>) returns (b: bool)
    ensures b <==> str.Some? && |str.value| > 0 && forall i :: 0 <= i < |str.value| ==> IsWhiteSpaceChar(str.value[i])
    ensures b == WhiteSpaceOnly(str)
  {
    if str.None? || str.value == "" {
      return false;
    }
    var s := str.value;
    for i := 0 to |s|
      invariant forall j :: 0 <= j < i ==> IsWhiteSpaceChar(s[j])
    {
      if !IsWhiteSpaceChar(s[i]) {
        return false;
      }
    }
    return true;
  }

  /** `HasValue`: not null and some character is not whitespace. */
  function HasValue(str: Option<string>): (b: bool)
    ensures b <==> str.Some? && exists i :: 0 <= i < |str.value| && !IsWhiteSpaceChar(str.value[i])
  {
    !IsNullOrWhiteSpace(str)
  }

  /** `HasSpecialCharacters`: false on null; otherwise whether a special character occurs. */
  function HasSpecialCharacters(str: Option<string>): (b: bool)
    ensures b <==> str.Some? && exists i :: 0 <= i < |str.value| && IsSpecialCharacter(str.value[i])
    ensures b <==> str.Some? && RemoveSpecialCharacters(str) != str
  {
    if str.None? then false
    else
      FilterUnchanged(str.value, NotSpecialCharacter);
      MatchesRun(str.value, IsSpecialCharacter)
  }

  /** `HasSpaces`: false on null; otherwise whether a whitespace character occurs. */
  function HasSpaces(str: Option<string>): (b: bool)
    ensures b <==> str.Some? && exists i :: 0 <= i < |str.value| && IsWhiteSpaceChar(str.value[i])
    ensures b <==> str.Some? && RemoveSpaces(str) != str
  {
    if str.None? then false
    else
      FilterUnchanged(str.value, NotWhiteSpace);
      MatchesRun(str.value, IsWhiteSpaceChar)
  }

  /** `HasSpecialCharactersOrSpaces`: false on null; otherwise whether a character of either class occurs. */
  function HasSpecialCharactersOrSpaces(str: Option<string>): (b: bool)
    ensures b <==> HasSpecialCharacters(str) || HasSpaces(str)
    ensures b <==> str.Some? && RemoveSpecialCharactersAndSpaces(str) != str
  {
    if str.None? then false
    else
      FilterUnchanged(str.value, NotSpecialCharacterOrWhiteSpace);
      MatchesRun(str.value, IsSpecialCharacterOrWhiteSpace)
  }

  /** `RemoveSpecialCharacters`: null stays null; otherwise exactly the special characters are deleted. */
  function RemoveSpecialCharacters(str: Option<string>): (r: Option<string>)
    ensures r.None? <==> str.None?
    ensures r.Some? ==> r.value == Filter(str.value, NotSpecialCharacter)
  {
    if str.None? then None
    else
      ReplaceRunsByEmptyIsFilter(str.value, IsSpecialCharacter, NotSpecialCharacter);
      Some(ReplaceRuns(str.value, IsSpecialCharacter, ""))
  }

  /** `RemoveSpaces`: null stays null; otherwise exactly the whitespace characters are deleted. */
  function RemoveSpaces(str: Option<string>): (r: Option<string>)
    ensures r.None? <==> str.None?
    ensures r.Some? ==> r.value == Filter(str.value, NotWhiteSpace)
  {
    if str.None? then None
    else
      ReplaceRunsByEmptyIsFilter(str.value, IsWhiteSpaceChar, NotWhiteSpace);
      Some(ReplaceRuns(str.value, IsWhiteSpaceChar, ""))
  }

  /** `RemoveSpecialCharactersAndSpaces`: null stays null; otherwise both classes are deleted. */
  function RemoveSpecialCharactersAndSpaces(str: Option<string>): (r: Option<string>)
    ensures r.None? <==> str.None?
    ensures r.Some? ==> r.value == Filter(str.value, NotSpecialCharacterOrWhiteSpace)
  {
    if str.None? then None
    else
      ReplaceRunsByEmptyIsFilter(str.value, IsSpecialCharacterOrWhiteSpace, NotSpecialCharacterOrWhiteSpace);
      Some(ReplaceRuns(str.value, IsSpecialCharacterOrWhiteSpace, ""))
  }

  /** Exactly one of null, empty, whitespace-only and has-a-value describes any string. */
  lemma Classification(str: Option<string>)
    ensures HasValue(str) <==> !(IsNull(str) || IsEmpty(str) || WhiteSpaceOnly(str))
    ensures IsNull(str) ==> !IsEmpty(str) && !WhiteSpaceOnly(str)
    ensures IsEmpty(str) ==> !WhiteSpaceOnly(str)
  {
  }

  /** Each removal leaves none of its class behind, never lengthens, and is idempotent. */
  lemma RemovalsClearTheirClass(str: Option<string>)
    requires str.Some?
    ensures var r := RemoveSpecialCharacters(str).value;
      |r| <= |str.value| && !MatchesRun(r, IsSpecialCharacter) && RemoveSpecialCharacters(Some(r)) == Some(r)
    ensures var r := RemoveSpaces(str).value;
      |r| <= |str.value| && !MatchesRun(r, IsWhiteSpaceChar) && RemoveSpaces(Some(r)) == Some(r)
    ensures var r := RemoveSpecialCharactersAndSpaces(str).value;
      |r| <= |str.value| && !MatchesRun(r, IsSpecialCharacterOrWhiteSpace) &&
      RemoveSpecialCharactersAndSpaces(Some(r)) == Some(r)
  {
    FilterIdempotent(str.value, NotSpecialCharacter);
    FilterIdempotent(str.value, NotWhiteSpace);
    FilterIdempotent(str.value, NotSpecialCharacterOrWhiteSpace);
  }

  /** Removing both classes at once is removing one class after the other, in either order. */
  lemma RemoveBothIsRemoveEach(str: Option<string>)
    ensures RemoveSpecialCharactersAndSpaces(str) == RemoveSpaces(RemoveSpecialCharacters(str))
    ensures RemoveSpecialCharactersAndSpaces(str) == RemoveSpecialCharacters(RemoveSpaces(str))
  {
    if str.Some? {
      FilterFilter(str.value, NotSpecialCharacter, NotWhiteSpace, NotSpecialCharacterOrWhiteSpace);
      FilterFilter(str.value, NotWhiteSpace, NotSpecialCharacter, NotSpecialCharacterOrWhiteSpace);
    }
  }

  /** A removal keeps a character exactly when it occurs in the input outside the class. */
  lemma RemovalKeepsOthers(str: Option<string>, c: char)
    requires str.Some?
    ensures c in RemoveSpecialCharacters(str).value <==> c in str.value && !IsSpecialCharacter(c)
    ensures c in RemoveSpaces(str).value <==> c in str.value && !IsWhiteSpaceChar(c)
    ensures c in RemoveSpecialCharactersAndSpaces(str).value <==> c in str.value && !IsSpecialCharacterOrWhiteSpace(c)
  {
    FilterMembers(str.value, NotSpecialCharacter, c);
    FilterMembers(str.value, NotWhiteSpace, c);
    FilterMembers(str.value, NotSpecialCharacterOrWhiteSpace, c);
  }

  /** The null, empty and whitespace cases of the tests for the four predicates. */
  lemma PredicateScenarios(space: string, abc: string)
    requires space == " " && abc == "abc"
    ensures IsEmpty(Some("")) && !IsEmpty(None) && !IsEmpty(Some(space)) && !IsEmpty(Some(abc))
    ensures IsNull(None) && !IsNull(Some("")) && !IsNull(Some(space)) && !IsNull(Some(abc))
    ensures WhiteSpaceOnly(Some(space)) && WhiteSpaceOnly(Some(space + space))
    ensures !WhiteSpaceOnly(None) && !WhiteSpaceOnly(Some("")) && !WhiteSpaceOnly(Some(abc))
    ensures HasValue(Some(abc)) && !HasValue(None) && !HasValue(Some("")) && !HasValue(Some(space + space))
  {
    assert !IsWhiteSpaceChar(abc[0]);
    assert forall i :: 0 <= i < |space + space| ==> (space + space)[i] == ' ';
  }

  /**
   * A run of class characters between two class-free words is dropped
   * and the words are joined (`"abc-efg"` becomes `"abcefg"`,
   * `"abc efg"` loses its space only in the space-removing variants).
   */
  lemma {:induction false} RemovalJoinsWords(x: string, sep: string, y: string, keep: char -> bool)
    requires forall i :: 0 <= i < |x| ==> keep(x[i])
    requires forall i :: 0 <= i < |y| ==> keep(y[i])
    requires forall i :: 0 <= i < |sep| ==> !keep(sep[i])
    ensures Filter(x + sep + y, keep) == x + y
  {
    FilterConcat(x + sep, y, keep);
    FilterConcat(x, sep, keep);
    FilterUnchanged(x, keep);
    FilterUnchanged(y, keep);
    FilterEmptyIffNoneKept(sep, keep);
  }

  lemma RemoveSpecialCharactersJoinsWords(x: string, sep: string, y: string)
    requires !MatchesRun(x, IsSpecialCharacter) && !MatchesRun(y, IsSpecialCharacter)
    requires forall i :: 0 <= i < |sep| ==> IsSpecialCharacter(sep[i])
    ensures RemoveSpecialCharacters(Some(x + sep + y)) == Some(x + y)
  {
    RemovalJoinsWords(x, sep, y, NotSpecialCharacter);
  }

  lemma RemoveSpacesJoinsWords(x: string, sep: string, y: string)
    requires !MatchesRun(x, IsWhiteSpaceChar) && !MatchesRun(y, IsWhiteSpaceChar)
    requires forall i :: 0 <= i < |sep| ==> IsWhiteSpaceChar(sep[i])
    ensures RemoveSpaces(Some(x + sep + y)) == Some(x + y)
  {
    RemovalJoinsWords(x, sep, y, NotWhiteSpace);
  }

  lemma RemoveSpecialCharactersAndSpacesJoinsWords(x: string, sep: string, y: string)
    requires !MatchesRun(x, IsSpecialCharacterOrWhiteSpace) && !MatchesRun(y, IsSpecialCharacterOrWhiteSpace)
    requires forall i :: 0 <= i < |sep| ==> IsSpecialCharacterOrWhiteSpace(sep[i])
    ensures RemoveSpecialCharactersAndSpaces(Some(x + sep + y)) == Some(x + y)
  {
    RemovalJoinsWords(x, sep, y, NotSpecialCharacterOrWhiteSpace);
  }

  /** A removal yields "" exactly when every character is in its class. */
  lemma RemovalEmptiesIffAllInClass(str: Option<string>)
    requires str.Some?
    ensures RemoveSpecialCharacters(str) == Some("") <==> forall i :: 0 <= i < |str.value| ==> IsSpecialCharacter(str.value[i])
    ensures RemoveSpaces(str) == Some("") <==> IsBlank(str.value)
    ensures RemoveSpecialCharactersAndSpaces(str) == Some("") <==>
      forall i :: 0 <= i < |str.value| ==> IsSpecialCharacterOrWhiteSpace(str.value[i])
  {
    FilterEmptyIffNoneKept(str.value, NotSpecialCharacter);
    FilterEmptyIffNoneKept(str.value, NotWhiteSpace);
    FilterEmptyIffNoneKept(str.value, NotSpecialCharacterOrWhiteSpace);
  }

  /** Every character of the tests' 32-character alphabet is special, so it is removed entirely. */
  lemma AlphabetScenario(s: string)
    requires s == "~`!@#$%^&*()-_+={}[]|\\/:,<>;.?'\""
    ensures RemoveSpecialCharacters(Some(s)) == Some("")
    ensures RemoveSpecialCharactersAndSpaces(Some(s)) == Some("")
    ensures RemoveSpaces(Some(s)) == Some(s)
  {
    AlphabetIsSpecial(s);
    RemovalEmptiesIffAllInClass(Some(s));
    FilterUnchanged(s, NotWhiteSpace);
  }

  lemma AlphabetIsSpecial(s: string)
    requires s == "~`!@#$%^&*()-_+={}[]|\\/:,<>;.?'\""
    ensures forall i :: 0 <= i < |s| ==> IsSpecialCharacter(s[i]) && NotWhiteSpace(s[i])
  {
  }
}
