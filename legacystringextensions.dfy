/**
 * The older `Simple.Extensions.StringExtensions` at the package root: the
 * same null/empty/whitespace predicates and the three removals, without
 * the `Has*` tests. Each member has the behaviour of its namesake in
 * `StringExtensions`; the contracts here state it directly.
 */
module LegacyStringExtensions {
  import opened Wrappers
  import opened DotNet
  import opened Sequences
  import SE = StringExtensions

  /** `IsEmpty`: `str == string.Empty`. */
  function IsEmpty(str: Option<string>): (b: bool)
    ensures b <==> str.Some? && |str.value| == 0
  {
    SE.IsEmpty(str)
  }

  /** `IsNull`: `str == default`. */
  function IsNull(str: Option<string>): (b: bool)
    ensures b <==> !str.Some?
  {
    SE.IsNull(str)
  }

  /** `IsWhiteSpace`: the same early-exit scan as the newer copy. */
  method IsWhiteSpace(str: Option<string>) returns (b: bool)
    ensures b <==> str.Some? && |str.value| > 0 && forall i :: 0 <= i < |str.value| ==> IsWhiteSpaceChar(str.value[i])
  {
    if str.None? || str.value == "" {
      return false;
    }
    var s := str.value;
    var i := 0;
    while i < |s|
      invariant 0 <= i <= |s|
      invariant forall j :: 0 <= j < i ==> IsWhiteSpaceChar(s[j])
    {
      if !IsWhiteSpaceChar(s[i]) {
        return false;
      }
      i := i + 1;
    }
    return true;
  }

  /** `HasValue`: `string.IsNullOrWhiteSpace(str) is false`. */
  function HasValue(str: Option<string>): (b: bool)
    ensures b <==> str.Some? && exists i :: 0 <= i < |str.value| && !IsWhiteSpaceChar(str.value[i])
  {
    SE.HasValue(str)
  }

  /** `RemoveSpecialCharacters`: null to null, otherwise the non-special characters in order. */
  function RemoveSpecialCharacters(str: Option<string>): (r: Option<string>)
    ensures str.None? ==> r.None?
    ensures r == SE.RemoveSpecialCharacters(str)
    ensures str.Some? ==> r.Some? && IsSubsequence(r.value, str.value)
    ensures str.Some? ==> forall i :: 0 <= i < |r.value| ==> !SE.IsSpecialCharacter(r.value[i])
    ensures str.Some? ==> forall c :: c in str.value && !SE.IsSpecialCharacter(c) ==> c in r.value
  {
    if str.Some? then
      FilterIsSubsequence(str.value, SE.NotSpecialCharacter);
      assert forall c :: c in str.value && !SE.IsSpecialCharacter(c) ==> c in SE.RemoveSpecialCharacters(str).value by {
        forall c | c in str.value && !SE.IsSpecialCharacter(c) {
          SE.RemovalKeepsOthers(str, c);
        }
      }
      SE.RemoveSpecialCharacters(str)
    else None
  }

  /** `RemoveSpecialCharactersAndSpaces`: null to null, otherwise neither class survives. */
  function RemoveSpecialCharactersAndSpaces(str: Option<string>): (r: Option<string>)
    ensures str.None? ==> r.None?
    ensures r == SE.RemoveSpecialCharactersAndSpaces(str)
    ensures str.Some? ==> r.Some? && IsSubsequence(r.value, str.value)
    ensures str.Some? ==> forall i :: 0 <= i < |r.value| ==> !SE.IsSpecialCharacter(r.value[i]) && !IsWhiteSpaceChar(r.value[i])
    ensures str.Some? ==> forall c :: c in str.value && !SE.IsSpecialCharacter(c) && !IsWhiteSpaceChar(c) ==> c in r.value
  {
    if str.Some? then
      FilterIsSubsequence(str.value, SE.NotSpecialCharacterOrWhiteSpace);
      assert forall c :: c in str.value && !SE.IsSpecialCharacterOrWhiteSpace(c) ==> c in SE.RemoveSpecialCharactersAndSpaces(str).value by {
        forall c | c in str.value && !SE.IsSpecialCharacterOrWhiteSpace(c) {
          SE.RemovalKeepsOthers(str, c);
        }
      }
      SE.RemoveSpecialCharactersAndSpaces(str)
    else None
  }

  /** `RemoveSpaces`: null to null, otherwise the non-whitespace characters in order. */
  function RemoveSpaces(str: Option<string>): (r: Option<string>)
    ensures str.None? ==> r.None?
    ensures r == SE.RemoveSpaces(str)
    ensures str.Some? ==> r.Some? && IsSubsequence(r.value, str.value)
    ensures str.Some? ==> forall i :: 0 <= i < |r.value| ==> !IsWhiteSpaceChar(r.value[i])
    ensures str.Some? ==> forall c :: c in str.value && !IsWhiteSpaceChar(c) ==> c in r.value
  {
    if str.Some? then
      FilterIsSubsequence(str.value, SE.NotWhiteSpace);
      assert forall c :: c in str.value && !IsWhiteSpaceChar(c) ==> c in SE.RemoveSpaces(str).value by {
        forall c | c in str.value && !IsWhiteSpaceChar(c) {
          SE.RemovalKeepsOthers(str, c);
        }
      }
      SE.RemoveSpaces(str)
    else None
  }
}
