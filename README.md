# Simple.Extensions in Dafny

A model of the core of the `Simple.Extensions` C# library:

- **Building an ordering clause.** `OrderQueryBuilder.CreateOrderQuery` turns a sort string such as `"name desc,id"` into a dynamic-LINQ ordering clause (`"Name descending, Id ascending"`).
- **Ordering.** The queryable `Sort` extension orders by that clause.
- **Pagination.** `ToPaginatedListAsync` paginates a record source into a `PaginatedResult<T>`, whose `PagingMetaData` says whether there are previous and next pages, how many pages and records there are, and which page this is.
- **Conditional filtering.** The queryable and enumerable `WhereIf` extensions filter only when a condition holds.
- **String predicates and removals.** `IsEmpty`, `IsNull`, `IsWhiteSpace`, `HasValue` and the `Has*`/`Remove*` family that detects and deletes special characters and whitespace.
- **The legacy copies.** The library also ships older copies of the paginator and the string extensions at the package root. These are modelled in their own modules.

How the model stands in for C#:

- A C# `null` is `Option.None`.
- A thrown `ArgumentNullException` is `Result.Failure` carrying the parameter name.
- `int` and `long` are the newtypes `int32` and `int64`.
- A record source (`IQueryable<T>`, `IEnumerable<T>`) is a finite `seq<T>`.
- The public properties of `T`, which the source obtains by reflection, are a `seq<string>` in declaration order.

Modules, one per source file:

- `OrderQueryBuilder`. `CreateOrderQuery` is an imperative method: a loop over the comma-separated pieces appends to a builder string. It is proved equal to the specification function `OrderQuery`, and the properties of the result are proved about `OrderQuery`.
  - Only the whole sort string is trimmed, never a single piece. A piece that starts with a space, as in `"name desc, id"`, therefore has the empty field name and is dropped. So `"name desc, id"` gives just `"Name descending"`, while `"name desc,id"` gives `"Name descending, Id ascending"`. The model follows the code here, although a reader of the sort-string format would expect both orderings from the spaced form as well.
- `BaseTypes`. The two DTOs, and the constructor `PaginatedResult(data, count, pageNumber, pageSize)` as the function `NewPaginatedResult`. The properties of `PaginatedResult` have private setters and are assigned once, so the result is a value.
- `QueryableExtensions`. The guarded paginator is a method. `WhereIf` (both overloads) and `Sort` are functions.
- `LegacyQueryableExtensions`. The root-level paginator. It has no null guard, so a null source fails inside `LongCount`. The model shows it produces exactly what the guarded copy produces.
- `EnumerableExtensions`. The in-memory `WhereIf`, exactly as written, together with the guarded behaviour its tests expect (see "## Findings").
- `StringExtensions` and `LegacyStringExtensions`. The newer and the root-level string extensions.
  - Each `Regex.Replace(str, "[class]+", "")` is modelled as replacing every maximal run of the class. This is proved equal to keeping exactly the characters outside the class, in order.
  - Each `Regex.Match(str, "[class]+").Success` is modelled as "some character is in the class".
- Shared modules:
  - `Sequences` holds LINQ's `Where`, `Skip` and `Take`.
  - `DotNet` holds the framework string operations the core uses (`Trim`, `TrimEnd`, `Split`, `Join`, `EndsWith`, case-insensitive equality, `string.IsNullOrWhiteSpace`).
  - `Wrappers` holds `Option` and `Result`.

## Model

| member | source | states |
|---|---|---|
| OrderQueryBuilder.CreateOrderQuery | Simple.Extensions/ExtensionHelpers/OrderQueryBuilder.cs:10-48 | the loop over the comma-separated pieces, the builder, `TrimEnd(',', ' ')` and the fallback compute exactly `OrderQuery`: the clauses of the recognised pieces in input order, or the first property ascending, or null |
| OrderQueryBuilder.ClausesSnoc | Simple.Extensions/ExtensionHelpers/OrderQueryBuilder.cs:18-35 | one loop step appends "clause, " to the builder exactly when the piece yields a clause, and leaves it unchanged otherwise |
| OrderQueryBuilder.TrimmedBuilder | Simple.Extensions/ExtensionHelpers/OrderQueryBuilder.cs:38-40 | after the loop the trimmed builder is blank exactly when no piece was recognised, and otherwise is the ", "-join of the clauses |
| OrderQueryBuilder.OrderQuery | Simple.Extensions/ExtensionHelpers/OrderQueryBuilder.cs:10-47 | the result is null exactly when the type has no public properties; when some piece is recognised, the result begins with the first requested clause |
| OrderQueryBuilder.RequestedClauses | Simple.Extensions/ExtensionHelpers/OrderQueryBuilder.cs:12-36 | at most one clause per comma-separated piece of the trimmed string, each naming a listed property and a direction, and none at all when there are no properties |
| OrderQueryBuilder.FindProperty | Simple.Extensions/ExtensionHelpers/OrderQueryBuilder.cs:25-26 | the found property equals the field name ignoring case and no earlier property does; None exactly when no property matches |
| OrderQueryBuilder.FieldName | Simple.Extensions/ExtensionHelpers/OrderQueryBuilder.cs:23 | the field name is a prefix of the piece that contains no space and is followed by a space or by the end of the piece |
| OrderQueryBuilder.Direction | Simple.Extensions/ExtensionHelpers/OrderQueryBuilder.cs:31-33 | the direction is "descending" exactly when the piece ends in " desc", " descending" or " d", and "ascending" otherwise; a descending piece always has a field name shorter than itself, so the direction suffix is never part of the field name |
| OrderQueryBuilder.Clause | Simple.Extensions/ExtensionHelpers/OrderQueryBuilder.cs:20-35 | a piece that yields a clause is not blank, and the clause is a listed property followed by " ascending" or " descending" |
| OrderQueryBuilder.Clauses | Simple.Extensions/ExtensionHelpers/OrderQueryBuilder.cs:18-36 | every appended clause is a listed property's own name followed by " ascending" or " descending" |
| OrderQueryBuilder.FirstMatchWins | Simple.Extensions/ExtensionHelpers/OrderQueryBuilder.cs:23-35 | a non-blank piece whose field name first matches property k yields that property's declared spelling, descending exactly when the piece ends in " desc", " descending" or " d" |
| OrderQueryBuilder.SkippedPiece | Simple.Extensions/ExtensionHelpers/OrderQueryBuilder.cs:20-29 | a piece contributes nothing exactly when it is blank or its field name matches no property |
| OrderQueryBuilder.PieceStartingWithSpaceIsSkipped | Simple.Extensions/ExtensionHelpers/OrderQueryBuilder.cs:23-29 | a piece that begins with a space has the empty field name and is dropped, when no property name is empty |
| OrderQueryBuilder.FieldNameUpToSpace | Simple.Extensions/ExtensionHelpers/OrderQueryBuilder.cs:23 | the field name of a piece is its text before the first space |
| OrderQueryBuilder.FieldNameWithoutSpace | Simple.Extensions/ExtensionHelpers/OrderQueryBuilder.cs:23 | a piece without a space is its own field name |
| OrderQueryBuilder.ClauseIsClauseOf | Simple.Extensions/ExtensionHelpers/OrderQueryBuilder.cs:31-35 | a recognised piece yields a listed property followed by " ascending" or " descending" |
| OrderQueryBuilder.ClausesOfOne | Simple.Extensions/ExtensionHelpers/OrderQueryBuilder.cs:18-36 | a single piece yields its clause or nothing |
| OrderQueryBuilder.ClausesConcat | Simple.Extensions/ExtensionHelpers/OrderQueryBuilder.cs:18-36 | the clauses of concatenated piece lists concatenate: input order is preserved |
| OrderQueryBuilder.ClauseEndsInG | Simple.Extensions/ExtensionHelpers/OrderQueryBuilder.cs:31-35 | every clause ends in the final letter of its direction, never in a comma or space |
| OrderQueryBuilder.JoinOfClausesEndsInG | Simple.Extensions/ExtensionHelpers/OrderQueryBuilder.cs:35-38 | a ", "-join of clauses ends in the last clause's final letter |
| OrderQueryBuilder.TerminatedIsJoin | Simple.Extensions/ExtensionHelpers/OrderQueryBuilder.cs:35 | appending "clause, " per clause gives the ", "-join plus one trailing ", " |
| OrderQueryBuilder.TrimClauses | Simple.Extensions/ExtensionHelpers/OrderQueryBuilder.cs:38 | `TrimEnd(',', ' ')` strips exactly that trailing ", " and the remainder is not blank |
| OrderQueryBuilder.OrderQueryNullIffNoProperties | Simple.Extensions/ExtensionHelpers/OrderQueryBuilder.cs:40-45 | the result is null exactly when the type has no public properties |
| OrderQueryBuilder.OrderQueryShape | Simple.Extensions/ExtensionHelpers/OrderQueryBuilder.cs:38-45 | with properties, the result is a non-blank ", "-join of valid clauses that ends in neither comma nor space |
| OrderQueryBuilder.BlankQueryFallsBack | Simple.Extensions/ExtensionHelpers/OrderQueryBuilder.cs:40-44 | an empty or whitespace sort string yields no clauses and falls back to the first property ascending, or null |
| OrderQueryBuilder.TrimUnchanged | Simple.Extensions/ExtensionHelpers/OrderQueryBuilder.cs:12 | a string with non-whitespace at both ends is unchanged by `Trim` |
| OrderQueryBuilder.NameDescPiece | Simple.Extensions/ExtensionHelpers/OrderQueryBuilder.cs:23-35 | "name desc" over properties Id, Name yields "Name descending" |
| OrderQueryBuilder.NameDescFieldName | Simple.Extensions/ExtensionHelpers/OrderQueryBuilder.cs:23 | the field name of "name desc" is "name" |
| OrderQueryBuilder.FindPropertyIgnoresCase | Simple.Extensions/ExtensionHelpers/OrderQueryBuilder.cs:25-26 | a field name that differs from a property's name only in ASCII letter case finds that property or an earlier one |
| OrderQueryBuilder.NameMatchesName | Simple.Extensions/ExtensionHelpers/OrderQueryBuilder.cs:25-26 | "name" matches the property Name ignoring case, and not Id |
| OrderQueryBuilder.NameDescAsksDescending | Simple.Extensions/ExtensionHelpers/OrderQueryBuilder.cs:20-31 | "name desc" is not blank and asks for descending order |
| OrderQueryBuilder.IdPiece | Simple.Extensions/ExtensionHelpers/OrderQueryBuilder.cs:23-35 | "id" over Id, Name yields "Id ascending" |
| OrderQueryBuilder.SplitNameDescCommaSpaceId | Simple.Extensions/ExtensionHelpers/OrderQueryBuilder.cs:12 | "name desc, id" splits into "name desc" and " id" |
| OrderQueryBuilder.SpaceIdPiece | Simple.Extensions/ExtensionHelpers/OrderQueryBuilder.cs:20-29 | the piece " id" contributes nothing |
| OrderQueryBuilder.ClausesOfPair | Simple.Extensions/ExtensionHelpers/OrderQueryBuilder.cs:18-36 | two pieces contribute their clauses in order |
| OrderQueryBuilder.NameDescCommaSpaceId | Simple.Extensions/ExtensionHelpers/OrderQueryBuilder.cs:12-38 | "name desc, id" gives "Name descending": the space after the comma makes the id piece unrecognised |
| OrderQueryBuilder.SplitNameDescCommaId | Simple.Extensions/ExtensionHelpers/OrderQueryBuilder.cs:12 | "name desc,id" splits into "name desc" and "id" |
| OrderQueryBuilder.NameDescCommaId | Simple.Extensions/ExtensionHelpers/OrderQueryBuilder.cs:12-38 | "name desc,id" gives "Name descending, Id ascending" |
| OrderQueryBuilder.JoinTwo | Simple.Extensions/ExtensionHelpers/OrderQueryBuilder.cs:35-38 | two clauses join with ", " |
| OrderQueryBuilder.UnknownFieldPieces | Simple.Extensions/ExtensionHelpers/OrderQueryBuilder.cs:12 | "unknownfield" is a single piece |
| OrderQueryBuilder.UnknownPiece | Simple.Extensions/ExtensionHelpers/OrderQueryBuilder.cs:25-29 | "unknownfield" matches neither Id nor Name and contributes nothing |
| OrderQueryBuilder.UnknownField | Simple.Extensions/ExtensionHelpers/OrderQueryBuilder.cs:28-44 | an unknown field name is dropped and the fallback "Id ascending" is used |
| OrderQueryBuilder.FallbackScenarios | Simple.Extensions/ExtensionHelpers/OrderQueryBuilder.cs:40-44 | "" gives "Id ascending" over Id, Name, and "name" gives null over no properties (`OrderQueryNullIffNoProperties` proves null for every string) |
| DotNet.LeadingCount | Simple.Extensions/ExtensionHelpers/OrderQueryBuilder.cs:12 | the counted prefix is all in the class and is followed by a character outside it, or by the end |
| DotNet.TrailingCount | Simple.Extensions/ExtensionHelpers/OrderQueryBuilder.cs:38 | the counted suffix is all in the class and is preceded by a character outside it, or by the start |
| DotNet.TrimStart | Simple.Extensions/ExtensionHelpers/OrderQueryBuilder.cs:12 | the result is a suffix of the string, every dropped character is in the class, and the result does not begin with one |
| DotNet.TrimEnd | Simple.Extensions/ExtensionHelpers/OrderQueryBuilder.cs:38 | the result is a prefix of the string, every dropped character is in the class, and the result does not end with one |
| DotNet.Trim | Simple.Extensions/ExtensionHelpers/OrderQueryBuilder.cs:12 | the result is the string with its leading and trailing whitespace dropped: the contiguous part starting after the leading whitespace, with only whitespace outside it; it is empty exactly when the string is whitespace only, and otherwise begins and ends with a non-whitespace character |
| DotNet.Join | Simple.Extensions/ExtensionHelpers/OrderQueryBuilder.cs:35-38 | a non-empty join begins with its first piece |
| DotNet.EndsWith | Simple.Extensions/ExtensionHelpers/OrderQueryBuilder.cs:31 | true exactly when the suffix is no longer than the string and agrees with its last characters one by one |
| DotNet.EqualsIgnoreCase | Simple.Extensions/ExtensionHelpers/OrderQueryBuilder.cs:26 | equal strings are equal ignoring case, and strings equal ignoring case have the same length |
| DotNet.Lower | Simple.Extensions/ExtensionHelpers/OrderQueryBuilder.cs:26 | lower-casing keeps the length |
| DotNet.EqualsIgnoreCaseIffSameLower | Simple.Extensions/ExtensionHelpers/OrderQueryBuilder.cs:26 | two strings are equal ignoring case exactly when their lower-cased forms are equal |
| DotNet.EqualsIgnoreCaseIffCaseVariants | Simple.Extensions/ExtensionHelpers/OrderQueryBuilder.cs:26 | two strings are equal ignoring case exactly when they have the same length and each position holds the same character or the two cases of one ASCII letter |
| DotNet.EqualsIgnoreCaseSymmetric | Simple.Extensions/ExtensionHelpers/OrderQueryBuilder.cs:26 | comparing a property name with the field name ignoring case gives the same answer in either order |
| DotNet.IsNullOrWhiteSpace | Simple.Extensions/ExtensionHelpers/OrderQueryBuilder.cs:20 | false exactly for a non-null string with a non-whitespace character; true of the empty string |
| DotNet.Split | Simple.Extensions/ExtensionHelpers/OrderQueryBuilder.cs:12 | at least one piece, and no piece contains the separator |
| DotNet.JoinSplit | Simple.Extensions/ExtensionHelpers/OrderQueryBuilder.cs:12 | joining the pieces of a split with the separator restores the string |
| DotNet.SplitFirstPiece | Simple.Extensions/ExtensionHelpers/OrderQueryBuilder.cs:23 | the first piece of a split is the text before the first separator |
| DotNet.SplitWithoutSeparator | Simple.Extensions/ExtensionHelpers/OrderQueryBuilder.cs:23 | a string without the separator splits into itself |
| DotNet.SplitAtFirst | Simple.Extensions/ExtensionHelpers/OrderQueryBuilder.cs:12 | a split at the first separator is the prefix followed by the split of the rest |
| DotNet.SplitInTwo | Simple.Extensions/ExtensionHelpers/OrderQueryBuilder.cs:12 | a string with one separator splits into the text before it and the text after it |
| DotNet.JoinSnoc | Simple.Extensions/ExtensionHelpers/OrderQueryBuilder.cs:35-38 | appending a piece to a non-empty join adds the separator and the piece |
| DotNet.TrimBlank | Simple.Extensions/ExtensionHelpers/OrderQueryBuilder.cs:12 | trimming a whitespace-only string leaves "" |
| BaseTypes.CeilDiv | Simple.Extensions/BaseTypes/PaginatedResult.cs:20 | the page count q is the ceiling of count/pageSize: (q-1)*pageSize < count <= q*pageSize |
| BaseTypes.CeilDivUnique | Simple.Extensions/BaseTypes/PaginatedResult.cs:20 | that bracketing determines the page count uniquely |
| BaseTypes.NewPaginatedResult | Simple.Extensions/BaseTypes/PaginatedResult.cs:17-29 | data kept as given; TotalPages is the ceiling; Next exactly when pageNumber < TotalPages; Previous exactly when pageNumber > 1; TotalRecords and PageIndex copied |
| BaseTypes.EmptyHasNoPages | Simple.Extensions/BaseTypes/PaginatedResult.cs:20-27 | no records means zero pages and no next page |
| BaseTypes.NextIffRecordsRemain | Simple.Extensions/BaseTypes/PaginatedResult.cs:23 | Next holds exactly when records remain beyond pageNumber * pageSize |
| BaseTypes.ThirtyTwoRecordsInPagesOfTen | Simple.Extensions/BaseTypes/PaginatedResult.cs:17-29 | 32 records at 10 per page: 4 pages; page 1 has only a next page, page 4 only a previous one |
| QueryableExtensions.EffectivePageNumber | Simple.Extensions/Extensions/QueryableExtensions.cs:36 | a page number of zero or less becomes 1, and a page number of at least 1 is kept as given |
| QueryableExtensions.EffectivePageSize | Simple.Extensions/Extensions/QueryableExtensions.cs:37 | a page size of zero or less becomes the default 10, and a page size of at least 1 is kept as given |
| QueryableExtensions.Page | Simple.Extensions/Extensions/QueryableExtensions.cs:42 | at most pageSize records, exactly min(pageSize, remaining) of them, each the source record at offset (p-1)*pageSize+i |
| QueryableExtensions.SkipTakeIsPage | Simple.Extensions/Extensions/QueryableExtensions.cs:42 | `Skip((p-1)*z).Take(z)` is that page |
| QueryableExtensions.SkipTakeIsSlice | Simple.Extensions/Extensions/QueryableExtensions.cs:42 | `Skip(d).Take(z)` is the slice from d to d + z, cut off at the end of the source |
| QueryableExtensions.PagedResult | Simple.Extensions/Extensions/QueryableExtensions.cs:36-45 | data is the requested page after normalisation; TotalRecords is the count; TotalPages, Next, Previous and PageIndex as in the constructor |
| QueryableExtensions.ToPaginatedList | Simple.Extensions/Extensions/QueryableExtensions.cs:26-46 | fails with ArgumentNullException("source") on null; otherwise returns the paged result |
| QueryableExtensions.FirstPagesArePrefix | Simple.Extensions/Extensions/QueryableExtensions.cs:42 | pages 1..k read in turn are the first min(n, k*z) records |
| QueryableExtensions.PagesCoverSource | Simple.Extensions/Extensions/QueryableExtensions.cs:36-45 | pages 1..TotalPages read in turn are the whole source, neither losing nor repeating a record |
| QueryableExtensions.PageHasRecordsIffWithinTotal | Simple.Extensions/Extensions/QueryableExtensions.cs:42 | a page has records exactly when its number is at most TotalPages |
| QueryableExtensions.NextIffNextPageHasRecords | Simple.Extensions/Extensions/QueryableExtensions.cs:36-45 | Next holds exactly when the following page is non-empty |
| QueryableExtensions.ThirtyTwoRecords | Testing/Simple.Extensions.Testing/QueryableExtensionsTests.cs:7-109 | 32 records: page 0, page -1, size 0 and size -10 read as page 1 of 10; pages 1 to 4 hold 10, 10, 10 and 2 records with the tests' metadata |
| QueryableExtensions.WhereIf | Simple.Extensions/Extensions/QueryableExtensions.cs:57-66 | null source, predicate, applyPredicate raise ArgumentNullException in that order; otherwise a subsequence of the source, which is the filtered source if applyPredicate() holds and the source itself if not |
| QueryableExtensions.WhereIfIndexed | Simple.Extensions/Extensions/QueryableExtensions.cs:77-86 | the same guards; with the condition true the result is the indexed filter of the source, with it false the source itself, and either way a subsequence of the source, in source order |
| QueryableExtensions.WhereIfIndexedMembers | Simple.Extensions/Extensions/QueryableExtensions.cs:85 | with the condition true, a record is kept exactly when the predicate accepts it at one of its source indices |
| QueryableExtensions.WhereIfAgreesWithEnumerable | Simple.Extensions/Extensions/QueryableExtensions.cs:57-66 | the queryable overload behaves exactly as the guarded enumerable one, exceptions included |
| QueryableExtensions.WhereIfIndexedIgnoringIndex | Simple.Extensions/Extensions/QueryableExtensions.cs:77-86 | an indexed predicate that ignores the index filters like the plain overload |
| QueryableExtensions.Sort | Simple.Extensions/Extensions/QueryableExtensions.cs:96-106 | with no properties the source is returned unordered; otherwise it is ordered by the query built from the sort string, or from "" when that is null or blank |
| QueryableExtensions.SortWithoutSpecUsesFirstProperty | Simple.Extensions/Extensions/QueryableExtensions.cs:98-106 | a null or blank sort string orders by the first property ascending |
| LegacyQueryableExtensions.LongCount | Simple.Extensions/QueryableExtensions.cs:22 | a null source raises ArgumentNullException("source"); otherwise the count is the source length |
| LegacyQueryableExtensions.ToPaginatedList | Simple.Extensions/QueryableExtensions.cs:9-27 | without a guard of its own, a null source still ends in ArgumentNullException("source"); otherwise it returns exactly the guarded copy's paged result |
| Sequences.Filter | Simple.Extensions/Extensions/EnumerableExtensions.cs:20 | never longer than the source; every kept element passes the predicate |
| Sequences.FilterMembers | Simple.Extensions/Extensions/EnumerableExtensions.cs:20 | an element is kept exactly when it is in the source and passes |
| Sequences.FilterIsSubsequence | Simple.Extensions/Extensions/EnumerableExtensions.cs:20 | filtering keeps source order |
| Sequences.FilterIndexedMembers | Simple.Extensions/Extensions/QueryableExtensions.cs:85 | an element is kept by the indexed filter exactly when it passes at one of its indices |
| Sequences.FilterUnchanged | Simple.Extensions/Extensions/StringExtensions.cs:83-84 | filtering changes nothing exactly when every element passes |
| Sequences.FilterEmptyIffNoneKept | Simple.Extensions/Extensions/StringExtensions.cs:83-84 | filtering leaves nothing exactly when no element passes |
| Sequences.Skip | Simple.Extensions/Extensions/QueryableExtensions.cs:42 | skipping k records leaves the last n - k of them (all of them for k <= 0, none for k >= n), each at its original offset |
| Sequences.Take | Simple.Extensions/Extensions/QueryableExtensions.cs:42 | taking k records keeps the first min(k, n) of them (none for k <= 0), in order |
| Sequences.FilterIndexed | Simple.Extensions/Extensions/QueryableExtensions.cs:85 | a subsequence of the source, so in source order; every kept element passes the predicate at one of its source indices, and every element passing at its own index is kept |
| Sequences.FilterIndexedIsSubsequence | Simple.Extensions/Extensions/QueryableExtensions.cs:85 | the indexed filter keeps the source's order |
| Sequences.FilterIndexedConcat | Simple.Extensions/Extensions/QueryableExtensions.cs:85 | filtering a concatenation filters each part, the second part seeing indices that continue after the first |
| Sequences.FilterIndexedUnchanged | Simple.Extensions/Extensions/QueryableExtensions.cs:85 | the indexed filter returns its source exactly when every element passes at its own index, so nothing is dropped or reordered then |
| EnumerableExtensions.Where | Simple.Extensions/Extensions/EnumerableExtensions.cs:20 | null source, then null predicate, raise ArgumentNullException; otherwise exactly `Filter` of the source by the predicate: an order-preserving selection in which every kept element passes and every passing element is kept |
| EnumerableExtensions.ToList | Testing/Simple.Extensions.Testing/EnumerableExtensionsTests.cs:33 | enumerating a null result raises ArgumentNullException("source") |
| EnumerableExtensions.WhereIfAsWritten | Simple.Extensions/Extensions/EnumerableExtensions.cs:17-20 | a null applyPredicate raises NullReferenceException; a false condition returns the source as given, even null; a true one is `Where` with its exceptions |
| EnumerableExtensions.NullArgumentsNotRejected | Simple.Extensions/Extensions/EnumerableExtensions.cs:20 | a null source ends in ArgumentNullException("source") only once enumerated; a null predicate with a false condition is accepted; a null condition raises NullReferenceException |
| EnumerableExtensions.WhereIf | Testing/Simple.Extensions.Testing/EnumerableExtensionsTests.cs:28-66 | null source, predicate, applyPredicate raise ArgumentNullException in that order; otherwise exactly `Filter` of the source by the predicate when applyPredicate() holds, and the source itself when it does not |
| EnumerableExtensions.GuardsChangeOnlyNullCases | Simple.Extensions/Extensions/EnumerableExtensions.cs:20 | with non-null arguments the guarded and as-written versions return the same records |
| EnumerableExtensions.WhereIfIdempotent | Simple.Extensions/Extensions/EnumerableExtensions.cs:20 | applying the same WhereIf twice gives the result of applying it once |
| EnumerableExtensions.SampleIdsLength | Testing/Simple.Extensions.Testing/Helpers/SampleData.cs:8-9 | the sample has n users |
| EnumerableExtensions.HalfOfSampleIdsAreEven | Testing/Simple.Extensions.Testing/Helpers/SampleData.cs:8-9 | ids 1..2k contain exactly k even ids |
| EnumerableExtensions.ThirtyUsers | Testing/Simple.Extensions.Testing/EnumerableExtensionsTests.cs:8-26 | 30 users filtered by even id: 15 when the condition holds, 30 when it does not |
| StringExtensions.IsEmpty | Simple.Extensions/Extensions/StringExtensions.cs:14 | true exactly for the non-null empty string |
| StringExtensions.IsNull | Simple.Extensions/Extensions/StringExtensions.cs:21 | true exactly for null |
| StringExtensions.IsWhiteSpace | Simple.Extensions/Extensions/StringExtensions.cs:28-36 | the early-exit scan returns true exactly for a non-null, non-empty string of whitespace characters |
| StringExtensions.HasValue | Simple.Extensions/Extensions/StringExtensions.cs:43 | true exactly when non-null with a non-whitespace character |
| StringExtensions.Classification | Simple.Extensions/Extensions/StringExtensions.cs:14-43 | HasValue holds exactly when the string is neither null, empty nor whitespace-only, and those three exclude one another |
| StringExtensions.HasSpecialCharacters | Simple.Extensions/Extensions/StringExtensions.cs:50-51 | true exactly when non-null with a special character, that is, exactly when RemoveSpecialCharacters would change it |
| StringExtensions.HasSpaces | Simple.Extensions/Extensions/StringExtensions.cs:58-59 | true exactly when non-null with a whitespace character, that is, exactly when RemoveSpaces would change it |
| StringExtensions.HasSpecialCharactersOrSpaces | Simple.Extensions/Extensions/StringExtensions.cs:66-67 | true exactly when HasSpecialCharacters or HasSpaces, that is, exactly when RemoveSpecialCharactersAndSpaces would change it |
| StringExtensions.IsSpecialCharacter | Simple.Extensions/Extensions/StringExtensions.cs:84 | every special character is printable ASCII punctuation: not whitespace, not a letter and not a digit |
| StringExtensions.ReplaceRuns | Simple.Extensions/Extensions/StringExtensions.cs:84 | a string with no character of the class is left unchanged; replacing by "" never lengthens the string and leaves no character of the class |
| StringExtensions.MatchesRun | Simple.Extensions/Extensions/StringExtensions.cs:51 | the pattern `[class]+` matches exactly when some position starts a non-empty maximal run of the class, as counted by `LeadingCount` |
| StringExtensions.ReplaceRunsByEmptyIsFilter | Simple.Extensions/Extensions/StringExtensions.cs:84 | replacing each maximal run of a class by "" keeps exactly the other characters, in order |
| StringExtensions.RemoveSpecialCharacters | Simple.Extensions/Extensions/StringExtensions.cs:83-84 | null stays null; otherwise the characters outside the special class, in order |
| StringExtensions.RemoveSpecialCharactersAndSpaces | Simple.Extensions/Extensions/StringExtensions.cs:92-93 | null stays null; otherwise the characters that are neither special nor whitespace, in order |
| StringExtensions.RemoveSpaces | Simple.Extensions/Extensions/StringExtensions.cs:100-101 | null stays null; otherwise the non-whitespace characters, in order |
| StringExtensions.RemovalsClearTheirClass | Simple.Extensions/Extensions/StringExtensions.cs:83-101 | each removal never lengthens, leaves no character of its class, and is idempotent |
| StringExtensions.RemoveBothIsRemoveEach | Simple.Extensions/Extensions/StringExtensions.cs:92-93 | removing both classes at once equals removing one class after the other, in either order |
| StringExtensions.RemovalKeepsOthers | Simple.Extensions/Extensions/StringExtensions.cs:83-101 | a character survives a removal exactly when it occurs in the input outside the class |
| StringExtensions.RemovalEmptiesIffAllInClass | Simple.Extensions/Extensions/StringExtensions.cs:83-101 | a removal yields "" exactly when every character is in its class |
| StringExtensions.RemovalJoinsWords | Testing/Simple.Extensions.Testing/StringExtensionsTests.cs:77-117 | a run of removed characters between two kept words leaves the words joined |
| StringExtensions.RemoveSpecialCharactersJoinsWords | Testing/Simple.Extensions.Testing/StringExtensionsTests.cs:83-85 | words around special characters are joined, as "abc-efg" becomes "abcefg" |
| StringExtensions.RemoveSpacesJoinsWords | Testing/Simple.Extensions.Testing/StringExtensionsTests.cs:110-112 | words around whitespace are joined, as "abc efg" becomes "abcefg" |
| StringExtensions.RemoveSpecialCharactersAndSpacesJoinsWords | Testing/Simple.Extensions.Testing/StringExtensionsTests.cs:96-98 | words around special characters and whitespace are joined |
| StringExtensions.PredicateScenarios | Testing/Simple.Extensions.Testing/StringExtensionsTests.cs:5-75 | the tests' cases for IsEmpty, IsNull, whitespace-only and HasValue on null, "", " ", "  " and "abc" |
| StringExtensions.AlphabetIsSpecial | Testing/Simple.Extensions.Testing/StringExtensionsTests.cs:81 | every character of the tests' special alphabet is special and none is whitespace |
| StringExtensions.AlphabetScenario | Testing/Simple.Extensions.Testing/StringExtensionsTests.cs:81 | the 32-character special alphabet is removed entirely by both special-character removals and untouched by RemoveSpaces |
| LegacyStringExtensions.IsEmpty | Simple.Extensions/StringExtensions.cs:7 | true exactly for the non-null empty string |
| LegacyStringExtensions.IsNull | Simple.Extensions/StringExtensions.cs:8 | true exactly for null |
| LegacyStringExtensions.IsWhiteSpace | Simple.Extensions/StringExtensions.cs:9-17 | the loop returns true exactly for a non-null, non-empty string of whitespace characters |
| LegacyStringExtensions.HasValue | Simple.Extensions/StringExtensions.cs:18 | true exactly when non-null with a non-whitespace character |
| LegacyStringExtensions.RemoveSpecialCharacters | Simple.Extensions/StringExtensions.cs:20-21 | null stays null; otherwise exactly the result of `StringExtensions.RemoveSpecialCharacters`: an order-preserving subsequence free of special characters that keeps every other character |
| LegacyStringExtensions.RemoveSpecialCharactersAndSpaces | Simple.Extensions/StringExtensions.cs:23-24 | null stays null; otherwise exactly the result of `StringExtensions.RemoveSpecialCharactersAndSpaces`: an order-preserving subsequence free of both classes that keeps every other character |
| LegacyStringExtensions.RemoveSpaces | Simple.Extensions/StringExtensions.cs:26-27 | null stays null; otherwise exactly the result of `StringExtensions.RemoveSpaces`: an order-preserving subsequence free of whitespace that keeps every other character |

## Left out

- Asynchrony: `Task.Run`, `await` and the `CancellationToken` of both paginators are not modelled; the count and the page are computed synchronously, and cancellation is not modelled.
- Ordering by a dynamic-LINQ clause (`source.OrderBy(orderQuery)`): this is a foreign library call, so `Sort` takes the ordering as the parameter `orderBy`.
- QueryableExtensions.Sort: takes a non-null sequence. A null source comes back as null when the type has no properties, and otherwise reaches dynamic LINQ's `OrderBy`; neither case is modelled.
- Reflection (`typeof(T).GetProperties`): replaced by the list of public property names in declaration order.
- QueryableExtensions.ToPaginatedList: the paginators' `int` arithmetic `(pageNumber - 1) * pageSize`, LINQ's `int` offsets and the `(int)` cast of the page count are required not to overflow (`PageRequestFits`, `PageCountFits`) rather than modelled with wrap-around.
- LegacyQueryableExtensions.ToPaginatedList: the same overflow preconditions, and a source longer than `long.MaxValue` is excluded.
- BaseTypes.NewPaginatedResult: the decimal division and `Math.Ceiling` are modelled as an exact integer ceiling.
- BaseTypes.NewPaginatedResult: modelled for positive page sizes only. The public constructor takes any `int`: a page size of 0 throws `DivideByZeroException`, and a negative one still computes a result. Both paginators pass the normalised size, which is at least 1.
- The parameterless `PaginatedResult()` constructor and the JSON property names are not modelled, because they affect only serialisation.
- Character classes: whitespace (`char.IsWhiteSpace`, regex `\s`, `Trim`) is the ASCII set of space, tab, line feed, vertical tab, form feed and carriage return. Unicode whitespace is not modelled.
- Comparisons: case-insensitive property matching folds ASCII letters only, and `EndsWith` is ordinal, not culture-sensitive.
- Regular expressions beyond single-class runs are not modelled: `HasHTMLTags`, `RemoveHTMLTags`, `IsValidUrl`, `ExtractUrls`, `IsValidEmail` and `ExtractEmails` are outside this model.
- The DateTime, Long, Enum and GenericType extensions are outside this model.
- Deferred execution of LINQ queries is not modelled: each result is a finished sequence.

## Findings

| source | as written | input that shows it | evidently intended | confidence | as-written member | corrected member |
|---|---|---|---|---|---|---|
| Simple.Extensions/Extensions/EnumerableExtensions.cs:17-20 | no argument is checked: a null predicate is accepted when the condition is false, and a null condition is called and throws NullReferenceException | `WhereIf(users, null, () => false)` returns `users`; `WhereIf(users, u => u.Id % 2 == 0, null)` throws NullReferenceException | ArgumentNullException naming `predicate` or `applyPredicate`, as the in-memory tests expect and as the queryable overloads do | medium, not executed | EnumerableExtensions.NullArgumentsNotRejected | EnumerableExtensions.WhereIf |
