/**
 * `Simple.Extensions.QueryableExtensions`: pagination of a record source
 * (`ToPaginatedListAsync`), conditional filtering (`WhereIf`, both
 * overloads) and dynamic ordering by a sort string (`Sort`). The record
 * source is a finite sequence; counting and slicing run synchronously.
 */
module QueryableExtensions {
  import opened Wrappers
  import opened DotNet
  import opened Sequences
  import opened BaseTypes
  import OrderQueryBuilder
  import EnumerableExtensions

  /** A page number of zero or less means the first page. */
  function EffectivePageNumber(pageNumber: int32): (p: int32)
    ensures p >= 1
    ensures pageNumber >= 1 ==> p == pageNumber
    ensures pageNumber <= 0 ==> p == 1
  {
    if pageNumber <= 0 then 1 else pageNumber
  }

  /** A page size of zero or less means the default size of 10. */
  function EffectivePageSize(pageSize: int32): (z: int32)
    ensures z >= 1
    ensures pageSize >= 1 ==> z == pageSize
    ensures pageSize <= 0 ==> z == 10
  {
    if pageSize <= 0 then 10 else pageSize
  }

  /**
   * The records of page p at z records per page: those at indices
   * [(p - 1) * z, min(n, p * z)), in source order.
   */
  function Page<T>(s: seq<T>, p: int, z: int): (r: seq<T>)
    requires p >= 1 && z >= 1
    ensures |r| <= z
    ensures var rest := |s| - (p - 1) * z; |r| == if rest < 0 then 0 else if rest < z then rest else z
    ensures forall i :: 0 <= i < |r| ==> r[i] == s[(p - 1) * z + i]
  {
    var lo := if |s| < (p - 1) * z then |s| else (p - 1) * z;
    var hi := if |s| < p * z then |s| else p * z;
    assert p * z == (p - 1) * z + z;
    s[lo..hi]
  }

  /**
   * What the page request needs to stay within the source's integer types:
   * the count fits a `long`, the offset (p - 1) * z and the page count fit an `int`.
   */
  predicate PageRequestFits(n: nat, pageNumber: int32, pageSize: int32) {
    var p := EffectivePageNumber(pageNumber) as int;
    var z := EffectivePageSize(pageSize) as int;
    n < 0x8000_0000_0000_0000 && FitsInt32((p - 1) * z) && FitsInt32(CeilDiv(n, z))
  }

  /** The paginated result both copies of `ToPaginatedListAsync` produce for a non-null source. */
  function PagedResult<T>(s: seq<T>, pageNumber: int32, pageSize: int32): (r: PaginatedResult<T>)
    requires PageRequestFits(|s|, pageNumber, pageSize)
    ensures var p := EffectivePageNumber(pageNumber) as int;
      var z := EffectivePageSize(pageSize) as int;
      r.data == Page(s, p, z) &&
      r.meta.totalRecords as int == |s| && r.meta.pageIndex as int == p &&
      (r.meta.totalPages as int - 1) * z < |s| <= r.meta.totalPages as int * z &&
      (r.meta.next <==> p < r.meta.totalPages as int) &&
      (r.meta.previous <==> p > 1)
  {
    var p := EffectivePageNumber(pageNumber);
    var z := EffectivePageSize(pageSize);
    NewPaginatedResult(Page(s, p as int, z as int), |s| as int64, p, z)
  }

  /** LINQ's `Skip((p - 1) * z).Take(z)` is page p. */
  lemma SkipTakeIsPage<T>(s: seq<T>, p: int, z: int)
    requires p >= 1 && z >= 1
    ensures Take(Skip(s, (p - 1) * z), z) == Page(s, p, z)
  {
    var d := (p - 1) * z;
    assert d >= 0 && p * z == d + z;
    SkipTakeIsSlice(s, d, z);
  }

  /** Skipping d and taking z records is the slice [d, d + z), cut off at the end of the source. */
  lemma SkipTakeIsSlice<T>(s: seq<T>, d: int, z: int)
    requires d >= 0 && z >= 1
    ensures var lo := if |s| < d then |s| else d;
      var hi := if |s| < d + z then |s| else d + z;
      Take(Skip(s, d), z) == s[lo..hi]
  {
    var lo := if |s| < d then |s| else d;
    var hi := if |s| < d + z then |s| else d + z;
    var taken := Take(Skip(s, d), z);
    assert |taken| == hi - lo;
    forall i | 0 <= i < |taken|
      ensures taken[i] == s[lo..hi][i]
    {
    }
  }

  /**
   * `ToPaginatedListAsync`: a null source throws `ArgumentNullException("source")`
   * before anything else; otherwise the page number and size are normalised,
   * the source is counted and sliced, and the normalised values go into the metadata.
   */
  method ToPaginatedList<T>(source: Option<seq<T>>, pageNumber: int32, pageSize: int32)
    returns (r: Result<PaginatedResult<T>, ArgumentNullException>)
    requires source.Some? ==> PageRequestFits(|source.value|, pageNumber, pageSize)
    ensures source.None? ==> r == Failure(ArgumentNullException("source"))
    ensures source.Some? ==> r == Success(PagedResult(source.value, pageNumber, pageSize))
  {
    if source.None? {
      return Failure(ArgumentNullException("source"));
    }
    var count: int64 := 0;
    var items: seq<T> := [];
    var number := if pageNumber <= 0 then 1 else pageNumber;
    var size := if pageSize <= 0 then 10 else pageSize;
    count := |source.value| as int64;
    items := Take(Skip(source.value, ((number - 1) * size) as int), size as int);
    SkipTakeIsPage(source.value, number as int, size as int);
    r := Success(NewPaginatedResult(items, count, number, size));
  }

  /**
   * `WhereIf(source, predicate, applyPredicate)`: the arguments are checked
   * for null in the order source, predicate, applyPredicate; then the
   * source is filtered by the predicate only if applyPredicate() holds.
   */
  function WhereIf<T>(source: Option<seq<T>>, pred: Option<T -> bool>, applyPredicate: Option<() -> bool>)
    : (r: Result<seq<T>, ArgumentNullException>)
    ensures source.None? ==> r == Failure(ArgumentNullException("source"))
    ensures source.Some? && pred.None? ==> r == Failure(ArgumentNullException("predicate"))
    ensures source.Some? && pred.Some? && applyPredicate.None? ==>
      r == Failure(ArgumentNullException("applyPredicate"))
    ensures source.Some? && pred.Some? && applyPredicate.Some? ==> (
      r.Success? &&
      IsSubsequence(r.value, source.value) &&
      (applyPredicate.value() ==> r.value == Filter(source.value, pred.value)) &&
      (!applyPredicate.value() ==> r.value == source.value))
  {
    if source.None? then Failure(ArgumentNullException("source"))
    else if pred.None? then Failure(ArgumentNullException("predicate"))
    else if applyPredicate.None? then Failure(ArgumentNullException("applyPredicate"))
    else
      FilterIsSubsequence(source.value, pred.value);
      SubsequenceReflexive(source.value);
      Success(if applyPredicate.value() then Filter(source.value, pred.value) else source.value)
  }

  /** The overload whose predicate also receives each record's index in the source. */
  function WhereIfIndexed<T>(source: Option<seq<T>>, pred: Option<(T, int) -> bool>, applyPredicate: Option<() -> bool>)
    : (r: Result<seq<T>, ArgumentNullException>)
    ensures source.None? ==> r == Failure(ArgumentNullException("source"))
    ensures source.Some? && pred.None? ==> r == Failure(ArgumentNullException("predicate"))
    ensures source.Some? && pred.Some? && applyPredicate.None? ==>
      r == Failure(ArgumentNullException("applyPredicate"))
    ensures source.Some? && pred.Some? && applyPredicate.Some? ==> (
      r.Success? &&
      |r.value| <= |source.value| &&
      IsSubsequence(r.value, source.value) &&
      (applyPredicate.value() ==> r.value == FilterIndexed(source.value, pred.value)) &&
      (!applyPredicate.value() ==> r.value == source.value))
  {
    if source.None? then Failure(ArgumentNullException("source"))
    else if pred.None? then Failure(ArgumentNullException("predicate"))
    else if applyPredicate.None? then Failure(ArgumentNullException("applyPredicate"))
    else
      SubsequenceReflexive(source.value);
      Success(if applyPredicate.value() then FilterIndexed(source.value, pred.value) else source.value)
  }

  /**
   * `Sort(source, orderByQueryString)`: a null or blank sort string becomes
   * "", the order query is built from the record type's properties, and
   * the source is ordered by it unless it is null or blank. The ordering
   * itself (dynamic LINQ's `OrderBy`) is the parameter `orderBy`.
   * The source is left unordered exactly when the type has no properties.
   */
  function Sort<T>(source: seq<T>, orderByQueryString: Option<string>, properties: seq<string>,
                   orderBy: (seq<T>, string) -> seq<T>): (r: seq<T>)
    ensures properties == [] ==> r == source
    ensures properties != [] ==>
      var spec := if IsNullOrWhiteSpace(orderByQueryString) then "" else orderByQueryString.value;
      r == orderBy(source, OrderQueryBuilder.OrderQuery(spec, properties).value)
  {
    var spec := if IsNullOrWhiteSpace(orderByQueryString) then "" else orderByQueryString.value;
    var orderQuery := OrderQueryBuilder.OrderQuery(spec, properties);
    OrderQueryBuilder.OrderQueryNullIffNoProperties(spec, properties);
    if properties != [] then OrderQueryBuilder.OrderQueryShape(spec, properties); Sorted(source, orderQuery, orderBy)
    else Sorted(source, orderQuery, orderBy)
  }

  function Sorted<T>(source: seq<T>, orderQuery: Option<string>, orderBy: (seq<T>, string) -> seq<T>): seq<T> {
    if IsNullOrWhiteSpace(orderQuery) then source else orderBy(source, orderQuery.value)
  }

  /** Pages 1..k, one after another. */
  function FirstPages<T>(s: seq<T>, z: int, k: nat): seq<T>
    requires z >= 1
  {
    if k == 0 then [] else FirstPages(s, z, k - 1) + Page(s, k, z)
  }

  /** The first k pages are the first min(n, k * z) records. */
  lemma {:induction false} FirstPagesArePrefix<T>(s: seq<T>, z: int, k: nat)
    requires z >= 1
    ensures FirstPages(s, z, k) == s[..if |s| < k * z then |s| else k * z]
  {
    if k > 0 {
      FirstPagesArePrefix(s, z, k - 1);
      assert k * z == (k - 1) * z + z;
      var a := if |s| < (k - 1) * z then |s| else (k - 1) * z;
      var b := if |s| < k * z then |s| else k * z;
      assert s[..a] + s[a..b] == s[..b];
    }
  }

  /** Reading every page in turn, from 1 to TotalPages, gives back the whole source. */
  lemma PagesCoverSource<T>(s: seq<T>, pageSize: int32)
    requires pageSize >= 1
    ensures FirstPages(s, pageSize as int, CeilDiv(|s|, pageSize as int)) == s
  {
    var z := pageSize as int;
    var q := CeilDiv(|s|, z);
    assert q >= 0 by {
      if q < 0 {
        MulMonotone(q, -1, z);
      }
    }
    FirstPagesArePrefix(s, z, q);
  }

  /** A page (numbered from 1) has records exactly when its number is at most TotalPages. */
  lemma PageHasRecordsIffWithinTotal<T>(s: seq<T>, p: int, z: int)
    requires p >= 1 && z >= 1
    ensures Page(s, p, z) != [] <==> p <= CeilDiv(|s|, z)
  {
    var q := CeilDiv(|s|, z);
    if p <= q {
      MulMonotone(p - 1, q - 1, z);
    } else {
      MulMonotone(q, p - 1, z);
    }
  }

  /** `Next` is set exactly when the following page has records. */
  lemma NextIffNextPageHasRecords<T>(s: seq<T>, pageNumber: int32, pageSize: int32)
    requires PageRequestFits(|s|, pageNumber, pageSize)
    ensures var p := EffectivePageNumber(pageNumber) as int;
      var z := EffectivePageSize(pageSize) as int;
      PagedResult(s, pageNumber, pageSize).meta.next <==> Page(s, p + 1, z) != []
  {
    var p := EffectivePageNumber(pageNumber);
    var z := EffectivePageSize(pageSize);
    NextIffRecordsRemain(Page(s, p as int, z as int), |s| as int64, p, z);
  }

  /**
   * 32 records at 10 per page: pages numbered 0 or -1 and sizes 0 or -10
   * are read as page 1 of size 10; pages 1 to 3 hold 10 records and page 4 holds 2.
   */
  lemma ThirtyTwoRecords<T>(s: seq<T>)
    requires |s| == 32
    ensures PageRequestFits(32, 0, 10) && PageRequestFits(32, -1, 10)
    ensures PageRequestFits(32, 1, 0) && PageRequestFits(32, 1, -10)
    ensures forall n: int32 :: 1 <= n <= 4 ==> PageRequestFits(32, n, 10)
    ensures var r := PagedResult(s, 0, 10); |r.data| == 10 && r.meta == PagingMetaData(false, true, 4, 32, 1)
    ensures var r := PagedResult(s, -1, 10); |r.data| == 10 && r.meta == PagingMetaData(false, true, 4, 32, 1)
    ensures var r := PagedResult(s, 1, 0); |r.data| == 10 && r.meta == PagingMetaData(false, true, 4, 32, 1)
    ensures var r := PagedResult(s, 1, -10); |r.data| == 10 && r.meta == PagingMetaData(false, true, 4, 32, 1)
    ensures var r := PagedResult(s, 1, 10); |r.data| == 10 && r.meta == PagingMetaData(false, true, 4, 32, 1)
    ensures var r := PagedResult(s, 2, 10); |r.data| == 10 && r.meta == PagingMetaData(true, true, 4, 32, 2)
    ensures var r := PagedResult(s, 3, 10); |r.data| == 10 && r.meta == PagingMetaData(true, true, 4, 32, 3)
    ensures var r := PagedResult(s, 4, 10); |r.data| == 2 && r.meta == PagingMetaData(true, false, 4, 32, 4)
  {
    CeilDivUnique(32, 10, 4);
  }

  /** A null or blank sort string orders by the first property, ascending. */
  lemma SortWithoutSpecUsesFirstProperty<T>(source: seq<T>, orderByQueryString: Option<string>,
                                            properties: seq<string>, orderBy: (seq<T>, string) -> seq<T>)
    requires IsNullOrWhiteSpace(orderByQueryString) && properties != []
    ensures Sort(source, orderByQueryString, properties, orderBy) == orderBy(source, properties[0] + " ascending")
  {
    OrderQueryBuilder.BlankQueryFallsBack("", properties);
  }

  /** The queryable `WhereIf` gives the same result, or the same exception, as the guarded in-memory one. */
  lemma WhereIfAgreesWithEnumerable<T>(source: Option<seq<T>>, pred: Option<T -> bool>, applyPredicate: Option<() -> bool>)
    ensures WhereIf(source, pred, applyPredicate) == EnumerableExtensions.WhereIf(source, pred, applyPredicate)
  {
  }

  /** An indexed predicate that ignores the index filters like the plain overload. */
  lemma {:induction false} WhereIfIndexedIgnoringIndex<T>(source: Option<seq<T>>, pred: T -> bool,
                                                         applyPredicate: Option<() -> bool>)
    ensures WhereIfIndexed(source, Some((x: T, i: int) => pred(x)), applyPredicate) == WhereIf(source, Some(pred), applyPredicate)
  {
    if source.Some? {
      FilterIndexedIgnoringIndex(source.value, (x: T, i: int) => pred(x), pred, 0);
    }
  }

  /** With the condition true, a record is kept exactly when the predicate accepts it at one of its source indices. */
  lemma WhereIfIndexedMembers<T>(source: seq<T>, pred: (T, int) -> bool, applyPredicate: () -> bool, x: T)
    requires applyPredicate()
    ensures x in WhereIfIndexed(Some(source), Some(pred), Some(applyPredicate)).value <==>
      PassesSomewhere(source, pred, 0, x)
  {
    FilterIndexedMembers(source, pred, 0, x);
  }
}
