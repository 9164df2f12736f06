/**
 * The older, global-namespace `QueryableExtensions.ToPaginatedListAsync`.
 * It has no null check of its own: a null source reaches LINQ's
 * `LongCount`, which throws `ArgumentNullException("source")` from
 * inside the counting step, after the page number and size have been
 * normalised.
 */
module LegacyQueryableExtensions {
  import opened Wrappers
  import opened DotNet
  import opened Sequences
  import opened BaseTypes
  import QueryableExtensions

  /** LINQ's `LongCount`, which rejects a null source. */
  function LongCount<T>(source: Option<seq<T>>): (r: Result<int64, ArgumentNullException>)
    requires source.Some? ==> |source.value| < 0x8000_0000_0000_0000
    ensures source.None? <==> r == Failure(ArgumentNullException("source"))
    ensures source.Some? ==> r.Success? && r.value as int == |source.value|
  {
    if source.None? then Failure(ArgumentNullException("source")) else Success(|source.value| as int64)
  }

  /**
   * Normalise, then count and slice in one step, then build the result
   * from the normalised values: the same result as the guarded copy.
   */
  method ToPaginatedList<T>(source: Option<seq<T>>, pageNumber: int32, pageSize: int32)
    returns (r: Result<PaginatedResult<T>, ArgumentNullException>)
    requires source.Some? ==> QueryableExtensions.PageRequestFits(|source.value|, pageNumber, pageSize)
    ensures source.None? ==> r == Failure(ArgumentNullException("source"))
    ensures source.Some? ==> r == Success(QueryableExtensions.PagedResult(source.value, pageNumber, pageSize))
  {
    var count: int64 := 0;
    var items: seq<T> := [];
    var number := if pageNumber <= 0 then 1 else pageNumber;
    var size := if pageSize <= 0 then 10 else pageSize;
    var counted := LongCount(source);
    if counted.Failure? {
      return Failure(counted.error);
    }
    count := counted.value;
    items := Take(Skip(source.value, ((number - 1) * size) as int), size as int);
    QueryableExtensions.SkipTakeIsPage(source.value, number as int, size as int);
    r := Success(NewPaginatedResult(items, count, number, size));
  }
}
