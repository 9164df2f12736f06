/**
 * `PagingMetaData` and `PaginatedResult<T>`: one page of records together
 * with the navigation summary computed from the total count.
 */
module BaseTypes {
  import opened DotNet

  /** The navigation summary of one page (serialised as has_previous, has_next, total_pages, total_records, page_index). */
  datatype PagingMetaData = PagingMetaData(
    previous: bool,
    next: bool,
    totalPages: int32,
    totalRecords: int64,
    pageIndex: int32)

  /**
   * A page of records with its metadata. Both properties have private
   * setters and are assigned once, by the constructor, so the envelope is
   * a value.
   */
  datatype PaginatedResult<T> = PaginatedResult(meta: PagingMetaData, data: seq<T>)

  /**
   * `Math.Ceiling((decimal)count / pageSize)`: the least integer q with
   * count <= q * pageSize. The decimal quotient of a `long` by a positive
   * `int` is exact enough for the ceiling to be exact.
   */
  function CeilDiv(count: int, pageSize: int): (q: int)
    requires pageSize > 0
    ensures (q - 1) * pageSize < count <= q * pageSize
  {
    var q := (count + pageSize - 1) / pageSize;
    var r := (count + pageSize - 1) % pageSize;
    assert count + pageSize - 1 == q * pageSize + r;
    assert (q - 1) * pageSize == q * pageSize - pageSize;
    q
  }

  /** The cast `(int)totalNumberOfPages` succeeds. */
  predicate PageCountFits(count: int64, pageSize: int32)
    requires pageSize > 0
  {
    FitsInt32(CeilDiv(count as int, pageSize as int))
  }

  /**
   * The four-argument constructor `PaginatedResult(data, count, pageNumber, pageSize)`.
   * A zero page size would divide by zero and a page count beyond `int`
   * would make the cast throw; neither is modelled.
   */
  function NewPaginatedResult<T>(data: seq<T>, count: int64, pageNumber: int32, pageSize: int32): (r: PaginatedResult<T>)
    requires pageSize > 0
    requires PageCountFits(count, pageSize)
    ensures r.data == data
    ensures (r.meta.totalPages as int - 1) * pageSize as int < count as int <= r.meta.totalPages as int * pageSize as int
    ensures r.meta.next <==> pageNumber < r.meta.totalPages
    ensures r.meta.previous <==> pageNumber > 1
    ensures r.meta.totalRecords == count && r.meta.pageIndex == pageNumber
  {
    var totalNumberOfPages := CeilDiv(count as int, pageSize as int);
    PaginatedResult(
      PagingMetaData(
        previous := pageNumber > 1,
        next := (pageNumber as int) < totalNumberOfPages,
        totalPages := totalNumberOfPages as int32,
        totalRecords := count,
        pageIndex := pageNumber),
      data)
  }

  /** The ceiling is unique: any q bracketing count the same way is CeilDiv. */
  lemma CeilDivUnique(count: int, pageSize: int, q: int)
    requires pageSize > 0
    requires (q - 1) * pageSize < count <= q * pageSize
    ensures q == CeilDiv(count, pageSize)
  {
    var c := CeilDiv(count, pageSize);
    if q < c {
      assert q * pageSize <= (c - 1) * pageSize by {
        MulMonotone(q, c - 1, pageSize);
      }
    } else if q > c {
      assert c * pageSize <= (q - 1) * pageSize by {
        MulMonotone(c, q - 1, pageSize);
      }
    }
  }

  lemma MulMonotone(a: int, b: int, k: int)
    requires a <= b && k >= 0
    ensures a * k <= b * k
  {
    assert b * k - a * k == (b - a) * k;
  }

  /** No records means no pages, and then no page has a next page. */
  lemma EmptyHasNoPages<T>(data: seq<T>, pageNumber: int32, pageSize: int32)
    requires pageSize > 0 && pageNumber > 0
    ensures PageCountFits(0, pageSize)
    ensures var m := NewPaginatedResult(data, 0, pageNumber, pageSize).meta;
      m.totalPages == 0 && !m.next
  {
    assert CeilDiv(0, pageSize as int) == 0 by {
      CeilDivUnique(0, pageSize as int, 0);
    }
  }

  /**
   * `Next` holds exactly when records remain after the first pageNumber
   * pages, that is, when pageNumber * pageSize < count.
   */
  lemma NextIffRecordsRemain<T>(data: seq<T>, count: int64, pageNumber: int32, pageSize: int32)
    requires pageSize > 0 && PageCountFits(count, pageSize)
    ensures NewPaginatedResult(data, count, pageNumber, pageSize).meta.next <==>
      pageNumber as int * pageSize as int < count as int
  {
    var q := CeilDiv(count as int, pageSize as int);
    var p := pageNumber as int;
    var z := pageSize as int;
    if p < q {
      MulMonotone(p, q - 1, z);
    } else {
      MulMonotone(q, p, z);
    }
  }

  /** 32 records at 10 per page make 4 pages; page 4 is the last and page 1 the first. */
  lemma ThirtyTwoRecordsInPagesOfTen<T>(data: seq<T>)
    ensures PageCountFits(32, 10)
    ensures NewPaginatedResult(data, 32, 1, 10).meta == PagingMetaData(false, true, 4, 32, 1)
    ensures NewPaginatedResult(data, 32, 4, 10).meta == PagingMetaData(true, false, 4, 32, 4)
  {
    CeilDivUnique(32, 10, 4);
  }
}
