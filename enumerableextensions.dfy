/**
 * `EnumerableExtensions.WhereIf` over in-memory sequences. The code as
 * written checks none of its arguments: a null `applyPredicate` is called
 * and throws `NullReferenceException`, and a null source or predicate is
 * only noticed by `Enumerable.Where`, that is, only when the predicate is
 * applied. Its tests expect the guards of the queryable overloads
 * instead; `WhereIfAsWritten` models the code and `WhereIf` the guarded
 * behaviour the tests describe.
 */
module EnumerableExtensions {
  import opened Wrappers
  import opened Sequences

  /** The exceptions `WhereIf` as written can raise. */
  datatype Exception = ArgumentNull(ArgumentNullException) | NullReference

  /** `Enumerable.Where(source, predicate)`: both arguments are checked eagerly, source first. */
  function Where<T>(source: Option<seq<T>>, pred: Option<T -> bool>): (r: Result<seq<T>, ArgumentNullException>)
    ensures source.None? ==> r == Failure(ArgumentNullException("source"))
    ensures source.Some? && pred.None? ==> r == Failure(ArgumentNullException("predicate"))
    ensures source.Some? && pred.Some? ==> r == Success(Filter(source.value, pred.value))
    ensures source.Some? && pred.Some? ==> IsSubsequence(r.value, source.value)
    ensures source.Some? && pred.Some? ==> forall i :: 0 <= i < |r.value| ==> pred.value(r.value[i])
    ensures source.Some? && pred.Some? ==>
      forall i :: 0 <= i < |source.value| && pred.value(source.value[i]) ==> source.value[i] in r.value
  {
    if source.None? then Failure(ArgumentNullException("source"))
    else if pred.None? then Failure(ArgumentNullException("predicate"))
    else
      FilterIsSubsequence(source.value, pred.value);
      forall i | 0 <= i < |source.value| && pred.value(source.value[i])
        ensures source.value[i] in Filter(source.value, pred.value)
      {
        FilterMembers(source.value, pred.value, source.value[i]);
      }
      Success(Filter(source.value, pred.value))
  }

  /** `Enumerable.ToList(source)`: fails on a null source, otherwise copies it. */
  function ToList<T>(source: Option<seq<T>>): (r: Result<seq<T>, ArgumentNullException>)
    ensures source.None? <==> r == Failure(ArgumentNullException("source"))
    ensures source.Some? ==> r == Success(source.value)
  {
    if source.None? then Failure(ArgumentNullException("source")) else Success(source.value)
  }

  /**
   * `applyPredicate() ? source.Where(predicate) : source`, exactly as
   * written: the result may be the null source itself.
   */
  function WhereIfAsWritten<T>(source: Option<seq<T>>, pred: Option<T -> bool>, applyPredicate: Option<() -> bool>)
    : (r: Result<Option<seq<T>>, Exception>)
    ensures applyPredicate.None? <==> r == Failure(NullReference)
    ensures applyPredicate.Some? && !applyPredicate.value() ==> r == Success(source)
    ensures applyPredicate.Some? && applyPredicate.value() ==>
      match Where(source, pred)
      case Success(filtered) => r == Success(Some(filtered))
      case Failure(e) => r == Failure(ArgumentNull(e))
  {
    if applyPredicate.None? then Failure(NullReference)
    else if !applyPredicate.value() then Success(source)
    else
      match Where(source, pred)
      case Success(filtered) => Success(Some(filtered))
      case Failure(e) => Failure(ArgumentNull(e))
  }

  /**
   * A null source still ends in `ArgumentNullException` naming `source`,
   * raised by the `ToList` that enumerates the result; but a null
   * predicate is accepted whenever the condition is false, and a
   * null condition raises `NullReferenceException`, where the tests expect
   * `ArgumentNullException` naming `predicate` and `applyPredicate`.
   */
  lemma NullArgumentsNotRejected<T>(source: seq<T>, pred: T -> bool, never: () -> bool)
    requires !never()
    ensures WhereIfAsWritten(None, Some(pred), Some(never)) == Success(None)
    ensures ToList(WhereIfAsWritten(None, Some(pred), Some(never)).value) == Failure(ArgumentNullException("source"))
    ensures WhereIfAsWritten(Some(source), None, Some(never)) == Success(Some(source))
    ensures WhereIfAsWritten(Some(source), Some(pred), None) == Failure(NullReference)
    ensures WhereIfAsWritten(Some(source), Some(pred), None) != Failure(ArgumentNull(ArgumentNullException("applyPredicate")))
  {
  }

  /**
   * `WhereIf` with the guards its tests expect: source, predicate and
   * applyPredicate are checked for null in that order; then the source is
   * filtered by the predicate only if applyPredicate() holds.
   */
  function WhereIf<T>(source: Option<seq<T>>, pred: Option<T -> bool>, applyPredicate: Option<() -> bool>)
    : (r: Result<seq<T>, ArgumentNullException>)
    ensures source.None? ==> r == Failure(ArgumentNullException("source"))
    ensures source.Some? && pred.None? ==> r == Failure(ArgumentNullException("predicate"))
    ensures source.Some? && pred.Some? && applyPredicate.None? ==> r == Failure(ArgumentNullException("applyPredicate"))
    ensures r.Success? ==> IsSubsequence(r.value, source.value) && |r.value| <= |source.value|
    ensures r.Success? && applyPredicate.value() ==> r.value == Filter(source.value, pred.value)
    ensures r.Success? && applyPredicate.value() ==> forall i :: 0 <= i < |r.value| ==> pred.value(r.value[i])
    ensures r.Success? && applyPredicate.value() ==>
      forall i :: 0 <= i < |source.value| && pred.value(source.value[i]) ==> source.value[i] in r.value
    ensures r.Success? && !applyPredicate.value() ==> r.value == source.value
  {
    if source.None? then Failure(ArgumentNullException("source"))
    else if pred.None? then Failure(ArgumentNullException("predicate"))
    else if applyPredicate.None? then Failure(ArgumentNullException("applyPredicate"))
    else if applyPredicate.value() then Where(source, pred)
    else
      SubsequenceReflexive(source.value);
      Success(source.value)
  }

  /** Where all three arguments are non-null, the guarded version computes what the code computes. */
  lemma GuardsChangeOnlyNullCases<T>(source: seq<T>, pred: T -> bool, applyPredicate: () -> bool)
    ensures WhereIfAsWritten(Some(source), Some(pred), Some(applyPredicate)) ==
      Success(Some(WhereIf(Some(source), Some(pred), Some(applyPredicate)).value))
  {
  }

  /** Filtering twice by the same predicate filters once. */
  lemma WhereIfIdempotent<T>(source: seq<T>, pred: T -> bool, applyPredicate: () -> bool)
    ensures var once := WhereIf(Some(source), Some(pred), Some(applyPredicate)).value;
      WhereIf(Some(once), Some(pred), Some(applyPredicate)).value == once
  {
    FilterIdempotent(source, pred);
  }

  /** The sample users' ids 1..n. */
  function SampleIds(n: nat): seq<int> {
    if n == 0 then [] else SampleIds(n - 1) + [n]
  }

  predicate IsEven(id: int) {
    id % 2 == 0
  }

  /** Among the ids 1..2k exactly k are even. */
  lemma {:induction false} HalfOfSampleIdsAreEven(k: nat)
    ensures |Filter(SampleIds(2 * k), IsEven)| == k
  {
    if k > 0 {
      HalfOfSampleIdsAreEven(k - 1);
      var n := 2 * k;
      assert SampleIds(n) == SampleIds(n - 2) + [n - 1] + [n];
      FilterConcat(SampleIds(n - 2) + [n - 1], [n], IsEven);
      FilterConcat(SampleIds(n - 2), [n - 1], IsEven);
      assert Filter([n - 1], IsEven) == [];
      assert Filter([n], IsEven) == [n];
    }
  }

  /** 30 users filtered by an even id: 15 when the condition holds, all 30 when it does not. */
  lemma ThirtyUsers(applyPredicate: () -> bool)
    ensures applyPredicate() ==> WhereIf(Some(SampleIds(30)), Some(IsEven), Some(applyPredicate)) == Success(Filter(SampleIds(30), IsEven))
    ensures applyPredicate() ==> |WhereIf(Some(SampleIds(30)), Some(IsEven), Some(applyPredicate)).value| == 15
    ensures !applyPredicate() ==> |WhereIf(Some(SampleIds(30)), Some(IsEven), Some(applyPredicate)).value| == 30
  {
    HalfOfSampleIdsAreEven(15);
    SampleIdsLength(30);
  }

  lemma {:induction false} SampleIdsLength(n: nat)
    ensures |SampleIds(n)| == n
  {
    if n > 0 {
      SampleIdsLength(n - 1);
    }
  }
}
