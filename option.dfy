/**
 * The `Option` extensions of `src/extensions/option.rs`: `is_none_or`, and
 * filling an empty option from a future.
 *
 * The future is modelled by the value it resolves to, and it is awaited
 * only where the source awaits it: when the option is empty. The returned
 * `&mut T` always points at the value stored in the option, so it is
 * modelled by that value.
 */
module Options {
  import opened Wrappers

  /** `is_none_or`: every value the option holds satisfies `f`. */
  predicate IsNoneOr<T(!new)>(o: Option<T>, f: T -> bool): (r: bool)
    ensures r <==> forall x :: o == Some(x) ==> f(x)
  {
    match o
    case None => true
    case Some(x) =>
      assert o == Some(o.value);
      f(x)
  }

  /** The tests of `is_none_or` with the predicate `x > 1`. */
  lemma IsNoneOrExamples()
    ensures IsNoneOr(Some(2), x => x > 1)
    ensures !IsNoneOr(Some(0), x => x > 1)
    ensures IsNoneOr(None, (x: int) => x > 1)
  {}

  /**
   * `get_or_try_insert_future` on the option `o` with a future resolving to
   * `output`: the new option, and the value the returned reference points at.
   */
  function TryInserted<T>(o: Option<T>, output: Option<T>): (r: (Option<T>, Option<T>))
    ensures r.1 == r.0
    ensures o.Some? ==> r.0 == o
    ensures o.None? ==> r.0 == output
  {
    if o.None? then (output, output) else (o, o)
  }

  /** Once the option holds a value, filling it again changes nothing, whatever the future yields. */
  lemma TryInsertedIdempotent<T>(o: Option<T>, first: Option<T>, second: Option<T>)
    ensures var (filled, _) := TryInserted(o, first);
      filled.Some? ==> TryInserted(filled, second) == (filled, filled)
  {}

  /** The result is empty only when the option was empty and the future yielded nothing. */
  lemma TryInsertedEmpty<T>(o: Option<T>, output: Option<T>)
    ensures TryInserted(o, output).1.None? <==> o.None? && output.None?
  {}

  /** An `Option<T>` place that the `FutureExt` methods borrow mutably. */
  class OptionPlace<T> {
    var value: Option<T>

    constructor (value: Option<T>)
      ensures this.value == value
    {
      this.value := value;
    }

    /** `get_or_try_insert_future`: keeps a present value; otherwise stores what the future yields. */
    method GetOrTryInsertFuture(output: Option<T>) returns (r: Option<T>)
      modifies this
      ensures (value, r) == TryInserted(old(value), output)
    {
      if value.None? {
        value := output;
        r := value;
      } else {
        r := value;
      }
    }

    /** `get_or_insert_future`: the future always yields a value, so the `unwrap` never fails. */
    method GetOrInsertFuture(output: T) returns (r: T)
      modifies this
      ensures value.Some? && r == value.value
      ensures old(value).Some? ==> value == old(value)
      ensures old(value).None? ==> value == Some(output)
    {
      var o := GetOrTryInsertFuture(Some(output));
      r := o.value;
    }

    /** `insert_future_if_none`: `get_or_insert_future` with the reference dropped. */
    method InsertFutureIfNone(output: T)
      modifies this
      ensures value == if old(value).None? then Some(output) else old(value)
    {
      var _ := GetOrInsertFuture(output);
    }

    /** `try_inser_futuret_if_none`: `get_or_try_insert_future` with the reference dropped. */
    method TryInsertFutureIfNone(output: Option<T>)
      modifies this
      ensures value == TryInserted(old(value), output).0
    {
      var _ := GetOrTryInsertFuture(output);
    }
  }
}
