/** Option and Result: the C++ source's empty iterators and thrown exceptions. */
module Wrappers {

  datatype Option<+T> = None | Some(value: T)

  datatype Result<+T, +E> = Ok(value: T) | Err(error: E) {

    predicate IsFailure() {
      Err?
    }

    function PropagateFailure<U>(): Result<U, E>
      requires Err?
    {
      Err(error)
    }

    function Extract(): T
      requires Ok?
    {
      value
    }
  }

  /** A list that was read so far, in front of the outcome of reading the rest. */
  function Prepend<T, E>(head: seq<T>, r: Result<seq<T>, E>): Result<seq<T>, E> {
    if r.Ok? then Ok(head + r.value) else r
  }

  lemma PrependNothing<T, E>(head: seq<T>, r: Result<seq<T>, E>)
    ensures Prepend([], r) == r
    ensures r == Ok([]) ==> Prepend(head, r) == Ok(head)
    ensures r.Err? ==> Prepend(head, r) == r
  {
    if r.Ok? {
      assert [] + r.value == r.value;
      assert head + [] == head;
    }
  }

  lemma PrependOne<T, E>(head: seq<T>, x: T, r: Result<seq<T>, E>)
    ensures Prepend(head, Prepend([x], r)) == Prepend(head + [x], r)
  {
    if r.Ok? {
      assert head + ([x] + r.value) == head + [x] + r.value;
    }
  }
}
