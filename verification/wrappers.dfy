/** Failure-compatible wrappers shared by the model: `Option` for Python's
    `None`-or-value and `Result` for an operation that may raise. */
module Wrappers {

  datatype Option<+T> = None | Some(value: T) {

    /** The wrapped value, or `default` for `None` (Python's `x or default`
        when `x` is `None`). */
    function GetOr(default: T): T {
      match this
      case Some(v) => v
      case None => default
    }
  }

  /** `Failure` stands for a Python exception escaping the operation. */
  datatype Result<+R, +E> = Success(value: R) | Failure(error: E)

  /** The values of the `Some` elements of `xs`, in order. */
  function Somes<T>(xs: seq<Option<T>>): seq<T>
    decreases |xs|
  {
    if |xs| == 0 then []
    else (if xs[0].Some? then [xs[0].value] else []) + Somes(xs[1..])
  }

  /** Every value kept by `Somes` comes from some element. */
  lemma {:induction false} SomesSound<T>(xs: seq<Option<T>>, x: T)
    requires x in Somes(xs)
    ensures exists i :: 0 <= i < |xs| && xs[i] == Some(x)
    decreases |xs|
  {
    if xs[0] != Some(x) {
      var tail := xs[1..];
      assert x in Somes(tail);
      SomesSound(tail, x);
      var i :| 0 <= i < |tail| && tail[i] == Some(x);
      assert xs[i + 1] == tail[i];
    }
  }

  /** `Somes` keeps the value of every `Some` element. */
  lemma {:induction false} SomesComplete<T>(xs: seq<Option<T>>, i: nat)
    requires i < |xs| && xs[i].Some?
    ensures xs[i].value in Somes(xs)
    decreases |xs|
  {
    if i > 0 {
      assert xs[1..][i - 1] == xs[i];
      SomesComplete(xs[1..], i - 1);
    }
  }
}
