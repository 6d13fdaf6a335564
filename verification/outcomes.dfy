/** Failure-compatible wrappers used throughout the model: `Option` for values
    the source represents as `undefined`/`null`, `Result` for calls that throw. */
module Outcomes {

  datatype Option<+T> = None | Some(value: T) {

    /** The wrapped value, or `default` when there is none. */
    function GetOr(default: T): T {
      match this
      case Some(v) => v
      case None => default
    }
  }

  datatype Result<+T, +E> = Ok(value: T) | Err(error: E) {

    predicate IsFailure() {
      Err?
    }

    function PropagateFailure<U>(): Result<U, E>
      requires Err?
    {
      Err(error)
    }

    function Extract(): T
      requires Ok?
    {
      value
    }
  }

  /** The values `f` gives on `xs`, in order, skipping the `None`s. */
  function Somes<A, B>(xs: seq<A>, f: A -> Option<B>): (ys: seq<B>)
    ensures |ys| <= |xs|
  {
    if |xs| == 0 then [] else SomeHead(f(xs[0])) + Somes(xs[1..], f)
  }

  /** An option as a sequence of zero or one values. */
  function SomeHead<B>(o: Option<B>): (head: seq<B>)
    ensures |head| <= 1
    ensures o.Some? ==> head == [o.value]
    ensures o.None? ==> head == []
  {
    match o
    case Some(v) => [v]
    case None => []
  }

  /** Every collected value is given by some element. */
  lemma {:induction false} SomesSource<A, B>(xs: seq<A>, f: A -> Option<B>, y: B)
    requires y in Somes(xs, f)
    ensures exists i :: 0 <= i < |xs| && f(xs[i]) == Some(y)
  {
    var rest := xs[1..];
    assert Somes(xs, f) == SomeHead(f(xs[0])) + Somes(rest, f);
    if y !in SomeHead(f(xs[0])) {
      SomesSource(rest, f, y);
      var j :| 0 <= j < |rest| && f(rest[j]) == Some(y);
      assert xs[j + 1] == rest[j];
    }
  }

  /** Every value an element gives is collected. */
  lemma {:induction false} SomesKept<A, B>(xs: seq<A>, f: A -> Option<B>, i: nat)
    requires i < |xs| && f(xs[i]).Some?
    ensures f(xs[i]).value in Somes(xs, f)
  {
    var rest := xs[1..];
    assert Somes(xs, f) == SomeHead(f(xs[0])) + Somes(rest, f);
    if i > 0 {
      assert xs[i] == rest[i - 1];
      SomesKept(rest, f, i - 1);
    }
  }

  /** Both directions of membership at once: each collected value is given
      by an element, and each element's value is collected. */
  lemma SomesMembers<A, B>(xs: seq<A>, f: A -> Option<B>)
    ensures forall y :: y in Somes(xs, f) ==> exists i :: 0 <= i < |xs| && f(xs[i]) == Some(y)
    ensures forall i :: 0 <= i < |xs| && f(xs[i]).Some? ==> f(xs[i]).value in Somes(xs, f)
  {
    forall y | y in Somes(xs, f)
      ensures exists i :: 0 <= i < |xs| && f(xs[i]) == Some(y)
    {
      SomesSource(xs, f, y);
    }
    forall i | 0 <= i < |xs| && f(xs[i]).Some?
      ensures f(xs[i]).value in Somes(xs, f)
    {
      SomesKept(xs, f, i);
    }
  }

  /** Collecting distributes over concatenation. */
  lemma {:induction false} SomesAppend<A, B>(xs: seq<A>, ys: seq<A>, f: A -> Option<B>)
    ensures Somes(xs + ys, f) == Somes(xs, f) + Somes(ys, f)
    decreases |xs|
  {
    if |xs| > 0 {
      assert (xs + ys)[0] == xs[0];
      assert (xs + ys)[1..] == xs[1..] + ys;
      SomesAppend(xs[1..], ys, f);
      var head := SomeHead(f(xs[0]));
      assert Somes(xs + ys, f) == head + (Somes(xs[1..], f) + Somes(ys, f));
      assert head + (Somes(xs[1..], f) + Somes(ys, f)) == (head + Somes(xs[1..], f)) + Somes(ys, f);
    } else {
      assert xs + ys == ys;
    }
  }

  /** Two elements that both give a value give both, in order. */
  lemma SomesPair<A, B>(x: A, y: A, f: A -> Option<B>)
    requires f(x).Some? && f(y).Some?
    ensures Somes([x, y], f) == [f(x).value, f(y).value]
  {
    assert [x, y][1..] == [y];
    assert [y][1..] == [];
    assert Somes([y], f) == [f(y).value] + Somes([], f);
  }
}
