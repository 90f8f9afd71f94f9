/** Optional values: Python's `None` versus a present value. */
module Wrappers {

  datatype Option<+T> = None | Some(value: T)

  /** The present values, in order; the missing ones are dropped. */
  function Somes<T(==,!new)>(xs: seq<Option<T>>): (r: seq<T>)
    ensures |r| <= |xs|
    ensures forall x :: x in r <==> Some(x) in xs
    decreases |xs|
  {
    if xs == [] then []
    else
      assert forall o :: o in xs <==> o == xs[0] || o in xs[1..];
      (if xs[0].Some? then [xs[0].value] else []) + Somes(xs[1..])
  }

  /** Each present value is kept exactly as often as it occurs. */
  lemma {:induction false} SomesCount<T(!new)>(xs: seq<Option<T>>)
    ensures forall x :: multiset(Somes(xs))[x] == multiset(xs)[Some(x)]
    decreases |xs|
  {
    if xs != [] {
      SomesCount(xs[1..]);
      assert xs == [xs[0]] + xs[1..];
      assert multiset(xs) == multiset([xs[0]]) + multiset(xs[1..]);
    }
  }

  /** Filtering a concatenation filters each part in turn: the order is kept. */
  lemma {:induction false} SomesAppend<T(!new)>(xs: seq<Option<T>>, ys: seq<Option<T>>)
    ensures Somes(xs + ys) == Somes(xs) + Somes(ys)
    decreases |xs|
  {
    if xs == [] {
      assert xs + ys == ys;
    } else {
      var zs := xs + ys;
      assert zs[0] == xs[0] && zs[1..] == xs[1..] + ys;
      SomesAppend(xs[1..], ys);
      var head := if xs[0].Some? then [xs[0].value] else [];
      calc {
        Somes(zs);
        head + Somes(xs[1..] + ys);
        head + (Somes(xs[1..]) + Somes(ys));
        (head + Somes(xs[1..])) + Somes(ys);
        Somes(xs) + Somes(ys);
      }
    }
  }
}
