/** Small failure-compatible wrappers shared by every module of the model. */
module Basics {

  /** A value that may be absent: the model of Python's `None` / `dict.get`. */
  datatype Option<+T> = None | Some(value: T)

  /** Either a value or the error that stopped the computation. */
  datatype Result<+T, +E> = Success(value: T) | Failure(error: E)

  /** The position of the first element equal to `x`. */
  function FirstIndex<T(==)>(xs: seq<T>, x: T): (i: nat)
    requires x in xs
    ensures i < |xs| && xs[i] == x
    ensures forall m :: 0 <= m < i ==> xs[m] != x
  {
    if xs[0] == x then 0
    else
      assert x in xs[1..] by {
        var k :| 0 <= k < |xs| && xs[k] == x;
        assert xs[1..][k - 1] == x;
      }
      FirstIndex(xs[1..], x) + 1
  }

  /** Python's `list.remove(x)`: drops the first element equal to `x` and keeps the others in
      their order (no element is dropped when none is equal; every caller in the model removes
      an element that is present). */
  function RemoveFirst<T(==)>(xs: seq<T>, x: T): (r: seq<T>)
    ensures x in xs ==> |r| == |xs| - 1
    ensures x !in xs ==> r == xs
    ensures forall y :: y in r ==> y in xs
  {
    if xs == [] then []
    else if xs[0] == x then xs[1..]
    else [xs[0]] + RemoveFirst(xs[1..], x)
  }

  /** `list.remove(x)` drops the first element equal to `x` and keeps every other element, in
      its order. */
  lemma {:induction false} RemoveFirstSplit<T>(xs: seq<T>, x: T)
    requires x in xs
    ensures RemoveFirst(xs, x) == xs[..FirstIndex(xs, x)] + xs[FirstIndex(xs, x) + 1..]
  {
    if xs[0] == x {
      assert xs[..0] + xs[1..] == xs[1..];
    } else {
      assert x in xs[1..] by {
        var k :| 0 <= k < |xs| && xs[k] == x;
        assert xs[1..][k - 1] == x;
      }
      RemoveFirstSplit(xs[1..], x);
      RemoveFirstOrder(xs, x, RemoveFirst(xs[1..], x));
    }
  }

  /** `list.remove(x)` takes exactly one copy of `x` out of the list, and none when there is none. */
  lemma {:induction false} RemoveFirstMultiset<T>(xs: seq<T>, x: T)
    ensures multiset(RemoveFirst(xs, x)) == multiset(xs) - multiset{x}
  {
    if xs == [] {
      assert multiset(xs) - multiset{x} == multiset{};
    } else if xs[0] == x {
      RemoveFirstHead(xs);
    } else {
      RemoveFirstMultiset(xs[1..], x);
      RemoveFirstCount(xs, x, RemoveFirst(xs[1..], x));
    }
  }

  /** Past a head that differs from `x`, removing the first `x` from the tail removes the first
      `x` from the whole list. */
  lemma RemoveFirstOrder<T>(xs: seq<T>, x: T, rest: seq<T>)
    requires xs != [] && xs[0] != x && x in xs[1..]
    requires rest == xs[1..][..FirstIndex(xs[1..], x)] + xs[1..][FirstIndex(xs[1..], x) + 1..]
    ensures x in xs && |[xs[0]] + rest| == |xs| - 1
    ensures [xs[0]] + rest == xs[..FirstIndex(xs, x)] + xs[FirstIndex(xs, x) + 1..]
  {
    var j := FirstIndex(xs[1..], x);
    assert x in xs && FirstIndex(xs, x) == j + 1 by {
      assert xs[j + 1] == x;
    }
    DropShift(xs, rest, j);
  }

  /** Dropping position `j` of the tail is dropping position `j + 1` of the whole list. */
  lemma DropShift<T>(xs: seq<T>, rest: seq<T>, j: nat)
    requires j + 1 < |xs|
    requires rest == xs[1..][..j] + xs[1..][j + 1..]
    ensures |[xs[0]] + rest| == |xs| - 1
    ensures [xs[0]] + rest == xs[..j + 1] + xs[j + 2..]
  {
    var r := [xs[0]] + rest;
    var want := xs[..j + 1] + xs[j + 2..];
    assert |r| == |want|;
    forall k | 0 <= k < |r| ensures r[k] == want[k] {
      if 0 < k <= j {
        assert r[k] == rest[k - 1] == xs[k];
      } else if k > j {
        assert r[k] == rest[k - 1] == xs[k + 1];
      }
    }
  }

  /** Dropping the head removes one copy of it. */
  lemma RemoveFirstHead<T>(xs: seq<T>)
    requires xs != []
    ensures multiset(xs[1..]) == multiset(xs) - multiset{xs[0]}
  {
    assert xs == [xs[0]] + xs[1..];
    assert multiset(xs) == multiset{xs[0]} + multiset(xs[1..]);
  }

  /** Past a head that differs from `x`, one `x` fewer in the tail is one `x` fewer in the list. */
  lemma RemoveFirstCount<T>(xs: seq<T>, x: T, rest: seq<T>)
    requires xs != [] && xs[0] != x
    requires multiset(rest) == multiset(xs[1..]) - multiset{x}
    ensures multiset([xs[0]] + rest) == multiset(xs) - multiset{x}
  {
    assert xs == [xs[0]] + xs[1..];
    assert multiset(xs) == multiset{xs[0]} + multiset(xs[1..]);
    assert multiset([xs[0]] + rest) == multiset{xs[0]} + multiset(rest);
  }

  /** `for y in ys: xs.remove(y)`. */
  function RemoveEach<T(==)>(xs: seq<T>, ys: seq<T>): seq<T>
    decreases |ys|
  {
    if ys == [] then xs else RemoveEach(RemoveFirst(xs, ys[0]), ys[1..])
  }

  /** Removing elements that all differ from the head leaves the head in front. */
  lemma {:induction false} RemoveEachKeepsHead<T>(x: T, xs: seq<T>, ys: seq<T>)
    requires x !in ys
    ensures RemoveEach([x] + xs, ys) == [x] + RemoveEach(xs, ys)
    decreases |ys|
  {
    if ys != [] {
      assert ([x] + xs)[1..] == xs;
      assert RemoveFirst([x] + xs, ys[0]) == [x] + RemoveFirst(xs, ys[0]);
      RemoveEachKeepsHead(x, RemoveFirst(xs, ys[0]), ys[1..]);
    }
  }
}
