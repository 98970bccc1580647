/** Sequences of distinct keys, used to record the insertion order of a
    Python dictionary. */
module KeyOrder {

  /** No key occurs twice. */
  ghost predicate Distinct<T>(xs: seq<T>) {
    forall i, j :: 0 <= i < j < |xs| ==> xs[i] != xs[j]
  }

  /** The set of keys occurring in `xs`. */
  ghost function Elems<T>(xs: seq<T>): set<T> {
    set x | x in xs
  }

  /** Dropping the first key keeps the rest distinct. */
  lemma DistinctTail<T>(xs: seq<T>)
    requires Distinct(xs) && xs != []
    ensures Distinct(xs[1..])
    ensures xs[0] !in xs[1..]
  {
    var tail := xs[1..];
    assert forall j :: 0 <= j < |tail| ==> tail[j] == xs[j + 1];
  }

  /** A fresh key in front of distinct keys gives distinct keys. */
  lemma DistinctCons<T>(x: T, xs: seq<T>)
    requires Distinct(xs) && x !in xs
    ensures Distinct([x] + xs)
  {
    var ys := [x] + xs;
    assert forall j :: 1 <= j < |ys| ==> ys[j] == xs[j - 1];
  }

  /** A sequence of distinct keys has exactly as many elements as keys. */
  lemma {:induction false} DistinctCard<T>(xs: seq<T>)
    requires Distinct(xs)
    ensures |Elems(xs)| == |xs|
  {
    if xs != [] {
      var tail := xs[1..];
      DistinctTail(xs);
      DistinctCard(tail);
      assert Elems(xs) == {xs[0]} + Elems(tail) by {
        assert xs == [xs[0]] + tail;
      }
    }
  }

  /** `xs` with `x` removed, order of the other keys kept: the effect of
      `del d[x]` on a dictionary's iteration order. */
  function Without<T(==,!new)>(xs: seq<T>, x: T): (ys: seq<T>)
    ensures forall y :: y in ys <==> y in xs && y != x
    ensures Distinct(xs) ==> Distinct(ys)
    ensures x !in xs ==> ys == xs
    ensures Distinct(xs) ==>
      forall i :: 0 <= i < |xs| && xs[i] == x ==> ys == xs[..i] + xs[i + 1..]
  {
    if xs == [] then []
    else if xs[0] == x then
      var rest := Without(xs[1..], x);
      assert Distinct(xs) ==>
        forall i :: 0 <= i < |xs| && xs[i] == x ==> rest == xs[..i] + xs[i + 1..]
      by {
        if Distinct(xs) {
          DistinctTail(xs);
          forall i | 0 <= i < |xs| && xs[i] == x
            ensures rest == xs[..i] + xs[i + 1..]
          {
            assert i == 0;
            assert xs[..0] + xs[1..] == xs[1..];
          }
        }
      }
      rest
    else
      var tail := xs[1..];
      var rest := Without(tail, x);
      assert Distinct(xs) ==> Distinct([xs[0]] + rest) by {
        if Distinct(xs) {
          DistinctTail(xs);
          DistinctCons(xs[0], rest);
        }
      }
      assert Distinct(xs) ==>
        forall i :: 0 <= i < |xs| && xs[i] == x ==> [xs[0]] + rest == xs[..i] + xs[i + 1..]
      by {
        if Distinct(xs) {
          DistinctTail(xs);
          forall i | 0 <= i < |xs| && xs[i] == x
            ensures [xs[0]] + rest == xs[..i] + xs[i + 1..]
          {
            assert i > 0 && tail[i - 1] == x;
            assert rest == tail[..i - 1] + tail[i..];
            assert tail[..i - 1] == xs[1..i] && tail[i..] == xs[i + 1..];
            assert xs[..i] == [xs[0]] + xs[1..i];
          }
        }
      }
      [xs[0]] + rest
  }
}
