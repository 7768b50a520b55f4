/** Facts about sequences that several modules share. */
module Sequences {
  predicate Distinct<T(==)>(xs: seq<T>) {
    forall i, j :: 0 <= i < j < |xs| ==> xs[i] != xs[j]
  }

  lemma Regroup<T>(a: seq<T>, b: seq<T>, c: seq<T>)
    ensures (a + b) + c == a + (b + c)
  {
  }

  lemma ConsConcat<T>(a: seq<T>, b: seq<T>)
    requires a != []
    ensures a == [a[0]] + a[1..] && a + b == [a[0]] + (a[1..] + b)
  {
  }

  /** Replacing element `i` of a list whose elements from `i` on are still those of `before`. */
  lemma ReplaceNext<T>(xs: seq<T>, i: nat, before: seq<T>, x: T, rest: seq<T>)
    requires i < |xs| == |before| && xs[i..] == before[i..]
    ensures before[i..] != [] && before[i..][0] == before[i] == xs[i] && before[i..][1..] == before[i + 1..]
    ensures xs[i := x][i + 1..] == before[i + 1..]
    ensures xs[i := x][..i + 1] + rest == xs[..i] + ([x] + rest)
    ensures xs[i := x][..i + 1] == xs[..i] + [x] && before[..i + 1] == before[..i] + [before[i]]
  {
    assert xs[i] == xs[i..][0] && before[i] == before[i..][0];
    assert xs[i := x][i + 1..] == xs[i..][1..];
    assert xs[i := x][..i + 1] == xs[..i] + [x];
    assert xs[..i] + ([x] + rest) == (xs[..i] + [x]) + rest;
  }

  lemma UpdateThenRest<T>(xs: seq<T>, i: nat, x: T, rest: seq<T>)
    requires i < |xs|
    ensures xs[i := x][..i + 1] + rest == xs[..i] + ([x] + rest)
  {
  }

  lemma SnocEqual<T>(a: seq<T>, b: seq<T>, x: T, y: T)
    requires |a| == |b|
    ensures a + [x] == b + [y] <==> a == b && x == y
  {
    if a + [x] == b + [y] {
      assert (a + [x])[..|a|] == a && (b + [y])[..|b|] == b;
      assert (a + [x])[|a|] == x && (b + [y])[|b|] == y;
    }
  }
}
