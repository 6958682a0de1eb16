/** Facts about sequences that the verifier does not see unaided. */
module Sequences {
  lemma Regroup<T>(a: seq<T>, b: seq<T>, c: seq<T>)
    ensures (a + b) + c == a + (b + c)
  {
  }

  /** The sum of the weights of all elements. */
  ghost function Weight<T>(xs: seq<T>, w: T -> nat): nat
  {
    if xs == [] then 0 else Weight(xs[..|xs| - 1], w) + w(xs[|xs| - 1])
  }

  lemma {:induction false} WeightConcat<T>(a: seq<T>, b: seq<T>, w: T -> nat)
    ensures Weight(a + b, w) == Weight(a, w) + Weight(b, w)
  {
    if b == [] {
      assert a + b == a;
    } else {
      assert (a + b)[..|a + b| - 1] == a + b[..|b| - 1];
      WeightConcat(a, b[..|b| - 1], w);
    }
  }

  lemma WeightOne<T>(x: T, w: T -> nat)
    ensures Weight([x], w) == w(x)
  {
    assert [x][..0] == [];
  }

  lemma WeightSplit<T>(xs: seq<T>, i: nat, w: T -> nat)
    requires i < |xs|
    ensures Weight(xs, w) == Weight(xs[..i], w) + w(xs[i]) + Weight(xs[i + 1..], w)
    ensures Weight(xs[..i] + xs[i + 1..], w) == Weight(xs[..i], w) + Weight(xs[i + 1..], w)
  {
    assert xs == xs[..i] + [xs[i]] + xs[i + 1..];
    WeightConcat(xs[..i] + [xs[i]], xs[i + 1..], w);
    WeightConcat(xs[..i], [xs[i]], w);
    WeightConcat(xs[..i], xs[i + 1..], w);
    WeightOne(xs[i], w);
  }

  lemma WeightUpdate<T>(xs: seq<T>, i: nat, x: T, w: T -> nat)
    requires i < |xs|
    ensures Weight(xs[i := x], w) + w(xs[i]) == Weight(xs, w) + w(x)
  {
    WeightSplit(xs, i, w);
    WeightSplit(xs[i := x], i, w);
    assert xs[i := x][..i] == xs[..i] && xs[i := x][i + 1..] == xs[i + 1..];
  }

  /** Elements of `ys` taken once each are no more, and weigh no more, than `ys`. */
  lemma {:induction false} WeightPart<T>(xs: seq<T>, ys: seq<T>, w: T -> nat)
    requires forall i, j :: 0 <= i < j < |xs| ==> xs[i] != xs[j]
    requires forall i :: 0 <= i < |xs| ==> xs[i] in ys
    ensures |xs| <= |ys| && Weight(xs, w) <= Weight(ys, w)
  {
    if xs != [] {
      var front, x := xs[..|xs| - 1], xs[|xs| - 1];
      var k :| 0 <= k < |ys| && ys[k] == x;
      var rest := ys[..k] + ys[k + 1..];
      forall i | 0 <= i < |front| ensures front[i] in rest {
        var j :| 0 <= j < |ys| && ys[j] == front[i];
        assert rest[if j < k then j else j - 1] == front[i];
      }
      WeightPart(front, rest, w);
      WeightSplit(ys, k, w);
    }
  }
}
