/** Row groups keyed by account id, as pandas `groupby('account_id')` sees
    them: a group is the subsequence of rows carrying one key, in the frame's
    row order, and `transform` writes a per-group result back to the rows. */
module Grouping {

  /** Number of rows whose key is `a`. */
  function Count(keys: seq<string>, a: string): (c: nat)
    ensures c <= |keys|
  {
    if keys == [] then 0
    else Count(keys[..|keys| - 1], a) + (if keys[|keys| - 1] == a then 1 else 0)
  }

  /** Position of row `p` inside its own group (0 for the group's first row). */
  function Rank(keys: seq<string>, p: nat): nat
    requires p < |keys|
  {
    Count(keys[..p], keys[p])
  }

  /** The values of the rows of group `a`, in row order. */
  function Pick<T>(keys: seq<string>, xs: seq<T>, a: string): (r: seq<T>)
    requires |keys| == |xs|
    ensures |r| == Count(keys, a)
  {
    if keys == [] then []
    else Pick(keys[..|keys| - 1], xs[..|xs| - 1], a) + (if keys[|keys| - 1] == a then [xs[|xs| - 1]] else [])
  }

  lemma {:induction false} CountPrefix(keys: seq<string>, q: nat, a: string)
    requires q <= |keys|
    ensures Count(keys[..q], a) <= Count(keys, a)
    ensures q < |keys| && keys[q] == a ==> Count(keys[..q], a) < Count(keys, a)
    decreases |keys|
  {
    if q < |keys| {
      var n := |keys|;
      assert keys[..n - 1][..q] == keys[..q];
      if q < n - 1 {
        CountPrefix(keys[..n - 1], q, a);
      } else {
        assert keys[..q] == keys[..n - 1];
      }
    } else {
      assert keys[..q] == keys;
    }
  }

  lemma RankBound(keys: seq<string>, p: nat)
    requires p < |keys|
    ensures Rank(keys, p) < Count(keys, keys[p])
  {
    CountPrefix(keys, p, keys[p]);
  }

  /** Row `p` is the `Rank(keys, p)`-th row of its group. */
  lemma {:induction false} PickAt<T>(keys: seq<string>, xs: seq<T>, p: nat)
    requires |keys| == |xs| && p < |keys|
    ensures Rank(keys, p) < |Pick(keys, xs, keys[p])|
    ensures Pick(keys, xs, keys[p])[Rank(keys, p)] == xs[p]
    decreases |keys|
  {
    var n := |keys|;
    RankBound(keys, p);
    if p < n - 1 {
      PickAt(keys[..n - 1], xs[..n - 1], p);
      assert keys[..n - 1][..p] == keys[..p];
    } else {
      assert keys[..p] == keys[..n - 1];
    }
  }

  /** A sequence that agrees with every row of group `a` at that row's rank,
      and has the group's length, is the group. */
  lemma {:induction false} PickUnique<T>(keys: seq<string>, xs: seq<T>, a: string, t: seq<T>)
    requires |keys| == |xs| && |t| == Count(keys, a)
    requires forall p :: 0 <= p < |keys| && keys[p] == a ==> Rank(keys, p) < |t| && xs[p] == t[Rank(keys, p)]
    ensures Pick(keys, xs, a) == t
    decreases |keys|
  {
    var n := |keys|;
    if n > 0 {
      var kp, xp := keys[..n - 1], xs[..n - 1];
      var c := Count(kp, a);
      forall p | 0 <= p < n - 1 && kp[p] == a
        ensures Rank(kp, p) < |t[..c]| && xp[p] == t[..c][Rank(kp, p)]
      {
        assert kp[..p] == keys[..p];
        CountPrefix(kp, p, a);
      }
      PickUnique(kp, xp, a, t[..c]);
      if keys[n - 1] == a {
        assert keys[..n - 1] == keys[..n - 1];
        assert t == t[..c] + [xs[n - 1]];
      } else {
        assert t == t[..c];
      }
    }
  }

  /** pandas `groupby(keys)[vals].transform(f)`: `f` is applied to each
      group's values and the i-th result goes back to the group's i-th row. */
  function GroupTransform<X(!new), Y>(keys: seq<string>, vals: seq<X>, f: seq<X> -> seq<Y>): (r: seq<Y>)
    requires |keys| == |vals|
    requires forall s :: |f(s)| == |s|
    ensures |r| == |keys|
  {
    seq(|keys|, p requires 0 <= p < |keys| =>
      RankBound(keys, p);
      f(Pick(keys, vals, keys[p]))[Rank(keys, p)])
  }

  /** The transform's results on group `a`, read in row order, are `f` of
      that group's values: no group sees another group's rows. */
  lemma TransformPerGroup<X(!new), Y>(keys: seq<string>, vals: seq<X>, f: seq<X> -> seq<Y>, a: string)
    requires |keys| == |vals|
    requires forall s :: |f(s)| == |s|
    ensures Pick(keys, GroupTransform(keys, vals, f), a) == f(Pick(keys, vals, a))
  {
    var out := GroupTransform(keys, vals, f);
    forall p | 0 <= p < |keys| && keys[p] == a
      ensures Rank(keys, p) < |f(Pick(keys, vals, a))| && out[p] == f(Pick(keys, vals, a))[Rank(keys, p)]
    {
      RankBound(keys, p);
    }
    PickUnique(keys, out, a, f(Pick(keys, vals, a)));
  }

  /** In a table holding one key only, a row's rank is its position and the
      group is the whole table. */
  lemma {:induction false} SingleGroup<T>(keys: seq<string>, xs: seq<T>, a: string)
    requires |keys| == |xs|
    requires forall i :: 0 <= i < |keys| ==> keys[i] == a
    ensures Count(keys, a) == |keys|
    ensures Pick(keys, xs, a) == xs
    ensures forall p :: 0 <= p < |keys| ==> Rank(keys, p) == p
    decreases |keys|
  {
    var n := |keys|;
    if n > 0 {
      SingleGroup(keys[..n - 1], xs[..n - 1], a);
      assert xs == xs[..n - 1] + [xs[n - 1]];
      forall p | 0 <= p < n ensures Rank(keys, p) == p {
        assert keys[p] == a;
        if p < n - 1 {
          assert keys[..p] == keys[..n - 1][..p];
          assert Rank(keys[..n - 1], p) == p;
        } else {
          assert keys[..p] == keys[..n - 1];
        }
      }
    }
  }

  /** Transforming the whole table and then keeping group `a` gives the same
      values as keeping group `a` first and transforming that alone. */
  lemma TransformCommutesWithFilter<X(!new), Y>(keys: seq<string>, vals: seq<X>, f: seq<X> -> seq<Y>, a: string)
    requires |keys| == |vals|
    requires forall s :: |f(s)| == |s|
    ensures Pick(keys, GroupTransform(keys, vals, f), a)
         == GroupTransform(Pick(keys, keys, a), Pick(keys, vals, a), f)
  {
    var ka, va := Pick(keys, keys, a), Pick(keys, vals, a);
    forall i | 0 <= i < |ka| ensures ka[i] == a {
      PickKeysAll(keys, a, i);
    }
    SingleGroup(ka, va, a);
    TransformPerGroup(keys, vals, f, a);
    var lhs := GroupTransform(ka, va, f);
    assert |lhs| == |f(va)|;
    forall i | 0 <= i < |lhs| ensures lhs[i] == f(va)[i] {
      assert Rank(ka, i) == i;
    }
  }

  lemma {:induction false} PickKeysAll(keys: seq<string>, a: string, i: nat)
    requires i < Count(keys, a)
    ensures Pick(keys, keys, a)[i] == a
    decreases |keys|
  {
    var n := |keys|;
    if i < Count(keys[..n - 1], a) {
      PickKeysAll(keys[..n - 1], a, i);
    }
  }

  /** A column derived row by row. */
  function MapSeq<T, U>(xs: seq<T>, f: T -> U): (r: seq<U>)
    ensures |r| == |xs|
  {
    seq(|xs|, i requires 0 <= i < |xs| => f(xs[i]))
  }

  /** Deriving a column commutes with keeping one group. */
  lemma PickMap<T, U>(keys: seq<string>, xs: seq<T>, f: T -> U, a: string)
    requires |keys| == |xs|
    ensures Pick(keys, MapSeq(xs, f), a) == MapSeq(Pick(keys, xs, a), f)
  {
    var ys := MapSeq(xs, f);
    var t := MapSeq(Pick(keys, xs, a), f);
    forall p | 0 <= p < |keys| && keys[p] == a
      ensures Rank(keys, p) < |t| && ys[p] == t[Rank(keys, p)]
    {
      PickAt(keys, xs, p);
    }
    PickUnique(keys, ys, a, t);
  }
}
