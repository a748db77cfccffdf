/** pandas rolling windows over one group's series. A window counts rows,
    not calendar days, and missing values (`None`, pandas NaN) are skipped:
    an aggregate is missing when fewer than `minPeriods` values are present. */
module Rolling {
  import opened Basics

  /** The rows `rolling(w)` aggregates at position `i`: positions
      max(0, i - w + 1) .. i, ending with row `i` itself. */
  function Trailing<T>(x: seq<T>, i: nat, w: nat): (r: seq<T>)
    requires i < |x| && w >= 1
    ensures |r| == (if i + 1 >= w then w else i + 1)
    ensures r[|r| - 1] == x[i]
  {
    x[if i + 1 >= w then i + 1 - w else 0 .. i + 1]
  }

  /** Number of present values. */
  function Defined<T>(w: seq<Option<T>>): (c: nat)
    ensures c <= |w|
  {
    if w == [] then 0 else Defined(w[..|w| - 1]) + (if w[|w| - 1].Some? then 1 else 0)
  }

  /** Sum of the present values. */
  function DefinedSum(w: seq<Option<int>>): int
  {
    if w == [] then 0 else DefinedSum(w[..|w| - 1]) + w[|w| - 1].GetOr(0)
  }

  /** `mean()` of one window with `min_periods = minPeriods`. */
  function WindowMean(w: seq<Option<int>>, minPeriods: nat): Option<real>
  {
    var c := Defined(w);
    if c >= minPeriods && c > 0 then Some(DefinedSum(w) as real / c as real) else None
  }

  /** `x.rolling(w, min_periods = minPeriods).mean()` */
  function RollingMean(x: seq<Option<int>>, w: nat, minPeriods: nat): (r: seq<Option<real>>)
    requires w >= 1
    ensures |r| == |x|
  {
    seq(|x|, i requires 0 <= i < |x| => WindowMean(Trailing(x, i, w), minPeriods))
  }

  /** `max()` of one window with `min_periods = 1`: the largest present
      value, missing when no value is present. */
  function WindowMax(w: seq<Option<real>>): (r: Option<real>)
    ensures r.None? <==> forall i :: 0 <= i < |w| ==> w[i].None?
    ensures r.Some? ==> r in w && forall i :: 0 <= i < |w| && w[i].Some? ==> w[i].value <= r.value
  {
    if w == [] then None
    else
      var m := WindowMax(w[..|w| - 1]);
      var last := w[|w| - 1];
      assert w == w[..|w| - 1] + [last];
      if last.None? then m
      else if m.None? || m.value < last.value then last
      else m
  }

  /** `x.rolling(w, min_periods = 1).max()` */
  function RollingMax(x: seq<Option<real>>, w: nat): (r: seq<Option<real>>)
    requires w >= 1
    ensures |r| == |x|
  {
    seq(|x|, i requires 0 <= i < |x| => WindowMax(Trailing(x, i, w)))
  }

  /** `x.shift(-k)`: position t holds row t + k, missing past the end. */
  function Shift<T>(x: seq<Option<T>>, k: nat): (r: seq<Option<T>>)
    ensures |r| == |x|
  {
    seq(|x|, t requires 0 <= t < |x| => if t + k < |x| then x[t + k] else None)
  }

  /** `x.shift(-k).rolling(window = k, min_periods = 1).max()` */
  function ForwardMax(x: seq<Option<real>>, k: nat): (r: seq<Option<real>>)
    requires k >= 1
    ensures |r| == |x|
  {
    RollingMax(Shift(x, k), k)
  }

  /** The rows the forward maximum reads at position `i`: positions
      max(i + 1, k) .. min(i + k, |x| - 1), empty when that range is. */
  function ForwardWindow<T>(x: seq<T>, i: nat, k: nat): seq<T>
    requires i < |x| && k >= 1
  {
    var lo := if i + 1 >= k then i + 1 else k;
    if lo >= |x| then [] else x[lo .. if i + k + 1 <= |x| then i + k + 1 else |x|]
  }

  /** Two windows holding the same present values have the same maximum. */
  lemma WindowMaxSameValues(w1: seq<Option<real>>, w2: seq<Option<real>>)
    requires forall v :: Some(v) in w1 <==> Some(v) in w2
    ensures WindowMax(w1) == WindowMax(w2)
  {
    var m1, m2 := WindowMax(w1), WindowMax(w2);
    if m1.Some? {
      assert Some(m1.value) in w2;
      var j :| 0 <= j < |w2| && w2[j] == m1;
    }
    if m2.Some? {
      assert Some(m2.value) in w1;
      var j :| 0 <= j < |w1| && w1[j] == m2;
    }
  }

  /** Shift-then-roll reads exactly `ForwardWindow`: never row `i` itself,
      the next k rows once i >= k - 1, and for earlier rows a window that
      starts at row k rather than at row i + 1. */
  lemma ForwardMaxWindow(x: seq<Option<real>>, k: nat, i: nat)
    requires k >= 1 && i < |x|
    ensures ForwardMax(x, k)[i] == WindowMax(ForwardWindow(x, i, k))
  {
    var n := |x|;
    var sh := Shift(x, k);
    var s := if i + 1 >= k then i + 1 - k else 0;
    var tw := Trailing(sh, i, k);
    var fw := ForwardWindow(x, i, k);
    assert tw == sh[s .. i + 1];
    forall v ensures Some(v) in tw <==> Some(v) in fw {
      if Some(v) in tw {
        var u :| 0 <= u < |tw| && tw[u] == Some(v);
        assert sh[s + u] == Some(v);
        assert s + u + k < n;
        assert fw[u] == x[s + u + k];
      }
      if Some(v) in fw {
        var j :| 0 <= j < |fw| && fw[j] == Some(v);
        assert tw[j] == sh[s + j];
      }
    }
    WindowMaxSameValues(tw, fw);
  }

  lemma {:induction false} DefinedSumBounds(w: seq<Option<int>>, lo: real, hi: real)
    requires forall i :: 0 <= i < |w| && w[i].Some? ==> lo <= w[i].value as real <= hi
    ensures (Defined(w) as real) * lo <= DefinedSum(w) as real <= (Defined(w) as real) * hi
  {
    if w != [] {
      var init := w[..|w| - 1];
      DefinedSumBounds(init, lo, hi);
      var c := Defined(init) as real;
      if w[|w| - 1].Some? {
        assert (c + 1.0) * lo == c * lo + lo && (c + 1.0) * hi == c * hi + hi;
      }
    }
  }

  /** A present mean lies between any bounds of the present values. */
  lemma MeanWithinBounds(w: seq<Option<int>>, minPeriods: nat, lo: real, hi: real)
    requires forall i :: 0 <= i < |w| && w[i].Some? ==> lo <= w[i].value as real <= hi
    requires WindowMean(w, minPeriods).Some?
    ensures lo <= WindowMean(w, minPeriods).value <= hi
  {
    var total, c := DefinedSum(w) as real, Defined(w) as real;
    assert c > 0.0 && WindowMean(w, minPeriods).value == total / c;
    DefinedSumBounds(w, lo, hi);
    QuotientBounds(total, c, lo, hi);
  }

  lemma QuotientBounds(s: real, c: real, lo: real, hi: real)
    requires c > 0.0 && c * lo <= s <= c * hi
    ensures lo <= s / c <= hi
  {
    var q := s / c;
    assert q * c == s;
    assert (q - lo) * c == s - c * lo;
    assert (hi - q) * c == c * hi - s;
  }

  /** Every value present exactly when the count of present values is the length. */
  lemma {:induction false} DefinedAll<T>(w: seq<Option<T>>)
    ensures Defined(w) == |w| <==> forall i :: 0 <= i < |w| ==> w[i].Some?
    ensures Defined(w) > 0 <==> exists i :: 0 <= i < |w| && w[i].Some?
  {
    if w != [] {
      var init := w[..|w| - 1];
      DefinedAll(init);
      if Defined(w) > 0 && w[|w| - 1].None? {
        var i :| 0 <= i < |init| && init[i].Some?;
        assert w[i].Some?;
      }
      if Defined(w) == |w| {
        assert forall i :: 0 <= i < |init| ==> init[i].Some?;
      }
    }
  }

  /** With `min_periods = 1` the trailing mean is present exactly when some
      row of its window is; in particular whenever row `i` is present. */
  lemma RollingMeanAnyPresent(x: seq<Option<int>>, w: nat, i: nat)
    requires w >= 1 && i < |x|
    ensures RollingMean(x, w, 1)[i].Some? <==> exists j :: 0 <= j < |Trailing(x, i, w)| && Trailing(x, i, w)[j].Some?
    ensures x[i].Some? ==> RollingMean(x, w, 1)[i].Some?
  {
    var t := Trailing(x, i, w);
    DefinedAll(t);
    if x[i].Some? {
      assert t[|t| - 1].Some?;
    }
  }

  /** With `min_periods = w` the trailing mean is present exactly when the
      window is full (i >= w - 1) and every one of its w rows is present. */
  lemma RollingMeanFullWindow(x: seq<Option<int>>, w: nat, i: nat)
    requires w >= 1 && i < |x|
    ensures RollingMean(x, w, w)[i].Some? <==> i + 1 >= w && forall j :: i + 1 - w <= j <= i ==> x[j].Some?
  {
    var t := Trailing(x, i, w);
    DefinedAll(t);
    if i + 1 >= w {
      if forall j :: 0 <= j < |t| ==> t[j].Some? {
        forall j | i + 1 - w <= j <= i ensures x[j].Some? {
          assert t[j - (i + 1 - w)] == x[j];
        }
      }
      if forall j :: i + 1 - w <= j <= i ==> x[j].Some? {
        forall j | 0 <= j < |t| ensures t[j].Some? {
          assert t[j] == x[j + (i + 1 - w)];
        }
      }
    }
  }

  /** The forward window starts after row `i`, ends within k rows of it,
      and is exactly the next k rows (cut at the end) once i >= k - 1. */
  lemma ForwardWindowPositions<T>(x: seq<T>, i: nat, k: nat)
    requires i < |x| && k >= 1
    ensures i + 1 >= k ==> ForwardWindow(x, i, k) == x[i + 1 .. if i + k + 1 <= |x| then i + k + 1 else |x|]
    ensures i + 1 < k && k < |x| ==> ForwardWindow(x, i, k) == x[k .. if i + k + 1 <= |x| then i + k + 1 else |x|]
    ensures i + 1 < k && k >= |x| ==> ForwardWindow(x, i, k) == []
    ensures i == |x| - 1 ==> ForwardWindow(x, i, k) == []
  {
  }
}
