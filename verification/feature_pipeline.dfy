/** Feature engineering: the query sums `usage_count` per (account, date),
    ordered by date; per account, a trailing 7-row mean (present from the
    first row), a trailing 30-row mean (missing until 30 rows exist) and
    their ratio, the drop rate. */
module FeaturePipeline {
  import opened Basics
  import opened Ordering
  import opened Grouping
  import opened Rolling

  /** A clean event as the query reads it from the events table. */
  datatype UsageEvent = UsageEvent(accountId: string, usageDate: string, usageCount: Option<int>)

  datatype GroupKey = GroupKey(accountId: string, usageDate: string)

  /** One result row of the aggregation query. */
  datatype DailyUsage = DailyUsage(accountId: string, usageDate: string, dailyUsage: Option<int>)

  datatype FeatureRow = FeatureRow(
    accountId: string,
    usageDate: string,
    dailyUsage: Option<int>,
    usage7dAvg: Option<real>,
    usage30dAvg: Option<real>,
    usageDropRate: Option<real>)

  /** The additive guard in the drop-rate denominator (1e-9). */
  const Eps: real := 0.000000001

  function KeyOf(e: UsageEvent): GroupKey
  {
    GroupKey(e.accountId, e.usageDate)
  }

  function DateKey(e: UsageEvent): seq<string>
  {
    [e.usageDate]
  }

  /** SQL addition inside `SUM`: NULL inputs are skipped. */
  function AddSkippingNull(acc: Option<int>, x: Option<int>): Option<int>
  {
    if x.None? then acc else if acc.None? then x else Some(acc.value + x.value)
  }

  /** `SUM(usage_count)` over the events of group `k`: NULL when the group
      has no non-null count. */
  function SqlSum(events: seq<UsageEvent>, k: GroupKey): Option<int>
  {
    if events == [] then None
    else
      var last := events[|events| - 1];
      var acc := SqlSum(events[..|events| - 1], k);
      if KeyOf(last) == k then AddSkippingNull(acc, last.usageCount) else acc
  }

  /** The distinct groups in order of first appearance. */
  function FirstKeys(events: seq<UsageEvent>): seq<GroupKey>
  {
    if events == [] then []
    else
      var ks := FirstKeys(events[..|events| - 1]);
      var k := KeyOf(events[|events| - 1]);
      if k in ks then ks else ks + [k]
  }

  /** One aggregated row per key, summing the events of that key. */
  function DailyRows(events: seq<UsageEvent>, ks: seq<GroupKey>): (r: seq<DailyUsage>)
    ensures |r| == |ks|
    ensures forall i :: 0 <= i < |ks| ==>
      r[i] == DailyUsage(ks[i].accountId, ks[i].usageDate, SqlSum(events, ks[i]))
  {
    if ks == [] then []
    else
      var k := ks[|ks| - 1];
      DailyRows(events, ks[..|ks| - 1]) + [DailyUsage(k.accountId, k.usageDate, SqlSum(events, k))]
  }

  /** The daily query: one row per (account, date) group of the usage
      events, holding the SQL sum of the group's usage counts, with the rows
      ordered by date. Rows with equal dates keep the order in which their
      groups first appear in date order. */
  function DailyAggregate(events: seq<UsageEvent>): seq<DailyUsage>
  {
    DailyRows(events, FirstKeys(SortBy(events, DateKey)))
  }

  function AccountOf(d: DailyUsage): string
  {
    d.accountId
  }

  function UsageOf(d: DailyUsage): Option<int>
  {
    d.dailyUsage
  }

  /** `x.rolling(7, min_periods=1).mean()` */
  function Mean7(x: seq<Option<int>>): (r: seq<Option<real>>)
    ensures |r| == |x|
  {
    RollingMean(x, 7, 1)
  }

  /** `x.rolling(30, min_periods=30).mean()` */
  function Mean30(x: seq<Option<int>>): (r: seq<Option<real>>)
    ensures |r| == |x|
  {
    RollingMean(x, 30, 30)
  }

  /** `usage_7d_avg / (usage_30d_avg + 1e-9)`: NaN when either is NaN. */
  function DropRate(avg7: Option<real>, avg30: Option<real>): Option<real>
    requires avg30.Some? ==> avg30.value + Eps != 0.0
  {
    if avg7.Some? && avg30.Some? then Some(avg7.value / (avg30.value + Eps)) else None
  }

  /** A mean of at most 30 integers never equals -1e-9, so the denominator
      of the drop rate is never zero. */
  lemma MeanPlusEpsNonZero(w: seq<Option<int>>, minPeriods: nat)
    requires |w| <= 30 && WindowMean(w, minPeriods).Some?
    ensures WindowMean(w, minPeriods).value + Eps != 0.0
  {
    var c, s := Defined(w), DefinedSum(w);
    var v := WindowMean(w, minPeriods).value;
    assert v * (c as real) == s as real;
  }

  lemma Mean30Denominator(keys: seq<string>, vals: seq<Option<int>>, p: nat)
    requires |keys| == |vals| && p < |keys|
    ensures GroupTransform(keys, vals, Mean30)[p].Some? ==> GroupTransform(keys, vals, Mean30)[p].value + Eps != 0.0
  {
    RankBound(keys, p);
    var s := Pick(keys, vals, keys[p]);
    var j := Rank(keys, p);
    assert GroupTransform(keys, vals, Mean30)[p] == WindowMean(Trailing(s, j, 30), 30);
    if WindowMean(Trailing(s, j, 30), 30).Some? {
      MeanPlusEpsNonZero(Trailing(s, j, 30), 30);
    }
  }

  /** The rolling features of an aggregated, date-ordered table. */
  function EngineerFeatures(daily: seq<DailyUsage>): (r: seq<FeatureRow>)
    ensures |r| == |daily|
    ensures forall p :: 0 <= p < |daily| ==>
      r[p].accountId == daily[p].accountId && r[p].usageDate == daily[p].usageDate && r[p].dailyUsage == daily[p].dailyUsage
  {
    var keys := MapSeq(daily, AccountOf);
    var vals := MapSeq(daily, UsageOf);
    var m7 := GroupTransform(keys, vals, Mean7);
    var m30 := GroupTransform(keys, vals, Mean30);
    seq(|daily|, p requires 0 <= p < |daily| =>
      Mean30Denominator(keys, vals, p);
      FeatureRow(daily[p].accountId, daily[p].usageDate, daily[p].dailyUsage, m7[p], m30[p], DropRate(m7[p], m30[p])))
  }

  /** `extract_and_engineering_features()` on the events table. */
  function ExtractAndEngineerFeatures(events: seq<UsageEvent>): (r: seq<FeatureRow>)
    ensures forall i, j :: 0 <= i < j < |r| ==> StrLeq(r[i].usageDate, r[j].usageDate)
    ensures forall i, j :: 0 <= i < j < |r| ==> FeatureKey(r[i]) != FeatureKey(r[j])
    ensures (set x | x in r :: FeatureKey(x)) == EventKeys(events)
  {
    var d := DailyAggregate(events);
    DailyAggregateInDateOrder(events);
    DailyAggregateDistinct(events);
    DailyAggregateCoversGroups(events);
    var r := EngineerFeatures(d);
    assert forall i :: 0 <= i < |r| ==> FeatureKey(r[i]) == DailyKey(d[i]);
    assert (set x | x in r :: FeatureKey(x)) == DailyKeys(d) by {
      forall k | k in DailyKeys(d) ensures k in (set x | x in r :: FeatureKey(x)) {
        var y :| y in d && DailyKey(y) == k;
        var i :| 0 <= i < |d| && d[i] == y;
        assert r[i] in r;
      }
    }
    r
  }

  function FeatureKey(r: FeatureRow): GroupKey
  {
    GroupKey(r.accountId, r.usageDate)
  }

  // ---------------------------------------------------------------------
  // The aggregation query

  lemma {:induction false} FirstKeysSpec(events: seq<UsageEvent>)
    ensures forall i, j :: 0 <= i < j < |FirstKeys(events)| ==> FirstKeys(events)[i] != FirstKeys(events)[j]
    ensures forall k :: k in FirstKeys(events) <==> exists e :: e in events && KeyOf(e) == k
  {
    if events != [] {
      var init := events[..|events| - 1];
      FirstKeysSpec(init);
      forall k | k in FirstKeys(events) ensures exists e :: e in events && KeyOf(e) == k {
        if k in FirstKeys(init) {
          var e :| e in init && KeyOf(e) == k;
          assert e in events;
        } else {
          assert KeyOf(events[|events| - 1]) == k;
        }
      }
      forall e | e in events ensures KeyOf(e) in FirstKeys(events) {
        if e in init {
        } else {
          assert e == events[|events| - 1];
        }
      }
    }
  }

  /** Grouping events that arrive in date order yields groups in date order. */
  lemma {:induction false} FirstKeysInDateOrder(events: seq<UsageEvent>)
    requires SortedBy(events, DateKey)
    ensures forall i, j :: 0 <= i < j < |FirstKeys(events)| ==>
      StrLeq(FirstKeys(events)[i].usageDate, FirstKeys(events)[j].usageDate)
  {
    if events != [] {
      var n := |events|;
      var init := events[..n - 1];
      var last := events[n - 1];
      var ks := FirstKeys(init);
      FirstKeysInDateOrder(init);
      FirstKeysSpec(init);
      if KeyOf(last) !in ks {
        forall i | 0 <= i < |ks| ensures StrLeq(ks[i].usageDate, last.usageDate) {
          assert ks[i] in ks;
          var e :| e in init && KeyOf(e) == ks[i];
          var s :| 0 <= s < n - 1 && init[s] == e;
          assert KeyLeq(DateKey(events[s]), DateKey(last));
          StrLeqRefl(e.usageDate);
        }
      }
    }
  }

  function DailyKey(d: DailyUsage): GroupKey
  {
    GroupKey(d.accountId, d.usageDate)
  }

  /** The query's rows come in date order. */
  lemma DailyAggregateInDateOrder(events: seq<UsageEvent>)
    ensures forall i, j :: 0 <= i < j < |DailyAggregate(events)| ==>
      StrLeq(DailyAggregate(events)[i].usageDate, DailyAggregate(events)[j].usageDate)
  {
    var sorted := SortBy(events, DateKey);
    SortBySpec(events, DateKey);
    FirstKeysInDateOrder(sorted);
  }

  /** No two rows of the query share an (account, date). */
  lemma DailyAggregateDistinct(events: seq<UsageEvent>)
    ensures forall i, j :: 0 <= i < j < |DailyAggregate(events)| ==>
      DailyKey(DailyAggregate(events)[i]) != DailyKey(DailyAggregate(events)[j])
  {
    var ks := FirstKeys(SortBy(events, DateKey));
    FirstKeysSpec(SortBy(events, DateKey));
    var d := DailyAggregate(events);
    forall i, j | 0 <= i < j < |d| ensures DailyKey(d[i]) != DailyKey(d[j]) {
      assert DailyKey(d[i]) == ks[i] && DailyKey(d[j]) == ks[j];
    }
  }

  function EventKeys(events: seq<UsageEvent>): set<GroupKey>
  {
    set e | e in events :: KeyOf(e)
  }

  function DailyKeys(daily: seq<DailyUsage>): set<GroupKey>
  {
    set x | x in daily :: DailyKey(x)
  }

  lemma DailyRowsKeys(events: seq<UsageEvent>, ks: seq<GroupKey>)
    ensures DailyKeys(DailyRows(events, ks)) == set k | k in ks
  {
    var d := DailyRows(events, ks);
    forall k | k in ks ensures k in DailyKeys(d) {
      var i :| 0 <= i < |ks| && ks[i] == k;
      assert d[i] in d;
    }
    forall k | k in DailyKeys(d) ensures k in ks {
      var x :| x in d && DailyKey(x) == k;
      var i :| 0 <= i < |d| && d[i] == x;
      assert ks[i] == k;
    }
  }

  lemma PermutedEventKeys(a: seq<UsageEvent>, b: seq<UsageEvent>)
    requires multiset(a) == multiset(b)
    ensures EventKeys(a) == EventKeys(b)
  {
    forall e ensures e in a <==> e in b {
      assert e in a <==> e in multiset(a);
      assert e in b <==> e in multiset(b);
    }
  }

  /** The query has a row for every (account, date) present in the events
      and for no other. */
  lemma DailyAggregateCoversGroups(events: seq<UsageEvent>)
    ensures DailyKeys(DailyAggregate(events)) == EventKeys(events)
  {
    var sorted := SortBy(events, DateKey);
    SortBySpec(events, DateKey);
    DailyRowsKeys(events, FirstKeys(sorted));
    FirstKeysSpec(sorted);
    PermutedEventKeys(sorted, events);
  }

  /** Sum of the present counts of the events. */
  function TotalCount(events: seq<UsageEvent>): int
  {
    if events == [] then 0 else TotalCount(events[..|events| - 1]) + events[|events| - 1].usageCount.GetOr(0)
  }

  /** Sum of the present daily totals. */
  function TotalDaily(daily: seq<DailyUsage>): int
  {
    if daily == [] then 0 else TotalDaily(daily[..|daily| - 1]) + daily[|daily| - 1].dailyUsage.GetOr(0)
  }

  lemma SqlSumStep(init: seq<UsageEvent>, e: UsageEvent, k: GroupKey)
    ensures SqlSum(init + [e], k).GetOr(0) == SqlSum(init, k).GetOr(0) + (if KeyOf(e) == k then e.usageCount.GetOr(0) else 0)
  {
    assert (init + [e])[..|init|] == init;
  }

  lemma {:induction false} DailyRowsStep(init: seq<UsageEvent>, e: UsageEvent, ks: seq<GroupKey>)
    requires forall i, j :: 0 <= i < j < |ks| ==> ks[i] != ks[j]
    ensures TotalDaily(DailyRows(init + [e], ks))
         == TotalDaily(DailyRows(init, ks)) + (if KeyOf(e) in ks then e.usageCount.GetOr(0) else 0)
  {
    if ks != [] {
      var kp := ks[..|ks| - 1];
      var k := ks[|ks| - 1];
      DailyRowsStep(init, e, kp);
      SqlSumStep(init, e, k);
      assert DailyRows(init + [e], ks)[..|ks| - 1] == DailyRows(init + [e], kp);
      assert DailyRows(init, ks)[..|ks| - 1] == DailyRows(init, kp);
      if KeyOf(e) == k {
        assert KeyOf(e) !in kp;
      }
      assert KeyOf(e) in ks <==> KeyOf(e) in kp || KeyOf(e) == k;
    }
  }

  lemma {:induction false} DailyRowsTotal(events: seq<UsageEvent>, ks: seq<GroupKey>)
    requires forall i, j :: 0 <= i < j < |ks| ==> ks[i] != ks[j]
    requires forall e :: e in events ==> KeyOf(e) in ks
    ensures TotalDaily(DailyRows(events, ks)) == TotalCount(events)
  {
    if events == [] {
      DailyRowsEmpty(ks);
    } else {
      var init := events[..|events| - 1];
      var e := events[|events| - 1];
      DailyRowsTotal(init, ks);
      assert events == init + [e];
      DailyRowsStep(init, e, ks);
    }
  }

  lemma {:induction false} DailyRowsEmpty(ks: seq<GroupKey>)
    ensures TotalDaily(DailyRows([], ks)) == 0
  {
    if ks != [] {
      DailyRowsEmpty(ks[..|ks| - 1]);
      assert DailyRows([], ks)[..|ks| - 1] == DailyRows([], ks[..|ks| - 1]);
    }
  }

  /** Grouping neither loses nor invents usage: the daily totals add up to
      the sum of all present event counts. */
  lemma DailyAggregateConserves(events: seq<UsageEvent>)
    ensures TotalDaily(DailyAggregate(events)) == TotalCount(events)
  {
    var sorted := SortBy(events, DateKey);
    SortBySpec(events, DateKey);
    FirstKeysSpec(sorted);
    forall e | e in events ensures KeyOf(e) in FirstKeys(sorted) {
      assert e in multiset(sorted);
    }
    DailyRowsTotal(events, FirstKeys(sorted));
  }

  /** `SUM` is NULL exactly when the group has no non-null count. */
  lemma {:induction false} SqlSumNull(events: seq<UsageEvent>, k: GroupKey)
    ensures SqlSum(events, k).None? <==> forall e :: e in events && KeyOf(e) == k ==> e.usageCount.None?
  {
    if events != [] {
      var init := events[..|events| - 1];
      SqlSumNull(init, k);
      assert forall e :: e in events <==> e in init || e == events[|events| - 1];
    }
  }

  // ---------------------------------------------------------------------
  // Rolling features

  /** The series of daily usage of account `a`, in table order. */
  function AccountSeries(daily: seq<DailyUsage>, a: string): seq<Option<int>>
  {
    Pick(MapSeq(daily, AccountOf), MapSeq(daily, UsageOf), a)
  }

  /** Position of row `p` within its account's rows. */
  function AccountRank(daily: seq<DailyUsage>, p: nat): nat
    requires p < |daily|
  {
    Rank(MapSeq(daily, AccountOf), p)
  }

  lemma FeatureAt(daily: seq<DailyUsage>, p: nat)
    requires p < |daily|
    ensures AccountRank(daily, p) < |AccountSeries(daily, daily[p].accountId)|
    ensures AccountSeries(daily, daily[p].accountId)[AccountRank(daily, p)] == daily[p].dailyUsage
    ensures EngineerFeatures(daily)[p].usage7dAvg
         == Mean7(AccountSeries(daily, daily[p].accountId))[AccountRank(daily, p)]
    ensures EngineerFeatures(daily)[p].usage30dAvg
         == Mean30(AccountSeries(daily, daily[p].accountId))[AccountRank(daily, p)]
  {
    PickAt(MapSeq(daily, AccountOf), MapSeq(daily, UsageOf), p);
  }

  /** At the j-th row of an account, `usage_7d_avg` is the mean of that
      account's rows max(0, j - 6) .. j, and it is present whenever the
      row's own daily usage is. */
  lemma SevenDayAverage(daily: seq<DailyUsage>, p: nat)
    requires p < |daily|
    ensures var s, j := AccountSeries(daily, daily[p].accountId), AccountRank(daily, p);
      j < |s| && s[j] == daily[p].dailyUsage
      && EngineerFeatures(daily)[p].usage7dAvg == WindowMean(s[if j >= 6 then j - 6 else 0 .. j + 1], 1)
    ensures daily[p].dailyUsage.Some? ==> EngineerFeatures(daily)[p].usage7dAvg.Some?
  {
    FeatureAt(daily, p);
    var s, j := AccountSeries(daily, daily[p].accountId), AccountRank(daily, p);
    RollingMeanAnyPresent(s, 7, j);
  }

  /** `usage_30d_avg` is missing for an account's first 29 rows; from the
      30th row on it is the mean of rows j - 29 .. j, present exactly when
      all thirty daily usages are. */
  lemma ThirtyDayAverage(daily: seq<DailyUsage>, p: nat)
    requires p < |daily|
    ensures var s, j := AccountSeries(daily, daily[p].accountId), AccountRank(daily, p);
      j < |s|
      && (j < 29 ==> EngineerFeatures(daily)[p].usage30dAvg.None?)
      && (j >= 29 ==> EngineerFeatures(daily)[p].usage30dAvg == WindowMean(s[j - 29 .. j + 1], 30))
      && (EngineerFeatures(daily)[p].usage30dAvg.Some? <==> j >= 29 && forall i :: j - 29 <= i <= j ==> s[i].Some?)
  {
    FeatureAt(daily, p);
    var s, j := AccountSeries(daily, daily[p].accountId), AccountRank(daily, p);
    RollingMeanFullWindow(s, 30, j);
  }

  /** The drop rate is the 7-row mean over the 30-row mean plus 1e-9; it is
      missing exactly when one of them is (so, for a row with a daily usage,
      exactly when the 30-row mean is), and a non-negative 30-row mean gives
      a positive denominator. */
  lemma DropRateSpec(daily: seq<DailyUsage>, p: nat)
    requires p < |daily|
    ensures var r := EngineerFeatures(daily)[p];
      (r.usageDropRate.Some? <==> r.usage7dAvg.Some? && r.usage30dAvg.Some?)
      && (r.usageDropRate.Some? ==> r.usageDropRate.value * (r.usage30dAvg.value + Eps) == r.usage7dAvg.value)
      && (r.usage30dAvg.Some? && r.usage30dAvg.value >= 0.0 ==> r.usage30dAvg.value + Eps > 0.0)
    ensures daily[p].dailyUsage.Some? ==>
      (EngineerFeatures(daily)[p].usageDropRate.None? <==> EngineerFeatures(daily)[p].usage30dAvg.None?)
  {
    SevenDayAverage(daily, p);
    var keys, vals := MapSeq(daily, AccountOf), MapSeq(daily, UsageOf);
    Mean30Denominator(keys, vals, p);
  }

  /** When an account's daily usages lie in [lo, hi], so do both of its
      averages; with non-negative usage the drop rate is non-negative. */
  lemma FeatureBounds(daily: seq<DailyUsage>, p: nat, lo: real, hi: real)
    requires p < |daily|
    requires var s := AccountSeries(daily, daily[p].accountId);
      forall i :: 0 <= i < |s| && s[i].Some? ==> lo <= s[i].value as real <= hi
    ensures var r := EngineerFeatures(daily)[p];
      (r.usage7dAvg.Some? ==> lo <= r.usage7dAvg.value <= hi)
      && (r.usage30dAvg.Some? ==> lo <= r.usage30dAvg.value <= hi)
      && (lo >= 0.0 && r.usageDropRate.Some? ==> r.usageDropRate.value >= 0.0)
  {
    FeatureAt(daily, p);
    var s, j := AccountSeries(daily, daily[p].accountId), AccountRank(daily, p);
    var r := EngineerFeatures(daily)[p];
    var t7, t30 := Trailing(s, j, 7), Trailing(s, j, 30);
    assert forall i :: 0 <= i < |t7| ==> t7[i] in s;
    assert forall i :: 0 <= i < |t30| ==> t30[i] in s;
    if r.usage7dAvg.Some? {
      MeanWithinBounds(t7, 1, lo, hi);
    }
    if r.usage30dAvg.Some? {
      MeanWithinBounds(t30, 30, lo, hi);
    }
    DropRateSpec(daily, p);
    if lo >= 0.0 && r.usageDropRate.Some? {
      var a, b := r.usage7dAvg.value, r.usage30dAvg.value + Eps;
      assert a >= 0.0 && b > 0.0;
      assert r.usageDropRate.value == a / b;
    }
  }

  /** An account's features are the features of its own rows alone:
      keeping one account before or after the computation gives the same rows. */
  lemma FeaturesPerAccount(daily: seq<DailyUsage>, a: string)
    ensures Pick(MapSeq(daily, AccountOf), EngineerFeatures(daily), a)
         == EngineerFeatures(Pick(MapSeq(daily, AccountOf), daily, a))
  {
    var keys, vals := MapSeq(daily, AccountOf), MapSeq(daily, UsageOf);
    var da := Pick(keys, daily, a);
    var f, g := EngineerFeatures(daily), EngineerFeatures(da);
    PickMap(keys, daily, AccountOf, a);
    PickMap(keys, daily, UsageOf, a);
    TransformCommutesWithFilter(keys, vals, Mean7, a);
    TransformCommutesWithFilter(keys, vals, Mean30, a);
    var m7, m30 := GroupTransform(keys, vals, Mean7), GroupTransform(keys, vals, Mean30);
    forall p | 0 <= p < |keys| && keys[p] == a
      ensures Rank(keys, p) < |g| && f[p] == g[Rank(keys, p)]
    {
      PickAt(keys, daily, p);
      PickAt(keys, m7, p);
      PickAt(keys, m30, p);
    }
    PickUnique(keys, f, a, g);
  }

  /** Windows count rows, not days: two tables that differ only in their
      dates have the same averages and drop rates row by row. */
  lemma WindowsIgnoreDates(d1: seq<DailyUsage>, d2: seq<DailyUsage>)
    requires |d1| == |d2|
    requires forall i :: 0 <= i < |d1| ==> d1[i].accountId == d2[i].accountId && d1[i].dailyUsage == d2[i].dailyUsage
    ensures forall i :: 0 <= i < |d1| ==>
      EngineerFeatures(d1)[i].usage7dAvg == EngineerFeatures(d2)[i].usage7dAvg
      && EngineerFeatures(d1)[i].usage30dAvg == EngineerFeatures(d2)[i].usage30dAvg
      && EngineerFeatures(d1)[i].usageDropRate == EngineerFeatures(d2)[i].usageDropRate
  {
    forall i | 0 <= i < |d1|
      ensures MapSeq(d1, AccountOf)[i] == MapSeq(d2, AccountOf)[i] && MapSeq(d1, UsageOf)[i] == MapSeq(d2, UsageOf)[i]
    {
      assert MapSeq(d1, AccountOf)[i] == AccountOf(d1[i]) && MapSeq(d2, AccountOf)[i] == AccountOf(d2[i]);
      assert MapSeq(d1, UsageOf)[i] == UsageOf(d1[i]) && MapSeq(d2, UsageOf)[i] == UsageOf(d2[i]);
    }
    assert MapSeq(d1, AccountOf) == MapSeq(d2, AccountOf);
    assert MapSeq(d1, UsageOf) == MapSeq(d2, UsageOf);
  }
}
