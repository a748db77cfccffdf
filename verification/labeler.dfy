/** Behavioural labelling: rows are sorted by (account, date); a row is at
    risk when its drop rate is below 0.85, and its target is 1 when it is at
    risk and the account's drop rate stays low over one of three forward
    windows (max below 0.85 over the next 7 rows, below 0.90 over 14, or
    below 0.95 over 30). Each window is `shift(-k).rolling(k).max()` within
    the account. */
module Labeler {
  import opened Basics
  import opened Ordering
  import opened Grouping
  import opened Rolling
  import opened FeaturePipeline

  /** A feature row with its label; the helper columns are not kept. */
  datatype LabeledRow = LabeledRow(features: FeatureRow, target: int)

  const RiskThreshold: real := 0.85
  const Threshold7: real := 0.85
  const Threshold14: real := 0.90
  const Threshold30: real := 0.95

  function SortKey(r: FeatureRow): seq<string>
  {
    [r.accountId, r.usageDate]
  }

  function RowAccount(r: FeatureRow): string
  {
    r.accountId
  }

  function RowDropRate(r: FeatureRow): Option<real>
  {
    r.usageDropRate
  }

  function FeaturesOf(l: LabeledRow): FeatureRow
  {
    l.features
  }

  function TargetOf(l: LabeledRow): int
  {
    l.target
  }

  /** `x < t` on a nullable float: false against NaN. */
  predicate Below(x: Option<real>, t: real)
  {
    x.Some? && x.value < t
  }

  function Next7(x: seq<Option<real>>): (r: seq<Option<real>>)
    ensures |r| == |x|
  {
    ForwardMax(x, 7)
  }

  function Next14(x: seq<Option<real>>): (r: seq<Option<real>>)
    ensures |r| == |x|
  {
    ForwardMax(x, 14)
  }

  function Next30(x: seq<Option<real>>): (r: seq<Option<real>>)
    ensures |r| == |x|
  {
    ForwardMax(x, 30)
  }

  /** The final labelling rule on one row. */
  function Target(rate: Option<real>, max7: Option<real>, max14: Option<real>, max30: Option<real>): int
  {
    if Below(rate, RiskThreshold) && (Below(max7, Threshold7) || Below(max14, Threshold14) || Below(max30, Threshold30))
    then 1 else 0
  }

  /** The labelling of a table already in (account, date) order. */
  function LabelSorted(rows: seq<FeatureRow>): (r: seq<LabeledRow>)
    ensures |r| == |rows|
    ensures forall i :: 0 <= i < |rows| ==> r[i].features == rows[i]
  {
    var keys := MapSeq(rows, RowAccount);
    var rates := MapSeq(rows, RowDropRate);
    var m7 := GroupTransform(keys, rates, Next7);
    var m14 := GroupTransform(keys, rates, Next14);
    var m30 := GroupTransform(keys, rates, Next30);
    seq(|rows|, i requires 0 <= i < |rows| => LabeledRow(rows[i], Target(rates[i], m7[i], m14[i], m30[i])))
  }

  /** `apply_behavioral_labeling(df)`: the input rows, reordered by
      (account, date) with rows of equal key in their input order, each
      with a 0/1 target. */
  function ApplyBehavioralLabeling(rows: seq<FeatureRow>): (r: seq<LabeledRow>)
    ensures |r| == |rows|
    ensures multiset(MapSeq(r, FeaturesOf)) == multiset(rows)
    ensures SortedBy(MapSeq(r, FeaturesOf), SortKey)
    ensures forall k :: WithKey(MapSeq(r, FeaturesOf), SortKey, k) == WithKey(rows, SortKey, k)
    ensures forall i :: 0 <= i < |r| ==> r[i].target == 0 || r[i].target == 1
  {
    var sorted := SortBy(rows, SortKey);
    SortBySpec(rows, SortKey);
    forall k ensures WithKey(sorted, SortKey, k) == WithKey(rows, SortKey, k) {
      SortByStable(rows, SortKey, k);
    }
    var r := LabelSorted(sorted);
    assert MapSeq(r, FeaturesOf) == sorted;
    r
  }

  /** The targets one account series receives on its own. */
  function SeriesTargets(rates: seq<Option<real>>): (t: seq<int>)
    ensures |t| == |rates|
  {
    var m7, m14, m30 := Next7(rates), Next14(rates), Next30(rates);
    seq(|rates|, i requires 0 <= i < |rates| => Target(rates[i], m7[i], m14[i], m30[i]))
  }

  // ---------------------------------------------------------------------
  // Proofs

  /** On one account series: the target at position j is 1 exactly when
      s[j] is below 0.85 and the largest present rate in one of the windows
      s[max(j+1, k) .. min(j+k, |s|-1)] is below that window's threshold
      (0.85, 0.90, 0.95 for k = 7, 14, 30). */
  lemma SeriesTargetRule(s: seq<Option<real>>, j: nat)
    requires j < |s|
    ensures SeriesTargets(s)[j] == 1 <==>
      Below(s[j], 0.85)
      && (Below(WindowMax(ForwardWindow(s, j, 7)), 0.85)
          || Below(WindowMax(ForwardWindow(s, j, 14)), 0.90)
          || Below(WindowMax(ForwardWindow(s, j, 30)), 0.95))
  {
    ForwardMaxWindow(s, 7, j);
    ForwardMaxWindow(s, 14, j);
    ForwardMaxWindow(s, 30, j);
  }

  /** A row's target, read off its account's drop-rate series `s` at its
      position `j` there, by the rule of SeriesTargetRule. */
  lemma TargetRule(rows: seq<FeatureRow>, i: nat)
    requires i < |rows|
    ensures var keys, rates := MapSeq(rows, RowAccount), MapSeq(rows, RowDropRate);
      var s, j := Pick(keys, rates, rows[i].accountId), Rank(keys, i);
      j < |s| && s[j] == rows[i].usageDropRate
      && (LabelSorted(rows)[i].target == 1 <==>
            Below(rows[i].usageDropRate, 0.85)
            && (Below(WindowMax(ForwardWindow(s, j, 7)), 0.85)
                || Below(WindowMax(ForwardWindow(s, j, 14)), 0.90)
                || Below(WindowMax(ForwardWindow(s, j, 30)), 0.95)))
  {
    var keys, rates := MapSeq(rows, RowAccount), MapSeq(rows, RowDropRate);
    var targets := MapSeq(LabelSorted(rows), TargetOf);
    assert keys[i] == rows[i].accountId;
    var s, j := Pick(keys, rates, rows[i].accountId), Rank(keys, i);
    PickAt(keys, rates, i);
    PickAt(keys, targets, i);
    TargetsPerAccount(rows, rows[i].accountId);
    SeriesTargetRule(s, j);
  }

  /** A target of 1 needs the row itself to be at risk. */
  lemma TargetImpliesAtRisk(rows: seq<FeatureRow>, i: nat)
    requires i < |rows| && LabelSorted(rows)[i].target == 1
    ensures rows[i].usageDropRate.Some? && rows[i].usageDropRate.value < 0.85
  {
    assert MapSeq(rows, RowDropRate)[i] == rows[i].usageDropRate;
  }

  /** The last row of every account gets target 0: all three windows are
      empty. */
  lemma LastRowOfAccountIsZero(rows: seq<FeatureRow>, i: nat)
    requires i < |rows|
    requires forall q :: i < q < |rows| ==> rows[q].accountId != rows[i].accountId
    ensures LabelSorted(rows)[i].target == 0
  {
    var keys, rates := MapSeq(rows, RowAccount), MapSeq(rows, RowDropRate);
    var s, j := Pick(keys, rates, rows[i].accountId), Rank(keys, i);
    TargetRule(rows, i);
    LastInGroup(keys, rates, i);
    ForwardWindowPositions(s, j, 7);
    ForwardWindowPositions(s, j, 14);
    ForwardWindowPositions(s, j, 30);
  }

  /** A row with no later row of its group is the group's last. */
  lemma {:induction false} LastInGroup<T>(keys: seq<string>, xs: seq<T>, i: nat)
    requires |keys| == |xs| && i < |keys|
    requires forall q :: i < q < |keys| ==> keys[q] != keys[i]
    ensures Rank(keys, i) == |Pick(keys, xs, keys[i])| - 1
    decreases |keys|
  {
    var n := |keys|;
    RankBound(keys, i);
    if i < n - 1 {
      LastInGroup(keys[..n - 1], xs[..n - 1], i);
      assert keys[..n - 1][..i] == keys[..i];
    } else {
      assert keys[..i] == keys[..n - 1];
    }
  }

  /** One account's targets are those its own drop-rate series gets alone:
      no window looks across an account boundary. */
  lemma TargetsPerAccount(rows: seq<FeatureRow>, a: string)
    ensures var keys := MapSeq(rows, RowAccount);
      Pick(keys, MapSeq(LabelSorted(rows), TargetOf), a) == SeriesTargets(Pick(keys, MapSeq(rows, RowDropRate), a))
  {
    var keys, rates := MapSeq(rows, RowAccount), MapSeq(rows, RowDropRate);
    var s := Pick(keys, rates, a);
    var targets := MapSeq(LabelSorted(rows), TargetOf);
    var m7, m14, m30 := GroupTransform(keys, rates, Next7), GroupTransform(keys, rates, Next14), GroupTransform(keys, rates, Next30);
    forall p | 0 <= p < |keys| && keys[p] == a
      ensures Rank(keys, p) < |SeriesTargets(s)| && targets[p] == SeriesTargets(s)[Rank(keys, p)]
    {
      PickAt(keys, rates, p);
    }
    PickUnique(keys, targets, a, SeriesTargets(s));
  }

  /** Labelling the whole table and keeping one account gives the same rows
      as labelling that account's rows alone. */
  lemma LabelsPerAccount(rows: seq<FeatureRow>, a: string)
    ensures Pick(MapSeq(rows, RowAccount), LabelSorted(rows), a)
         == LabelSorted(Pick(MapSeq(rows, RowAccount), rows, a))
  {
    var keys, rates := MapSeq(rows, RowAccount), MapSeq(rows, RowDropRate);
    var ra := Pick(keys, rows, a);
    var f, g := LabelSorted(rows), LabelSorted(ra);
    PickMap(keys, rows, RowAccount, a);
    PickMap(keys, rows, RowDropRate, a);
    TransformCommutesWithFilter(keys, rates, Next7, a);
    TransformCommutesWithFilter(keys, rates, Next14, a);
    TransformCommutesWithFilter(keys, rates, Next30, a);
    var m7, m14, m30 := GroupTransform(keys, rates, Next7), GroupTransform(keys, rates, Next14), GroupTransform(keys, rates, Next30);
    forall p | 0 <= p < |keys| && keys[p] == a
      ensures Rank(keys, p) < |g| && f[p] == g[Rank(keys, p)]
    {
      PickAt(keys, rows, p);
      PickAt(keys, rates, p);
      PickAt(keys, m7, p);
      PickAt(keys, m14, p);
      PickAt(keys, m30, p);
    }
    PickUnique(keys, f, a, g);
  }

  /** Drop-rate series [0.9, 0.9, 0.9, 0.80, 0.9, 0.9, 0.9, 0.9]: only
      row 3 is at risk; its 7-row window is row 7 alone (0.9) and its 14-
      and 30-row windows are empty, so no row gets target 1. */
  lemma SingleDipGetsNoTarget()
    ensures SeriesTargets([Some(0.9), Some(0.9), Some(0.9), Some(0.80), Some(0.9), Some(0.9), Some(0.9), Some(0.9)])
         == [0, 0, 0, 0, 0, 0, 0, 0]
  {
    var s := [Some(0.9), Some(0.9), Some(0.9), Some(0.80), Some(0.9), Some(0.9), Some(0.9), Some(0.9)];
    var t := SeriesTargets(s);
    forall j | 0 <= j < 8 && j != 3 ensures t[j] == 0 {
      SeriesTargetRule(s, j);
      assert s[j] == Some(0.9);
    }
    SeriesTargetRule(s, 3);
    assert ForwardWindow(s, 3, 7) == [Some(0.9)];
    assert ForwardWindow(s, 3, 14) == [] && ForwardWindow(s, 3, 30) == [];
    assert t[3] == 0;
  }

  /** Early rows skip part of their next k rows: in [0.80, 0.96, 0.80,
      0.80, 0.80, 0.80, 0.80, 0.80] the 7-row window of row 0 is row 7
      alone, so row 0 gets target 1 although row 1 has recovered to 0.96;
      without the recovery at row 1 the target would be the same. */
  lemma EarlyRowSkipsRecovery()
    ensures SeriesTargets([Some(0.80), Some(0.96), Some(0.80), Some(0.80), Some(0.80), Some(0.80), Some(0.80), Some(0.80)])[0] == 1
  {
    var s := [Some(0.80), Some(0.96), Some(0.80), Some(0.80), Some(0.80), Some(0.80), Some(0.80), Some(0.80)];
    SeriesTargetRule(s, 0);
    assert ForwardWindow(s, 0, 7) == [Some(0.80)];
  }
}
