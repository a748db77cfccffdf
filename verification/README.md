# Silent-churn data pipeline: validation, features and labels

This project models the three data transformations at the heart of the
silent-churn pipeline and proves properties of them:

- **Batch validation** (`validate_data_quality`). A day's batch of usage
  events is checked against four row rules:
  - null critical fields;
  - a usage date that is not the batch date;
  - a negative counter;
  - a feature name that is null or not a string.

  The flagged rows from all four rules are concatenated and
  de-duplicated on every column, including a helper date column that
  the null-field set lacks. That set is the quarantine. The rows whose index
  it holds are dropped from the batch, in order, to give the clean rows.
- **Feature engineering** (`extract_and_engineering_features`). Usage is
  summed per (account, date) with SQL `SUM` semantics, and the result rows
  come in date order. Within each account the model then computes:
  - a trailing 7-row mean (at least one observation);
  - a trailing 30-row mean (all thirty observations);
  - the drop rate, 7-row mean / (30-row mean + 1e-9).
- **Behavioural labelling** (`apply_behavioral_labeling`). Rows are sorted
  by (account, date). A row's target is 1 when:
  - its drop rate is below 0.85; and
  - within the account, the maximum drop rate over one of three forward
    windows stays low: `shift(-k).rolling(k, min_periods=1).max()` for
    k = 7, 14, 30, against 0.85, 0.90 and 0.95.

Modules:

- `Basics` holds `Option` and `Result`.
- `Ordering` holds the text and key orders and a stable sort.
- `Grouping` models the pandas group-by transform. It takes one group's
  rows with `Pick` and a row's position in its group with `Rank`.
- `Rolling` holds the rolling means and maxima, `shift`, and the explicit
  forward window.
- `Dates` holds calendar dates, `%Y-%m-%d` formatting and a strict ISO
  reader.
- `DataQuality`, `FeaturePipeline` and `Labeler` model the three
  operations.

Shared conventions:

- A missing value (SQL NULL, pandas NaN/None) is `None`.
- Floating-point values are `real`.
- Dates after validation stay text, so the date order is the code-point
  order of the strings.

## Model

| member | source | states |
|---|---|---|
| DataQuality.ValidateDataQuality | src/ingestion/data_quality.py:10-63 | The call succeeds iff every expected column is present and every non-null date parses. A missing-columns error names exactly the absent expected columns. A missing critical column always fails. An unparseable-date error carries the first date of the batch that the parser rejects. |
| DataQuality.FirstUnparseable | src/ingestion/data_quality.py:37 | None iff every non-null date from `from` on parses. Otherwise it returns a date of some row i at or after `from` that the parser rejects, and every non-null date between `from` and i parses: the first rejected one. |
| DataQuality.FirstBadDateReported | src/ingestion/data_quality.py:37 | With unreadable dates "x" then "y", the batch fails on "x". |
| DataQuality.QuarantinedIff | src/ingestion/data_quality.py:56-63 | Row i is quarantined (its index is among the faulty entries) iff some rule flags it and no earlier row has the same values. This holds whether de-duplication compares every column or the event columns only. |
| DataQuality.QuarantineEntries | src/ingestion/data_quality.py:34-61 | Every quarantined entry carries the input row at its index, and a helper cell of some rule that flags it. No two quarantined entries agree on both row and helper cell. |
| DataQuality.QuarantineCopies | src/ingestion/data_quality.py:34-61 | A first-occurrence row is quarantined with a NaT helper iff a null field flags it, or its date is unreadable and some rule flags it. It is quarantined with its parsed date iff the date, logic or feature-name rule flags it. It has no other entries. |
| DataQuality.NullFieldRowWrittenTwice | src/ingestion/data_quality.py:34-74 | A first-occurrence row with a null critical field and a readable date, also flagged by another rule, appears twice in the quarantine file. |
| DataQuality.NullNameScenario | src/ingestion/data_quality.py:34-74 | A one-row batch whose feature name is null gives no clean row and a quarantine file holding that row twice. |
| DataQuality.NullNameOnce | src/ingestion/data_quality.py:56-61 | Comparing event columns only writes that row once. |
| DataQuality.SplitOnce | src/ingestion/data_quality.py:56-63 | De-duplicating on the event columns yields the validator's clean rows and quarantined indices, and writes no index twice. |
| DataQuality.RepeatedFaultyRowStaysClean | src/ingestion/data_quality.py:61-63 | A later copy of a flagged row is not quarantined: it stays in the clean rows. |
| DataQuality.SplitPartitions | src/ingestion/data_quality.py:56-63 | The clean count plus the number of quarantined indices equals the batch size. The clean rows are the input rows at the unquarantined positions, in increasing position order, so order and repeats are kept. Every row not quarantined is clean, and every clean row is an unquarantined input row. |
| DataQuality.DropIndicesSpec | src/ingestion/data_quality.py:63 | `drop` returns the input read at the undropped positions, in increasing order. Its length is n minus the number of dropped indices below n. Every kept row is an undropped input row, and every undropped input row is kept. |
| DataQuality.KeptPositions | src/ingestion/data_quality.py:63 | The positions below n outside the dropped set, strictly increasing. |
| DataQuality.DropDuplicatesMember | src/ingestion/data_quality.py:61 | An entry survives de-duplication iff no earlier entry has the same compared cells. With every column compared, those are the row and the helper date. |
| DataQuality.DropDuplicatesDistinct | src/ingestion/data_quality.py:61 | After de-duplication no two entries share their compared cells. |
| DataQuality.ConcatMember | src/ingestion/data_quality.py:34-60 | An entry of the concatenated flagged frames is an input row at its own index. Some rule flags it, and the entry holds that rule's helper cell: NaT for the null-field frame, otherwise the parsed date. |
| DataQuality.ConcatComplete | src/ingestion/data_quality.py:34-60 | Every rule that flags a row contributes that row to the concatenation, with the rule's helper cell. |
| DataQuality.NothingFlaggedKeepsBatch | src/ingestion/data_quality.py:63-70 | With no flagged row the clean rows equal the input and no quarantine file is written. |
| DataQuality.QuarantineOutput | src/ingestion/data_quality.py:65-74 | No quarantine output iff nothing was quarantined. Otherwise it holds one line per quarantined entry, in order, with the helper column dropped. |
| DataQuality.RuleViolationQuarantined | src/ingestion/data_quality.py:32-52 | A row with a null critical field, a wrong or null date, a negative counter, or a bad feature name is quarantined unless an earlier row has the same values. |
| DataQuality.NullCountersPass | src/ingestion/data_quality.py:32-47 | A row with present critical fields, the batch date, a string feature name and all counters null is not flagged. |
| DataQuality.IsoDateRule | src/ingestion/data_quality.py:37-38 | With the strict ISO reader, a row has a wrong date iff its date text differs from the batch date. |
| DataQuality.NegativeCountRules | src/ingestion/data_quality.py:32-52 | For batch date 2024-01-01, a good row breaks no rule. A row for 2024-01-02 with usage count -1 breaks the date and logical rules only, and its helper cell is 2024-01-02. |
| DataQuality.NegativeCountFlags | src/ingestion/data_quality.py:34-60 | The concatenation holds that row twice (date frame and logic frame), with the same helper date. |
| DataQuality.NegativeCountSplit | src/ingestion/data_quality.py:56-63 | De-duplication keeps one of the two entries. The batch splits into the good row as clean and the other row quarantined once, under index 1. |
| DataQuality.NegativeCountScenario | src/ingestion/data_quality.py:10-63 | The whole validation of that batch succeeds with that split. |
| Dates.Format | src/ingestion/data_quality.py:38 | `%Y-%m-%d` writes ten characters with dashes at positions 4 and 7. |
| Dates.FormatThenParse | src/ingestion/data_quality.py:37-38 | Reading back a formatted date gives the same date. |
| Dates.ParseThenFormat | src/ingestion/data_quality.py:37-38 | A text the strict reader accepts is exactly the format of its date. |
| Dates.FormatInjective | src/ingestion/data_quality.py:38 | Distinct dates format to distinct texts. |
| FeaturePipeline.DailyAggregateInDateOrder | src/features/feature_pipeline.py:12-16 | The query's rows come in non-decreasing date order. |
| FeaturePipeline.DailyAggregateDistinct | src/features/feature_pipeline.py:12-16 | No two query rows share an (account, date). |
| FeaturePipeline.DailyAggregateCoversGroups | src/features/feature_pipeline.py:12-16 | The query's (account, date) pairs are exactly those present in the events. |
| FeaturePipeline.DailyAggregateConserves | src/features/feature_pipeline.py:13 | The present daily totals add up to the present usage counts of all events. |
| FeaturePipeline.DailyRows | src/features/feature_pipeline.py:13-15 | One row per group key, carrying that key and the SQL sum of its events. |
| FeaturePipeline.SqlSumNull | src/features/feature_pipeline.py:13 | A group's sum is NULL iff every count in the group is NULL. |
| FeaturePipeline.SevenDayAverage | src/features/feature_pipeline.py:23-25 | At the j-th row of an account, the 7-row average is the mean over that account's rows max(0, j-6)..j. It is present whenever the row's usage is. |
| FeaturePipeline.ThirtyDayAverage | src/features/feature_pipeline.py:27-29 | The 30-row average is missing for an account's first 29 rows. After that it is the mean of rows j-29..j, present iff all thirty usages are. |
| FeaturePipeline.DropRateSpec | src/features/feature_pipeline.py:32 | The drop rate times (30-row mean + 1e-9) equals the 7-row mean. It is present iff both means are. A non-negative 30-row mean gives a positive denominator. |
| FeaturePipeline.MeanPlusEpsNonZero | src/features/feature_pipeline.py:28-32 | A mean of at most thirty integers plus 1e-9 is never zero, so the ratio is always defined. |
| FeaturePipeline.FeatureBounds | src/features/feature_pipeline.py:24-32 | If an account's usages lie in [lo, hi], so do both averages. With non-negative usage the drop rate is non-negative. |
| FeaturePipeline.FeaturesPerAccount | src/features/feature_pipeline.py:23-29 | An account's feature rows equal the features of its own rows computed alone: windows never mix accounts. |
| FeaturePipeline.WindowsIgnoreDates | src/features/feature_pipeline.py:23-32 | Two tables with the same accounts and usages in the same order get the same averages and drop rates, whatever their dates: windows count rows, not days. |
| FeaturePipeline.EngineerFeatures | src/features/feature_pipeline.py:22-34 | Each output row keeps its input row's account, date and daily usage. |
| FeaturePipeline.ExtractAndEngineerFeatures | src/features/feature_pipeline.py:8-34 | The feature rows come in date order. They have distinct (account, date) pairs, and those pairs are exactly the ones in the events. |
| Ordering.SortBySpec | src/labeling/labeler.py:14 | Sorting is a permutation and its result is ordered by the key. |
| Ordering.SortByStable | src/labeling/labeler.py:14 | For every key, the elements with that key appear in the sorted output in their input order. |
| Ordering.KeyLeqTrans | src/labeling/labeler.py:14 | The (account, date) order is transitive. |
| Ordering.KeyLeqTotal | src/labeling/labeler.py:14 | The (account, date) order is total. |
| Grouping.TransformPerGroup | src/features/feature_pipeline.py:23-29 | A group-by transform, restricted to one group, is the function applied to that group's values alone. |
| Grouping.TransformCommutesWithFilter | src/labeling/labeler.py:22-34 | Keeping one group after a transform equals transforming that group alone. |
| Grouping.PickAt | src/features/feature_pipeline.py:23 | Row p is the Rank(p)-th row of its group. |
| Rolling.WindowMax | src/labeling/labeler.py:23 | The maximum is missing iff every value in the window is missing; otherwise it is a present value bounding all present values. |
| Rolling.ForwardMaxWindow | src/labeling/labeler.py:22-34 | `shift(-k).rolling(k, min_periods=1).max()` at position i is the maximum over positions max(i+1, k)..min(i+k, n-1). |
| Rolling.ForwardWindowPositions | src/labeling/labeler.py:22-34 | The forward window starts after row i. Once i >= k-1 it is the next k rows, cut at the end. It is empty for the last row. |
| Rolling.RollingMeanAnyPresent | src/features/feature_pipeline.py:24 | With min_periods 1 the mean is present iff its window holds a present value. |
| Rolling.RollingMeanFullWindow | src/features/feature_pipeline.py:28 | With min_periods w the mean is present iff the window is full and every value in it is present. |
| Rolling.MeanWithinBounds | src/features/feature_pipeline.py:24-28 | A window mean lies between bounds of its present values. |
| Labeler.ApplyBehavioralLabeling | src/labeling/labeler.py:11-49 | The output's feature rows are a permutation of the input sorted by (account, date). Rows with equal keys keep their input order. Every target is 0 or 1. |
| Labeler.SeriesTargetRule | src/labeling/labeler.py:18-45 | On one account series, target 1 iff the row's rate is below 0.85 and the window maximum for k = 7, 14 or 30 is below 0.85, 0.90 or 0.95. |
| Labeler.TargetRule | src/labeling/labeler.py:18-45 | A row's target is that rule applied at its position in its account's series. |
| Labeler.TargetImpliesAtRisk | src/labeling/labeler.py:18-45 | Target 1 implies the row's own drop rate is present and below 0.85. |
| Labeler.LastRowOfAccountIsZero | src/labeling/labeler.py:22-45 | The last row of every account has target 0. |
| Labeler.TargetsPerAccount | src/labeling/labeler.py:22-45 | An account's targets are those its own drop-rate series gets alone. |
| Labeler.LabelsPerAccount | src/labeling/labeler.py:22-45 | Labelling everything and keeping one account equals labelling that account alone. |
| Labeler.SingleDipGetsNoTarget | src/labeling/labeler.py:22-45 | The series [0.9, 0.9, 0.9, 0.80, 0.9, 0.9, 0.9, 0.9] gets target 0 everywhere. |
| Labeler.EarlyRowSkipsRecovery | src/labeling/labeler.py:22-24 | Row 0 of [0.80, 0.96, 0.80, …] gets target 1, because its 7-row window starts at row 7 and misses the recovery at row 1. |
| DataQuality.HasNullCritical | src/ingestion/data_quality.py:32-34 | Account, date or feature name is null. ConcatMember, ConcatComplete and RuleViolationQuarantined state its effect. |
| DataQuality.HasWrongDate | src/ingestion/data_quality.py:37-39 | The date is null, unreadable, or formats to a text other than the batch date. IsoDateRule: with the strict reader, iff the text differs from the batch date. |
| DataQuality.HasNegativeCounter | src/ingestion/data_quality.py:42-47 | Some present counter is below zero. NullCountersPass: null counters never flag. |
| DataQuality.HasBadFeatureName | src/ingestion/data_quality.py:51-52 | The feature name is null or not a string. NullCountersPass and NullNameRules state it on rows. |
| DataQuality.Select | src/ingestion/data_quality.py:34-52 | SelectMember: exactly the rows the rule flags, at their indices, with the rule's helper cell. SelectEarlier: in index order. |
| DataQuality.Concat | src/ingestion/data_quality.py:56-60 | ConcatMember, ConcatComplete: the four selections in rule order. ConcatEarlier: an earlier copy of a row precedes it with the same helper cell. |
| DataQuality.DropDuplicates | src/ingestion/data_quality.py:61 | DropDuplicatesMember and DropDuplicatesDistinct: the first entry of each distinct value of the compared cells. |
| DataQuality.DropIndices | src/ingestion/data_quality.py:63 | DropIndicesSpec: the rows at undropped positions, in order. |
| DataQuality.Split | src/ingestion/data_quality.py:56-63 | QuarantinedIff, QuarantineEntries, QuarantineCopies and SplitPartitions state the split. |
| FeaturePipeline.SqlSum | src/features/feature_pipeline.py:13 | SqlSumNull: NULL iff every count in the group is NULL. DailyAggregateConserves: present sums add up. |
| FeaturePipeline.DailyAggregate | src/features/feature_pipeline.py:12-16 | DailyAggregateInDateOrder, DailyAggregateDistinct, DailyAggregateCoversGroups and DailyAggregateConserves. |
| FeaturePipeline.Mean7 | src/features/feature_pipeline.py:23-25 | SevenDayAverage: the per-account trailing mean over up to seven rows. |
| FeaturePipeline.Mean30 | src/features/feature_pipeline.py:27-29 | ThirtyDayAverage: the per-account trailing mean over exactly thirty rows. |
| FeaturePipeline.DropRate | src/features/feature_pipeline.py:32 | DropRateSpec and MeanPlusEpsNonZero: 7-row mean over (30-row mean + 1e-9), present iff both are. |
| Rolling.WindowMean | src/features/feature_pipeline.py:24-28 | MeanWithinBounds: between bounds of the present values. RollingMeanAnyPresent and RollingMeanFullWindow: when it is present. |
| Rolling.RollingMean | src/features/feature_pipeline.py:24-28 | RollingMeanAnyPresent and RollingMeanFullWindow: the trailing window mean with min_periods. |
| Rolling.RollingMax | src/labeling/labeler.py:23 | WindowMax and ForwardMaxWindow: the trailing window maximum with min_periods 1. |
| Rolling.Shift | src/labeling/labeler.py:23 | ForwardMaxWindow: values move k places up, with missing values filling the end. |
| Rolling.ForwardMax | src/labeling/labeler.py:22-34 | ForwardMaxWindow: the maximum over the explicit forward window. |
| Rolling.ForwardWindow | src/labeling/labeler.py:22-34 | ForwardWindowPositions: starts after row i, the next k rows once i >= k-1, empty at the end. |
| Grouping.GroupTransform | src/features/feature_pipeline.py:23-29 | TransformPerGroup and TransformCommutesWithFilter: each group is transformed on its own values alone. |
| Ordering.SortBy | src/labeling/labeler.py:14 | SortBySpec and SortByStable: a stable permutation ordered by the key. |
| Labeler.Target | src/labeling/labeler.py:38-45 | SeriesTargetRule and TargetImpliesAtRisk: 1 iff at risk and one forward maximum is below its threshold. |
| Labeler.LabelSorted | src/labeling/labeler.py:18-45 | TargetRule and LabelsPerAccount: each row keeps its features and gets its account series' target. |
| Labeler.SeriesTargets | src/labeling/labeler.py:18-45 | SeriesTargetRule and TargetsPerAccount: the targets of one account series. |
| Dates.IsoParse | src/ingestion/data_quality.py:37 | FormatThenParse and ParseThenFormat: the strict reader inverts `%Y-%m-%d` formatting. |

## Left out

- File I/O. The model leaves out quarantine directory creation, the CSV writes, raw-file deletion and the progress prints of the validator (data_quality.py lines 12-13, 29, 69-89, apart from the two CSV contents). The clean frame, which the function both writes to the processed CSV and returns (lines 81 and 91), is modelled as `Validated.clean`. The quarantine CSV (line 74) is modelled as `QuarantineOutput`, which is absent when nothing was quarantined.
- The `usage_date_dt` helper column is modelled as the `dt` cell of each quarantined entry, because it takes part in de-duplication. Adding it to the caller's own frame in place (data_quality.py line 37) is not modelled. The caller's frame is a value here.
- `pd.to_datetime` is a parameter of the validator (`Parser`). The model does not capture column-wide format inference. A strict ISO reader (`Dates.IsoParse`) is given with round-trip lemmas.
- The database read (feature_pipeline.py lines 10, 18-19), `save_features` and `run_labeling_pipeline` are not modelled. The events table is a parameter and the results are returned.
- `DailyAggregate` orders rows with the same date by the account's first appearance in date order. SQL leaves that tie order unspecified.
- Date text is ordered by code point. A database collation may order some texts differently.
- Pandas `groupby` drops NULL account keys, and such rows could reach the events table as duplicates of a quarantined row. Events in the model always have a non-null account and date.
- Frames are assumed to have the default integer index 0..n-1. A frame with repeated index labels would make `drop` remove more rows than the model does.
- DataQuality.ValidateDataQuality: does not model dtype-dependent failures: comparing a non-numeric counter with 0 would raise, while the model's counters are integers or null.
- Dates.IsoParse: accepts only the four-digit `YYYY-MM-DD` form, and every year from 0 to 9999. pandas' nanosecond timestamps reject dates outside roughly 1677 to 2262, and the model does not capture that bound.
- IEEE floating point is modelled as exact reals. The model covers no rounding, infinities or NaN beyond "missing".
- The rest of the repository is not part of this model:
  - data generation, which is random sampling;
  - daily partitioning, which is file I/O;
  - the Prefect flows;
  - the database loader;
  - model training and inference.

## Findings

| source | as written | input that shows it | evidently intended | confidence | as-written member | corrected member |
|---|---|---|---|---|---|---|
| src/ingestion/data_quality.py:34-74 | The null-field frame is taken (line 34) before the `usage_date_dt` column is added (line 37). After `pd.concat` its rows hold NaT in that column, while the date, logic and feature-name frames hold the parsed date. `drop_duplicates()` compares every column, so a row that both kinds of rule flag keeps two entries. Both are written to the quarantine file once the helper column is dropped (lines 65-74). | batch date 2024-01-01 and one row (A, 2024-01-01, feature name null, 1, 30, 0) | each faulty row quarantined once; the clean rows are unaffected either way | medium, not executed | DataQuality.NullNameScenario | DataQuality.SplitOnce |
