/** The batch validator: four per-row rules flag faulty rows; the flagged
    row sets are concatenated, de-duplicated by VALUE (every column,
    including a helper date column the null-field set lacks), and then
    removed from the batch by INDEX. A flagged row whose values repeat an
    earlier flagged row is therefore not quarantined and stays in the clean
    output, and a row flagged both for a null field and by another rule is
    quarantined twice. */
module DataQuality {
  import opened Basics
  import opened Dates

  /** A `feature_name` cell: missing, a string, or some other object. */
  datatype NameCell = NullName | TextName(name: string) | OtherName(shown: string)

  /** One event row. `None` is a null cell; `extra` holds the values of any
      columns beyond the six expected ones, which are carried along untouched. */
  datatype Row = Row(
    accountId: Option<string>,
    usageDate: Option<string>,
    featureName: NameCell,
    usageCount: Option<int>,
    usageDurationSecs: Option<int>,
    errorCount: Option<int>,
    extra: seq<Option<string>>)

  /** A batch: its column names and its rows, indexed 0, 1, ... */
  datatype Frame = Frame(columns: set<string>, rows: seq<Row>)

  const CriticalColumns: set<string> := {"account_id", "usage_date", "feature_name"}
  const CounterColumns: set<string> := {"usage_count", "usage_duration_secs", "error_count"}
  const ExpectedColumns: set<string> := CriticalColumns + CounterColumns

  /** Why a batch aborts: a column lookup fails, or `pd.to_datetime` rejects
      a date. */
  datatype QualityError = MissingColumns(missing: set<string>) | UnparseableDate(text: string)

  /** The date reader `pd.to_datetime` applies to each non-null text. */
  type Parser = string -> Option<CalendarDate>

  datatype Rule = NullRule | DateRule | LogicRule | FeatureRule

  /** Null check on the critical fields. */
  predicate HasNullCritical(r: Row)
  {
    r.accountId.None? || r.usageDate.None? || r.featureName.NullName?
  }

  /** Date check: the parsed date, written `%Y-%m-%d`, differs from the
      batch date. A null date parses to NaT, whose formatted value never
      equals any string. (A text the parser rejects never gets here: the
      batch has already aborted.) */
  predicate HasWrongDate(r: Row, dateStr: string, parse: Parser)
  {
    r.usageDate.None? || parse(r.usageDate.value).None? || Format(parse(r.usageDate.value).value) != dateStr
  }

  /** Logical check: a present counter below zero. A null counter compares
      false and is not flagged. */
  predicate HasNegativeCounter(r: Row)
  {
    (r.usageCount.Some? && r.usageCount.value < 0)
    || (r.usageDurationSecs.Some? && r.usageDurationSecs.value < 0)
    || (r.errorCount.Some? && r.errorCount.value < 0)
  }

  /** Feature-name check: null or not a string. */
  predicate HasBadFeatureName(r: Row)
  {
    r.featureName.NullName? || !r.featureName.TextName?
  }

  predicate Violates(rule: Rule, r: Row, dateStr: string, parse: Parser)
  {
    match rule
    case NullRule => HasNullCritical(r)
    case DateRule => HasWrongDate(r, dateStr, parse)
    case LogicRule => HasNegativeCounter(r)
    case FeatureRule => HasBadFeatureName(r)
  }

  /** Some rule flags the row. */
  predicate Flagged(r: Row, dateStr: string, parse: Parser)
  {
    HasNullCritical(r) || HasWrongDate(r, dateStr, parse) || HasNegativeCounter(r) || HasBadFeatureName(r)
  }

  /** The helper column `usage_date_dt`: the parsed date, NaT (`None`) for
      a null date. */
  function DateCell(r: Row, parse: Parser): Option<CalendarDate>
  {
    if r.usageDate.None? then None else parse(r.usageDate.value)
  }

  /** The helper cell a rule's selected frame holds for row `r`. The
      null-field frame is selected before the helper column is added, so
      after concatenation its cell is NaT; the other frames hold the parsed
      date. */
  function HelperCell(rule: Rule, r: Row, parse: Parser): Option<CalendarDate>
  {
    if rule == NullRule then None else DateCell(r, parse)
  }

  /** A row of a selected frame: its index label, its event columns and its
      helper cell. */
  datatype Entry = Entry(index: nat, row: Row, dt: Option<CalendarDate>)

  /** `df[mask]` for one rule, from index `from` on, in index order. */
  function Select(rows: seq<Row>, rule: Rule, dateStr: string, parse: Parser, from: nat): seq<Entry>
    decreases |rows| - from
  {
    if from >= |rows| then []
    else (if Violates(rule, rows[from], dateStr, parse) then [Entry(from, rows[from], HelperCell(rule, rows[from], parse))] else [])
         + Select(rows, rule, dateStr, parse, from + 1)
  }

  /** `pd.concat` of the four flagged frames, in rule order. */
  function Concat(rows: seq<Row>, dateStr: string, parse: Parser): seq<Entry>
  {
    Select(rows, NullRule, dateStr, parse, 0) + Select(rows, DateRule, dateStr, parse, 0)
    + Select(rows, LogicRule, dateStr, parse, 0) + Select(rows, FeatureRule, dateStr, parse, 0)
  }

  /** Which columns `drop_duplicates` compares: all of them, the helper
      included, as the validator does; or the event columns alone. */
  datatype Compared = AllColumns | EventColumns

  /** The cells of an entry that de-duplication compares; the index label
      plays no part. */
  function Cells(e: Entry, on: Compared): (Row, Option<CalendarDate>)
  {
    if on == AllColumns then (e.row, e.dt) else (e.row, None)
  }

  function CellsOf(es: seq<Entry>, on: Compared): set<(Row, Option<CalendarDate>)>
  {
    set e | e in es :: Cells(e, on)
  }

  /** `drop_duplicates()`: keeps the first entry of every distinct value of
      the compared cells. */
  function DropDuplicates(es: seq<Entry>, on: Compared): seq<Entry>
  {
    if es == [] then []
    else
      var init := es[..|es| - 1];
      DropDuplicates(init, on) + (if Cells(es[|es| - 1], on) in CellsOf(init, on) then [] else [es[|es| - 1]])
  }

  function Indices(es: seq<Entry>): set<nat>
  {
    set e | e in es :: e.index
  }

  /** `df.drop(labels)`: the rows whose index is not among `dropped`, in order. */
  function DropIndices(rows: seq<Row>, dropped: set<nat>): seq<Row>
  {
    if rows == [] then []
    else DropIndices(rows[..|rows| - 1], dropped) + (if |rows| - 1 in dropped then [] else [rows[|rows| - 1]])
  }

  /** The positions below `n` outside `dropped`, in increasing order. */
  function KeptPositions(n: nat, dropped: set<nat>): (pos: seq<nat>)
    ensures forall a, b :: 0 <= a < b < |pos| ==> pos[a] < pos[b]
    ensures forall t :: 0 <= t < |pos| ==> pos[t] < n
    ensures forall i :: i in pos <==> 0 <= i < n && i !in dropped
  {
    if n == 0 then []
    else
      var before := KeptPositions(n - 1, dropped);
      var last := if n - 1 in dropped then [] else [n - 1];
      assert forall a :: 0 <= a < |before| ==> before[a] in before;
      assert forall i :: i in before + last <==> i in before || i in last;
      before + last
  }

  /** The split of a batch: the clean rows and the quarantined entries. */
  datatype Validated = Validated(clean: seq<Row>, faulty: seq<Entry>)

  /** The split, de-duplicating on the chosen columns. */
  function SplitOn(rows: seq<Row>, dateStr: string, parse: Parser, on: Compared): Validated
  {
    var faulty := DropDuplicates(Concat(rows, dateStr, parse), on);
    Validated(DropIndices(rows, Indices(faulty)), faulty)
  }

  /** The split as the validator performs it, comparing every column. */
  function Split(rows: seq<Row>, dateStr: string, parse: Parser): Validated
  {
    SplitOn(rows, dateStr, parse, AllColumns)
  }

  /** The split with the helper column left out of the comparison: every
      quarantined row is written once, and the clean rows and the
      quarantined indices are the validator's. */
  function SplitOnce(rows: seq<Row>, dateStr: string, parse: Parser): (v: Validated)
    ensures v.clean == Split(rows, dateStr, parse).clean
    ensures Indices(v.faulty) == Indices(Split(rows, dateStr, parse).faulty)
    ensures forall a, b :: 0 <= a < b < |v.faulty| ==> v.faulty[a].index != v.faulty[b].index
  {
    SplitOnceSpec(rows, dateStr, parse);
    SplitOn(rows, dateStr, parse, EventColumns)
  }

  /** The first non-null date text, from row `from` on, that the parser
      rejects, if any: the value `pd.to_datetime` stops at. */
  function FirstUnparseable(rows: seq<Row>, parse: Parser, from: nat): (r: Option<string>)
    decreases |rows| - from
    ensures r.None? <==> forall i :: from <= i < |rows| && rows[i].usageDate.Some? ==> parse(rows[i].usageDate.value).Some?
    ensures r.Some? ==> parse(r.value).None?
    ensures r.Some? ==> exists i :: (from <= i < |rows| && rows[i].usageDate == r
      && forall j :: from <= j < i && rows[j].usageDate.Some? ==> parse(rows[j].usageDate.value).Some?)
  {
    if from >= |rows| then None
    else if rows[from].usageDate.Some? && parse(rows[from].usageDate.value).None? then rows[from].usageDate
    else FirstUnparseable(rows, parse, from + 1)
  }

  /** `validate_data_quality(df, date_str)`. The missing-column check only
      prints, but the critical columns are read before dates are parsed and
      the counters after, so any missing expected column ends the call with
      an error; an unparseable date aborts the whole batch. */
  function ValidateDataQuality(frame: Frame, dateStr: string, parse: Parser): (r: Result<Validated, QualityError>)
    ensures r.Success? <==> (ExpectedColumns <= frame.columns
              && forall i :: 0 <= i < |frame.rows| && frame.rows[i].usageDate.Some? ==> parse(frame.rows[i].usageDate.value).Some?)
    ensures r.Failure? && r.error.MissingColumns? ==> r.error.missing != {} && r.error.missing !! frame.columns
    ensures r.Failure? && r.error.MissingColumns? ==> r.error.missing == ExpectedColumns - frame.columns
    ensures r.Failure? && r.error.UnparseableDate? ==> parse(r.error.text).None?
    ensures r.Failure? && r.error.UnparseableDate? ==>
      exists i :: (0 <= i < |frame.rows| && frame.rows[i].usageDate == Some(r.error.text)
        && forall j :: 0 <= j < i && frame.rows[j].usageDate.Some? ==> parse(frame.rows[j].usageDate.value).Some?)
    ensures !(CriticalColumns <= frame.columns) ==> r.Failure? && r.error.MissingColumns?
  {
    if !(CriticalColumns <= frame.columns) then
      Failure(MissingColumns(ExpectedColumns - frame.columns))
    else
      match FirstUnparseable(frame.rows, parse, 0)
      case Some(t) => Failure(UnparseableDate(t))
      case None =>
        if !(ExpectedColumns <= frame.columns) then Failure(MissingColumns(ExpectedColumns - frame.columns))
        else Success(Split(frame.rows, dateStr, parse))
  }

  /** The quarantine file is written only when some row was quarantined. */
  function QuarantineOutput(v: Validated): (q: Option<seq<Row>>)
    ensures q.None? <==> v.faulty == []
    ensures q.Some? ==> |q.value| == |v.faulty| && forall t :: 0 <= t < |q.value| ==> q.value[t] == v.faulty[t].row
  {
    if v.faulty == [] then None else Some(seq(|v.faulty|, t requires 0 <= t < |v.faulty| => v.faulty[t].row))
  }

  // ---------------------------------------------------------------------
  // Proofs

  /** No earlier row has the same values. */
  ghost predicate FirstOccurrence(rows: seq<Row>, i: nat)
    requires i < |rows|
  {
    forall j :: 0 <= j < i ==> rows[j] != rows[i]
  }

  lemma {:induction false} SelectMember(rows: seq<Row>, rule: Rule, dateStr: string, parse: Parser, from: nat, e: Entry)
    ensures e in Select(rows, rule, dateStr, parse, from) <==>
      from <= e.index < |rows| && e.row == rows[e.index] && Violates(rule, e.row, dateStr, parse)
      && e.dt == HelperCell(rule, e.row, parse)
    decreases |rows| - from
  {
    if from < |rows| {
      var rest := Select(rows, rule, dateStr, parse, from + 1);
      var head := Entry(from, rows[from], HelperCell(rule, rows[from], parse));
      if Violates(rule, rows[from], dateStr, parse) {
        assert Select(rows, rule, dateStr, parse, from) == [head] + rest;
      } else {
        assert Select(rows, rule, dateStr, parse, from) == rest;
      }
      SelectMember(rows, rule, dateStr, parse, from + 1, e);
    }
  }

  /** Inside one selection, a flagged row with a smaller index comes earlier. */
  lemma {:induction false} SelectEarlier(rows: seq<Row>, rule: Rule, dateStr: string, parse: Parser, from: nat, t: nat, i: nat)
    requires t < |Select(rows, rule, dateStr, parse, from)|
    requires from <= i < Select(rows, rule, dateStr, parse, from)[t].index && i < |rows|
    requires Violates(rule, rows[i], dateStr, parse)
    ensures exists s :: 0 <= s < t && Select(rows, rule, dateStr, parse, from)[s] == Entry(i, rows[i], HelperCell(rule, rows[i], parse))
    decreases |rows| - from
  {
    var sel := Select(rows, rule, dateStr, parse, from);
    var rest := Select(rows, rule, dateStr, parse, from + 1);
    var ei := Entry(i, rows[i], HelperCell(rule, rows[i], parse));
    assert from < |rows|;
    if Violates(rule, rows[from], dateStr, parse) {
      assert sel == [Entry(from, rows[from], HelperCell(rule, rows[from], parse))] + rest;
      if i == from {
        assert t > 0;
        assert sel[0] == ei;
      } else {
        assert t > 0;
        assert rest[t - 1] == sel[t];
        SelectEarlier(rows, rule, dateStr, parse, from + 1, t - 1, i);
        var s :| 0 <= s < t - 1 && rest[s] == ei;
        assert sel[s + 1] == rest[s];
      }
    } else {
      assert sel == rest;
      assert i != from;
      SelectEarlier(rows, rule, dateStr, parse, from + 1, t, i);
    }
  }

  /** Every concatenated entry is a flagged row at its own index, holding
      the helper cell of a rule that flags it. */
  lemma ConcatMember(rows: seq<Row>, dateStr: string, parse: Parser, e: Entry)
    requires e in Concat(rows, dateStr, parse)
    ensures e.index < |rows| && e.row == rows[e.index] && Flagged(e.row, dateStr, parse)
    ensures exists rule :: Violates(rule, e.row, dateStr, parse) && e.dt == HelperCell(rule, e.row, parse)
  {
    SelectMember(rows, NullRule, dateStr, parse, 0, e);
    SelectMember(rows, DateRule, dateStr, parse, 0, e);
    SelectMember(rows, LogicRule, dateStr, parse, 0, e);
    SelectMember(rows, FeatureRule, dateStr, parse, 0, e);
    if e in Select(rows, NullRule, dateStr, parse, 0) {
      assert Violates(NullRule, e.row, dateStr, parse) && e.dt == HelperCell(NullRule, e.row, parse);
    } else if e in Select(rows, DateRule, dateStr, parse, 0) {
      assert Violates(DateRule, e.row, dateStr, parse) && e.dt == HelperCell(DateRule, e.row, parse);
    } else if e in Select(rows, LogicRule, dateStr, parse, 0) {
      assert Violates(LogicRule, e.row, dateStr, parse) && e.dt == HelperCell(LogicRule, e.row, parse);
    } else {
      assert Violates(FeatureRule, e.row, dateStr, parse) && e.dt == HelperCell(FeatureRule, e.row, parse);
    }
  }

  /** Each rule that flags a row contributes that row, with the rule's
      helper cell, to the concatenation. */
  lemma ConcatComplete(rows: seq<Row>, dateStr: string, parse: Parser, i: nat)
    requires i < |rows|
    ensures forall rule :: Violates(rule, rows[i], dateStr, parse) ==>
      Entry(i, rows[i], HelperCell(rule, rows[i], parse)) in Concat(rows, dateStr, parse)
  {
    forall rule | Violates(rule, rows[i], dateStr, parse)
      ensures Entry(i, rows[i], HelperCell(rule, rows[i], parse)) in Concat(rows, dateStr, parse)
    {
      SelectMember(rows, rule, dateStr, parse, 0, Entry(i, rows[i], HelperCell(rule, rows[i], parse)));
      assert rule == NullRule || rule == DateRule || rule == LogicRule || rule == FeatureRule;
    }
  }

  /** Inside a selection that sits in `c` after `pre`, a row with the same
      values and a smaller index comes earlier, with the same helper cell. */
  lemma SegmentEarlier(rows: seq<Row>, dateStr: string, parse: Parser, rule: Rule,
                       c: seq<Entry>, pre: seq<Entry>, post: seq<Entry>, t: nat, i: nat)
    requires c == pre + Select(rows, rule, dateStr, parse, 0) + post
    requires |pre| <= t < |pre| + |Select(rows, rule, dateStr, parse, 0)|
    requires i < c[t].index && i < |rows| && rows[i] == c[t].row
    ensures exists s :: 0 <= s < t && c[s] == Entry(i, rows[i], c[t].dt)
  {
    var sel := Select(rows, rule, dateStr, parse, 0);
    var b := |pre|;
    assert c[t] == sel[t - b];
    SelectMember(rows, rule, dateStr, parse, 0, sel[t - b]);
    SelectEarlier(rows, rule, dateStr, parse, 0, t - b, i);
    var s :| 0 <= s < t - b && sel[s] == Entry(i, rows[i], HelperCell(rule, rows[i], parse));
    assert c[b + s] == sel[s];
  }

  /** In the concatenation, an entry is preceded by every row with the same
      values and a smaller index, holding the same helper cell (the rules
      and the helper look only at the values). */
  lemma ConcatEarlier(rows: seq<Row>, dateStr: string, parse: Parser, t: nat, i: nat)
    requires t < |Concat(rows, dateStr, parse)| && i < |rows|
    requires i < Concat(rows, dateStr, parse)[t].index && rows[i] == Concat(rows, dateStr, parse)[t].row
    ensures exists s :: 0 <= s < t && Concat(rows, dateStr, parse)[s] == Entry(i, rows[i], Concat(rows, dateStr, parse)[t].dt)
  {
    var s1 := Select(rows, NullRule, dateStr, parse, 0);
    var s2 := Select(rows, DateRule, dateStr, parse, 0);
    var s3 := Select(rows, LogicRule, dateStr, parse, 0);
    var s4 := Select(rows, FeatureRule, dateStr, parse, 0);
    var c := Concat(rows, dateStr, parse);
    if t < |s1| {
      SegmentEarlier(rows, dateStr, parse, NullRule, c, [], s2 + s3 + s4, t, i);
    } else if t < |s1| + |s2| {
      SegmentEarlier(rows, dateStr, parse, DateRule, c, s1, s3 + s4, t, i);
    } else if t < |s1| + |s2| + |s3| {
      SegmentEarlier(rows, dateStr, parse, LogicRule, c, s1 + s2, s4, t, i);
    } else {
      SegmentEarlier(rows, dateStr, parse, FeatureRule, c, s1 + s2 + s3, [], t, i);
    }
  }

  /** Entry `t` is the first with its compared cells. */
  ghost predicate KeptAt(es: seq<Entry>, t: nat, on: Compared)
    requires t < |es|
  {
    forall s :: 0 <= s < t ==> Cells(es[s], on) != Cells(es[t], on)
  }

  lemma CellsOfMember(es: seq<Entry>, on: Compared, v: (Row, Option<CalendarDate>))
    ensures v in CellsOf(es, on) <==> exists s :: 0 <= s < |es| && Cells(es[s], on) == v
  {
    if v in CellsOf(es, on) {
      var e :| e in es && Cells(e, on) == v;
      var s :| 0 <= s < |es| && es[s] == e;
    }
  }

  /** `drop_duplicates` keeps exactly the entries whose compared cells no
      earlier entry repeats. */
  lemma DropDuplicatesMember(es: seq<Entry>, on: Compared, e: Entry)
    ensures e in DropDuplicates(es, on) <==> exists t :: 0 <= t < |es| && es[t] == e && KeptAt(es, t, on)
  {
    if e in DropDuplicates(es, on) {
      DropDuplicatesSound(es, on, e);
    }
    if exists t :: 0 <= t < |es| && es[t] == e && KeptAt(es, t, on) {
      var t :| 0 <= t < |es| && es[t] == e && KeptAt(es, t, on);
      DropDuplicatesKeeps(es, on, t);
    }
  }

  lemma {:induction false} DropDuplicatesSound(es: seq<Entry>, on: Compared, e: Entry)
    requires e in DropDuplicates(es, on)
    ensures exists t :: 0 <= t < |es| && es[t] == e && KeptAt(es, t, on)
  {
    var n := |es|;
    var init, last := es[..n - 1], es[n - 1];
    if e in DropDuplicates(init, on) {
      DropDuplicatesSound(init, on, e);
      var t :| 0 <= t < n - 1 && init[t] == e && KeptAt(init, t, on);
      assert es[t] == e && KeptAt(es, t, on);
    } else {
      CellsOfMember(init, on, Cells(last, on));
      assert e == last && KeptAt(es, n - 1, on);
    }
  }

  lemma {:induction false} DropDuplicatesKeeps(es: seq<Entry>, on: Compared, t: nat)
    requires t < |es| && KeptAt(es, t, on)
    ensures es[t] in DropDuplicates(es, on)
  {
    var n := |es|;
    var init, last := es[..n - 1], es[n - 1];
    if t < n - 1 {
      assert init[t] == es[t] && KeptAt(init, t, on);
      DropDuplicatesKeeps(init, on, t);
    } else {
      CellsOfMember(init, on, Cells(last, on));
    }
  }

  /** No two kept entries share their compared cells. */
  lemma {:induction false} DropDuplicatesDistinct(es: seq<Entry>, on: Compared)
    ensures forall a, b :: 0 <= a < b < |DropDuplicates(es, on)| ==>
      Cells(DropDuplicates(es, on)[a], on) != Cells(DropDuplicates(es, on)[b], on)
  {
    if es != [] {
      var init := es[..|es| - 1];
      DropDuplicatesDistinct(init, on);
      var d := DropDuplicates(init, on);
      forall a | 0 <= a < |d| ensures d[a] in init {
        DropDuplicatesMember(init, on, d[a]);
      }
    }
  }

  /** The earliest entry with the compared cells `v`, at or before `t0`. */
  lemma EarliestWithCells(c: seq<Entry>, on: Compared, v: (Row, Option<CalendarDate>), t0: nat) returns (t: nat)
    requires t0 < |c| && Cells(c[t0], on) == v
    ensures t <= t0 && Cells(c[t], on) == v && forall s :: 0 <= s < t ==> Cells(c[s], on) != v
  {
    t := 0;
    while Cells(c[t], on) != v
      invariant t <= t0
      invariant forall s :: 0 <= s < t ==> Cells(c[s], on) != v
      decreases t0 - t
    {
      t := t + 1;
    }
  }

  /** Every quarantined entry is a concatenated entry: a flagged input row
      at its own index. */
  lemma FaultyEntries(rows: seq<Row>, dateStr: string, parse: Parser, on: Compared)
    ensures forall e :: e in SplitOn(rows, dateStr, parse, on).faulty ==>
      e in Concat(rows, dateStr, parse) && e.index < |rows| && rows[e.index] == e.row
  {
    var c := Concat(rows, dateStr, parse);
    forall e | e in SplitOn(rows, dateStr, parse, on).faulty
      ensures e in c && e.index < |rows| && rows[e.index] == e.row
    {
      DropDuplicatesMember(c, on, e);
      ConcatMember(rows, dateStr, parse, e);
    }
  }

  /** For a row with no earlier copy, each of its concatenated entries has
      a quarantined counterpart at the same index with the same compared
      cells: the first entry with those cells is the row's own. */
  lemma KeptWhenFirst(rows: seq<Row>, dateStr: string, parse: Parser, on: Compared, i: nat, x: Option<CalendarDate>)
    requires i < |rows| && FirstOccurrence(rows, i)
    requires Entry(i, rows[i], x) in Concat(rows, dateStr, parse)
    ensures exists e :: (e in SplitOn(rows, dateStr, parse, on).faulty && e.index == i
      && Cells(e, on) == Cells(Entry(i, rows[i], x), on))
  {
    var c := Concat(rows, dateStr, parse);
    var v := Cells(Entry(i, rows[i], x), on);
    var t0 :| 0 <= t0 < |c| && c[t0] == Entry(i, rows[i], x);
    var t := EarliestWithCells(c, on, v, t0);
    ConcatMember(rows, dateStr, parse, c[t]);
    assert c[t].row == rows[i];
    if c[t].index > i {
      ConcatEarlier(rows, dateStr, parse, t, i);
      assert false;
    }
    assert c[t].index == i;
    DropDuplicatesMember(c, on, c[t]);
    assert c[t] in SplitOn(rows, dateStr, parse, on).faulty;
  }

  /** The quarantined indices are the flagged rows with no earlier copy,
      whichever columns de-duplication compares. */
  lemma QuarantinedIff(rows: seq<Row>, dateStr: string, parse: Parser, on: Compared, i: nat)
    requires i < |rows|
    ensures i in Indices(SplitOn(rows, dateStr, parse, on).faulty) <==>
      Flagged(rows[i], dateStr, parse) && FirstOccurrence(rows, i)
  {
    var c := Concat(rows, dateStr, parse);
    var faulty := SplitOn(rows, dateStr, parse, on).faulty;
    if i in Indices(faulty) {
      var e :| e in faulty && e.index == i;
      DropDuplicatesMember(c, on, e);
      var t :| 0 <= t < |c| && c[t] == e && KeptAt(c, t, on);
      ConcatMember(rows, dateStr, parse, e);
      forall j | 0 <= j < i ensures rows[j] != rows[i] {
        if rows[j] == rows[i] {
          ConcatEarlier(rows, dateStr, parse, t, j);
          assert false;
        }
      }
    }
    if Flagged(rows[i], dateStr, parse) && FirstOccurrence(rows, i) {
      ConcatComplete(rows, dateStr, parse, i);
      var rule := if HasNullCritical(rows[i]) then NullRule
        else if HasWrongDate(rows[i], dateStr, parse) then DateRule
        else if HasNegativeCounter(rows[i]) then LogicRule
        else FeatureRule;
      assert Violates(rule, rows[i], dateStr, parse);
      KeptWhenFirst(rows, dateStr, parse, on, i, HelperCell(rule, rows[i], parse));
    }
  }

  /** Every quarantined entry is a flagged input row at its own index,
      holding the helper cell of a rule that flags it, and no two
      quarantined entries agree on both the row and the helper cell. */
  lemma QuarantineEntries(rows: seq<Row>, dateStr: string, parse: Parser)
    ensures forall e :: e in Split(rows, dateStr, parse).faulty ==>
      e.index < |rows| && rows[e.index] == e.row && Flagged(e.row, dateStr, parse)
      && exists rule :: Violates(rule, e.row, dateStr, parse) && e.dt == HelperCell(rule, e.row, parse)
    ensures forall a, b :: 0 <= a < b < |Split(rows, dateStr, parse).faulty| ==>
      Split(rows, dateStr, parse).faulty[a].row != Split(rows, dateStr, parse).faulty[b].row
      || Split(rows, dateStr, parse).faulty[a].dt != Split(rows, dateStr, parse).faulty[b].dt
  {
    var c := Concat(rows, dateStr, parse);
    forall e | e in Split(rows, dateStr, parse).faulty
      ensures e.index < |rows| && rows[e.index] == e.row && Flagged(e.row, dateStr, parse)
      ensures exists rule :: Violates(rule, e.row, dateStr, parse) && e.dt == HelperCell(rule, e.row, parse)
    {
      DropDuplicatesMember(c, AllColumns, e);
      ConcatMember(rows, dateStr, parse, e);
    }
    DropDuplicatesDistinct(c, AllColumns);
  }

  /** How often a row with no earlier copy is quarantined: once with a NaT
      helper when a null field flags it (or its date is null), once with its
      parsed date when the date, logic or feature-name rule flags it, and
      under no other helper cell. */
  lemma QuarantineCopies(rows: seq<Row>, dateStr: string, parse: Parser, i: nat)
    requires i < |rows| && FirstOccurrence(rows, i)
    ensures Entry(i, rows[i], None) in Split(rows, dateStr, parse).faulty <==>
      HasNullCritical(rows[i]) || (DateCell(rows[i], parse).None? && Flagged(rows[i], dateStr, parse))
    ensures DateCell(rows[i], parse).Some? ==>
      (Entry(i, rows[i], DateCell(rows[i], parse)) in Split(rows, dateStr, parse).faulty <==>
        HasWrongDate(rows[i], dateStr, parse) || HasNegativeCounter(rows[i]) || HasBadFeatureName(rows[i]))
    ensures forall e :: e in Split(rows, dateStr, parse).faulty && e.index == i ==>
      e == Entry(i, rows[i], None) || e == Entry(i, rows[i], DateCell(rows[i], parse))
  {
    var c := Concat(rows, dateStr, parse);
    var faulty := Split(rows, dateStr, parse).faulty;
    QuarantineEntries(rows, dateStr, parse);
    ConcatComplete(rows, dateStr, parse, i);
    var r := rows[i];
    var none := Entry(i, r, None);
    var dated := Entry(i, r, DateCell(r, parse));
    if none in faulty {
      var rule :| Violates(rule, r, dateStr, parse) && none.dt == HelperCell(rule, r, parse);
    }
    if HasNullCritical(r) {
      assert Violates(NullRule, r, dateStr, parse);
      KeptWhenFirst(rows, dateStr, parse, AllColumns, i, None);
    } else if DateCell(r, parse).None? && Flagged(r, dateStr, parse) {
      var rule := if HasWrongDate(r, dateStr, parse) then DateRule
        else if HasNegativeCounter(r) then LogicRule
        else FeatureRule;
      assert Violates(rule, r, dateStr, parse);
      KeptWhenFirst(rows, dateStr, parse, AllColumns, i, None);
    }
    if DateCell(r, parse).Some? {
      if dated in faulty {
        var rule :| Violates(rule, r, dateStr, parse) && dated.dt == HelperCell(rule, r, parse);
        assert rule != NullRule;
      }
      if HasWrongDate(r, dateStr, parse) || HasNegativeCounter(r) || HasBadFeatureName(r) {
        var rule := if HasWrongDate(r, dateStr, parse) then DateRule
          else if HasNegativeCounter(r) then LogicRule
          else FeatureRule;
        assert Violates(rule, r, dateStr, parse);
        KeptWhenFirst(rows, dateStr, parse, AllColumns, i, DateCell(r, parse));
      }
    }
  }

  /** A row with no earlier copy, a null critical field and a readable
      date that another rule also flags is written to the quarantine file
      twice. */
  lemma NullFieldRowWrittenTwice(rows: seq<Row>, dateStr: string, parse: Parser, i: nat)
    requires i < |rows| && FirstOccurrence(rows, i)
    requires HasNullCritical(rows[i]) && DateCell(rows[i], parse).Some?
    requires HasWrongDate(rows[i], dateStr, parse) || HasNegativeCounter(rows[i]) || HasBadFeatureName(rows[i])
    ensures var q := QuarantineOutput(Split(rows, dateStr, parse));
      q.Some? && exists a, b :: 0 <= a < b < |q.value| && q.value[a] == rows[i] && q.value[b] == rows[i]
  {
    var faulty := Split(rows, dateStr, parse).faulty;
    QuarantineCopies(rows, dateStr, parse, i);
    var e1, e2 := Entry(i, rows[i], None), Entry(i, rows[i], DateCell(rows[i], parse));
    var a :| 0 <= a < |faulty| && faulty[a] == e1;
    var b :| 0 <= b < |faulty| && faulty[b] == e2;
    var q := QuarantineOutput(Split(rows, dateStr, parse));
    assert q.value[a] == rows[i] && q.value[b] == rows[i];
    if a < b {
      assert 0 <= a < b < |q.value|;
    } else {
      assert 0 <= b < a < |q.value|;
    }
  }

  /** The validator's quirk: when two flagged rows have identical values,
      only the first is quarantined; the later copy stays in the clean rows. */
  lemma RepeatedFaultyRowStaysClean(rows: seq<Row>, dateStr: string, parse: Parser, i: nat, j: nat)
    requires i < j < |rows| && rows[i] == rows[j] && Flagged(rows[j], dateStr, parse)
    ensures j !in Indices(Split(rows, dateStr, parse).faulty)
    ensures rows[j] in Split(rows, dateStr, parse).clean
  {
    QuarantinedIff(rows, dateStr, parse, AllColumns, j);
    DropIndicesKeeps(rows, Indices(Split(rows, dateStr, parse).faulty), j);
  }

  lemma {:induction false} DropIndicesKeeps(rows: seq<Row>, dropped: set<nat>, i: nat)
    requires i < |rows| && i !in dropped
    ensures rows[i] in DropIndices(rows, dropped)
  {
    var n := |rows|;
    if i < n - 1 {
      DropIndicesKeeps(rows[..n - 1], dropped, i);
    }
  }

  /** Positions below `n` that are among `dropped`. */
  function DroppedBelow(dropped: set<nat>, n: nat): set<nat>
  {
    set i | 0 <= i < n && i in dropped
  }

  /** `df.drop` keeps the rows whose index is not dropped, in their order:
      the result is the input read at the kept positions, in increasing
      order; each kept row is an input row outside `dropped`, every such
      row is kept, and the counts add up. */
  lemma DropIndicesSpec(rows: seq<Row>, dropped: set<nat>)
    ensures var pos := KeptPositions(|rows|, dropped);
      |DropIndices(rows, dropped)| == |pos|
      && forall t :: 0 <= t < |pos| ==> DropIndices(rows, dropped)[t] == rows[pos[t]]
    ensures |DropIndices(rows, dropped)| + |DroppedBelow(dropped, |rows|)| == |rows|
    ensures forall x :: x in DropIndices(rows, dropped) ==> exists i :: 0 <= i < |rows| && i !in dropped && rows[i] == x
    ensures forall i :: 0 <= i < |rows| && i !in dropped ==> rows[i] in DropIndices(rows, dropped)
  {
    DropIndicesOrder(rows, dropped);
    DropIndicesCount(rows, dropped);
    forall x | x in DropIndices(rows, dropped)
      ensures exists i :: 0 <= i < |rows| && i !in dropped && rows[i] == x
    {
      DropIndicesFrom(rows, dropped, x);
    }
    forall i | 0 <= i < |rows| && i !in dropped ensures rows[i] in DropIndices(rows, dropped) {
      DropIndicesKeeps(rows, dropped, i);
    }
  }

  lemma {:induction false} DropIndicesOrder(rows: seq<Row>, dropped: set<nat>)
    ensures var pos := KeptPositions(|rows|, dropped);
      |DropIndices(rows, dropped)| == |pos|
      && forall t :: 0 <= t < |pos| ==> pos[t] < |rows| && DropIndices(rows, dropped)[t] == rows[pos[t]]
  {
    var n := |rows|;
    if n > 0 {
      var init := rows[..n - 1];
      DropIndicesOrder(init, dropped);
      var pos, pin := KeptPositions(n, dropped), KeptPositions(n - 1, dropped);
      var d, din := DropIndices(rows, dropped), DropIndices(init, dropped);
      forall t | 0 <= t < |pos| ensures pos[t] < n && d[t] == rows[pos[t]] {
        if t < |pin| {
          assert pos[t] == pin[t] && d[t] == din[t] && init[pin[t]] == rows[pin[t]];
        }
      }
    }
  }

  lemma {:induction false} DropIndicesCount(rows: seq<Row>, dropped: set<nat>)
    ensures |DropIndices(rows, dropped)| + |DroppedBelow(dropped, |rows|)| == |rows|
  {
    var n := |rows|;
    if n == 0 {
      assert DroppedBelow(dropped, 0) == {};
    } else {
      DropIndicesCount(rows[..n - 1], dropped);
      if n - 1 in dropped {
        assert DroppedBelow(dropped, n) == DroppedBelow(dropped, n - 1) + {n - 1};
      } else {
        assert DroppedBelow(dropped, n) == DroppedBelow(dropped, n - 1);
      }
    }
  }

  lemma {:induction false} DropIndicesFrom(rows: seq<Row>, dropped: set<nat>, x: Row)
    requires x in DropIndices(rows, dropped)
    ensures exists i :: 0 <= i < |rows| && i !in dropped && rows[i] == x
  {
    var n := |rows|;
    var init := rows[..n - 1];
    if x in DropIndices(init, dropped) {
      DropIndicesFrom(init, dropped, x);
      var i :| 0 <= i < n - 1 && i !in dropped && init[i] == x;
      assert rows[i] == x;
    } else {
      assert rows[n - 1] == x;
    }
  }

  /** Every input row is accounted for exactly once: its index is
      quarantined or the row is clean, never both; the clean rows are the
      input read at the unquarantined positions, in increasing order. */
  lemma SplitPartitions(rows: seq<Row>, dateStr: string, parse: Parser)
    ensures |Split(rows, dateStr, parse).clean| + |Indices(Split(rows, dateStr, parse).faulty)| == |rows|
    ensures var pos := KeptPositions(|rows|, Indices(Split(rows, dateStr, parse).faulty));
      |Split(rows, dateStr, parse).clean| == |pos|
      && forall t :: 0 <= t < |pos| ==> Split(rows, dateStr, parse).clean[t] == rows[pos[t]]
    ensures forall i :: 0 <= i < |rows| && i !in Indices(Split(rows, dateStr, parse).faulty) ==>
      rows[i] in Split(rows, dateStr, parse).clean
    ensures forall x :: x in Split(rows, dateStr, parse).clean ==>
      exists i :: 0 <= i < |rows| && i !in Indices(Split(rows, dateStr, parse).faulty) && rows[i] == x
  {
    var v := Split(rows, dateStr, parse);
    var k := Indices(v.faulty);
    FaultyEntries(rows, dateStr, parse, AllColumns);
    DropIndicesSpec(rows, k);
    assert DroppedBelow(k, |rows|) == k;
  }

  /** Comparing the event columns only quarantines the same indices, hence
      leaves the same clean rows, and writes no index twice. */
  lemma SplitOnceSpec(rows: seq<Row>, dateStr: string, parse: Parser)
    ensures var v, w := SplitOn(rows, dateStr, parse, EventColumns), Split(rows, dateStr, parse);
      Indices(v.faulty) == Indices(w.faulty) && v.clean == w.clean
      && forall a, b :: 0 <= a < b < |v.faulty| ==> v.faulty[a].index != v.faulty[b].index
  {
    var v, w := SplitOn(rows, dateStr, parse, EventColumns), Split(rows, dateStr, parse);
    FaultyEntries(rows, dateStr, parse, EventColumns);
    FaultyEntries(rows, dateStr, parse, AllColumns);
    forall i: nat ensures i in Indices(v.faulty) <==> i in Indices(w.faulty) {
      if i < |rows| {
        QuarantinedIff(rows, dateStr, parse, EventColumns, i);
        QuarantinedIff(rows, dateStr, parse, AllColumns, i);
      }
    }
    assert Indices(v.faulty) == Indices(w.faulty);
    DropDuplicatesDistinct(Concat(rows, dateStr, parse), EventColumns);
    forall a, b | 0 <= a < b < |v.faulty| ensures v.faulty[a].index != v.faulty[b].index {
      assert v.faulty[a] in v.faulty && v.faulty[b] in v.faulty;
    }
  }

  /** With no flagged row the clean rows are the input and no quarantine
      file is written. */
  lemma NothingFlaggedKeepsBatch(rows: seq<Row>, dateStr: string, parse: Parser)
    requires forall i :: 0 <= i < |rows| ==> !Flagged(rows[i], dateStr, parse)
    ensures Split(rows, dateStr, parse).clean == rows
    ensures QuarantineOutput(Split(rows, dateStr, parse)).None?
  {
    var c := Concat(rows, dateStr, parse);
    if c != [] {
      ConcatMember(rows, dateStr, parse, c[0]);
      assert false;
    }
    NoDropKeeps(rows, Indices(Split(rows, dateStr, parse).faulty));
  }

  lemma {:induction false} NoDropKeeps(rows: seq<Row>, dropped: set<nat>)
    requires forall i :: 0 <= i < |rows| ==> i !in dropped
    ensures DropIndices(rows, dropped) == rows
  {
    if rows != [] {
      NoDropKeeps(rows[..|rows| - 1], dropped);
      assert rows == rows[..|rows| - 1] + [rows[|rows| - 1]];
    }
  }

  /** A row with a null critical field, a wrong or null date, a negative
      counter, or a null or non-string feature name is quarantined unless an
      earlier row has the same values. */
  lemma RuleViolationQuarantined(rows: seq<Row>, dateStr: string, parse: Parser, i: nat)
    requires i < |rows| && FirstOccurrence(rows, i)
    requires HasNullCritical(rows[i]) || HasWrongDate(rows[i], dateStr, parse)
          || HasNegativeCounter(rows[i]) || HasBadFeatureName(rows[i])
    ensures i in Indices(Split(rows, dateStr, parse).faulty)
    ensures rows[i] in QuarantineOutput(Split(rows, dateStr, parse)).value
  {
    QuarantinedIff(rows, dateStr, parse, AllColumns, i);
    var v := Split(rows, dateStr, parse);
    var e :| e in v.faulty && e.index == i;
    FaultyEntries(rows, dateStr, parse, AllColumns);
    var t :| 0 <= t < |v.faulty| && v.faulty[t] == e;
    assert QuarantineOutput(v).value[t] == rows[i];
  }

  /** A row whose critical fields are present, whose date matches, whose
      feature name is a string and whose counters are null passes: null
      counters are not checked. */
  lemma NullCountersPass(r: Row, dateStr: string, parse: Parser)
    requires r.accountId.Some? && r.featureName.TextName? && r.usageDate.Some?
    requires parse(r.usageDate.value).Some? && Format(parse(r.usageDate.value).value) == dateStr
    requires r.usageCount.None? && r.usageDurationSecs.None? && r.errorCount.None?
    ensures !Flagged(r, dateStr, parse)
  {
  }

  /** With the strict ISO reader, the date rule is plain text inequality. */
  lemma IsoDateRule(r: Row, dateStr: string)
    requires r.usageDate.Some? && IsoParse(r.usageDate.value).Some?
    ensures HasWrongDate(r, dateStr, IsoParse) <==> r.usageDate.value != dateStr
  {
    ParseThenFormat(r.usageDate.value);
  }

  const Jan1 := Date(2024, 1, 1)
  const Jan2 := Date(2024, 1, 2)

  /** Two rows of account "A": one for the batch date 2024-01-01, and one
      for 2024-01-02 with usage count -1. */
  const GoodRow := Row(Some("A"), Some("2024-01-01"), TextName("login"), Some(5), Some(0), Some(0), [])
  const NegativeRow := Row(Some("A"), Some("2024-01-02"), TextName("login"), Some(-1), Some(0), Some(0), [])

  lemma ReadJan1()
    ensures IsoParse("2024-01-01") == Some(Jan1)
  {
    FormatThenParse(Jan1);
    assert Format(Jan1) == "2024-01-01";
  }

  lemma ReadJan2()
    ensures IsoParse("2024-01-02") == Some(Jan2)
  {
    FormatThenParse(Jan2);
    assert Format(Jan2) == "2024-01-02";
  }

  /** The first row breaks no rule; the second breaks the date rule and
      the logical rule, and its helper cell is its own date. */
  lemma NegativeCountRules()
    ensures forall rule :: !Violates(rule, GoodRow, "2024-01-01", IsoParse)
    ensures !Violates(NullRule, NegativeRow, "2024-01-01", IsoParse)
    ensures Violates(DateRule, NegativeRow, "2024-01-01", IsoParse)
    ensures Violates(LogicRule, NegativeRow, "2024-01-01", IsoParse)
    ensures !Violates(FeatureRule, NegativeRow, "2024-01-01", IsoParse)
    ensures HelperCell(DateRule, NegativeRow, IsoParse) == Some(Jan2)
    ensures HelperCell(LogicRule, NegativeRow, IsoParse) == Some(Jan2)
  {
    ReadJan1();
    ReadJan2();
    IsoDateRule(GoodRow, "2024-01-01");
    IsoDateRule(NegativeRow, "2024-01-01");
  }

  /** The date frame and the logic frame both hold the second row, with the
      same helper date. */
  lemma NegativeCountFlags()
    ensures Concat([GoodRow, NegativeRow], "2024-01-01", IsoParse)
         == [Entry(1, NegativeRow, Some(Jan2)), Entry(1, NegativeRow, Some(Jan2))]
  {
    var rows := [GoodRow, NegativeRow];
    NegativeCountRules();
    var e := Entry(1, NegativeRow, Some(Jan2));
    assert Select(rows, NullRule, "2024-01-01", IsoParse, 1) == [];
    assert Select(rows, NullRule, "2024-01-01", IsoParse, 0) == [];
    assert Select(rows, DateRule, "2024-01-01", IsoParse, 1) == [e];
    assert Select(rows, DateRule, "2024-01-01", IsoParse, 0) == [e];
    assert Select(rows, LogicRule, "2024-01-01", IsoParse, 1) == [e];
    assert Select(rows, LogicRule, "2024-01-01", IsoParse, 0) == [e];
    assert Select(rows, FeatureRule, "2024-01-01", IsoParse, 1) == [];
    assert Select(rows, FeatureRule, "2024-01-01", IsoParse, 0) == [];
  }

  /** The repeated entry is dropped: the first row is clean and the second
      is quarantined once, under index 1. */
  lemma NegativeCountSplit()
    ensures Split([GoodRow, NegativeRow], "2024-01-01", IsoParse)
         == Validated([GoodRow], [Entry(1, NegativeRow, Some(Jan2))])
  {
    var e := Entry(1, NegativeRow, Some(Jan2));
    NegativeCountFlags();
    NegativeCountDrop();
    assert [e, e][..1] == [e] && [e][..0] == [];
    assert DropDuplicates([e], AllColumns) == [e];
    assert DropDuplicates([e, e], AllColumns) == [e];
    assert Indices([e]) == {1};
  }

  /** Dropping index 1 leaves the first row. */
  lemma NegativeCountDrop()
    ensures DropIndices([GoodRow, NegativeRow], {1}) == [GoodRow]
  {
    var rows := [GoodRow, NegativeRow];
    assert rows[..1] == [GoodRow] && [GoodRow][..0] == [];
    assert DropIndices([GoodRow], {1}) == [GoodRow];
  }

  /** The batch validates, with the split above. */
  lemma NegativeCountScenario()
    ensures ValidateDataQuality(Frame(ExpectedColumns, [GoodRow, NegativeRow]), "2024-01-01", IsoParse)
         == Success(Validated([GoodRow], [Entry(1, NegativeRow, Some(Jan2))]))
  {
    NegativeCountParses();
    NegativeCountSplit();
  }

  /** Both dates of the batch are readable. */
  lemma NegativeCountParses()
    ensures FirstUnparseable([GoodRow, NegativeRow], IsoParse, 0).None?
  {
    ReadJan1();
    ReadJan2();
  }

  /** A row for the batch date whose feature name is null. */
  const NullNameRow := Row(Some("A"), Some("2024-01-01"), NullName, Some(1), Some(30), Some(0), [])

  /** The row breaks the null-field rule and the feature-name rule only,
      and its date reads as 2024-01-01. */
  lemma NullNameRules()
    ensures Violates(NullRule, NullNameRow, "2024-01-01", IsoParse)
    ensures !Violates(DateRule, NullNameRow, "2024-01-01", IsoParse)
    ensures !Violates(LogicRule, NullNameRow, "2024-01-01", IsoParse)
    ensures Violates(FeatureRule, NullNameRow, "2024-01-01", IsoParse)
    ensures HelperCell(FeatureRule, NullNameRow, IsoParse) == Some(Jan1)
  {
    ReadJan1();
    IsoDateRule(NullNameRow, "2024-01-01");
  }

  /** The null-field frame and the feature-name frame both hold the row,
      with different helper cells. */
  lemma NullNameFlags()
    ensures Concat([NullNameRow], "2024-01-01", IsoParse)
         == [Entry(0, NullNameRow, None), Entry(0, NullNameRow, Some(Jan1))]
  {
    var rows := [NullNameRow];
    NullNameRules();
    assert Select(rows, NullRule, "2024-01-01", IsoParse, 0) == [Entry(0, NullNameRow, None)];
    assert Select(rows, DateRule, "2024-01-01", IsoParse, 0) == [];
    assert Select(rows, LogicRule, "2024-01-01", IsoParse, 0) == [];
    assert Select(rows, FeatureRule, "2024-01-01", IsoParse, 0) == [Entry(0, NullNameRow, Some(Jan1))];
  }

  /** De-duplication on every column keeps both entries; on the event
      columns only, the first. */
  lemma NullNameDedup()
    ensures DropDuplicates(Concat([NullNameRow], "2024-01-01", IsoParse), AllColumns)
         == [Entry(0, NullNameRow, None), Entry(0, NullNameRow, Some(Jan1))]
    ensures DropDuplicates(Concat([NullNameRow], "2024-01-01", IsoParse), EventColumns)
         == [Entry(0, NullNameRow, None)]
  {
    var e1, e2 := Entry(0, NullNameRow, None), Entry(0, NullNameRow, Some(Jan1));
    NullNameFlags();
    assert [e1, e2][..1] == [e1] && [e1][..0] == [];
    assert DropDuplicates([e1], AllColumns) == [e1];
    assert DropDuplicates([e1], EventColumns) == [e1];
  }

  /** The validator's split: no clean row, both entries quarantined. */
  lemma NullNameSplit()
    ensures Split([NullNameRow], "2024-01-01", IsoParse)
         == Validated([], [Entry(0, NullNameRow, None), Entry(0, NullNameRow, Some(Jan1))])
  {
    var e1, e2 := Entry(0, NullNameRow, None), Entry(0, NullNameRow, Some(Jan1));
    NullNameDedup();
    assert Indices([e1, e2]) == {0};
    assert [NullNameRow][..0] == [];
    assert DropIndices([NullNameRow], {0}) == [];
  }

  /** The validator writes that one row to the quarantine file twice;
      comparing the event columns only would write it once. Either way no
      row is clean. */
  lemma NullNameScenario()
    ensures Split([NullNameRow], "2024-01-01", IsoParse).clean == []
    ensures QuarantineOutput(Split([NullNameRow], "2024-01-01", IsoParse)) == Some([NullNameRow, NullNameRow])
  {
    NullNameSplit();
    NullNameEntriesWritten();
  }

  /** Both quarantined entries become lines of the quarantine file. */
  lemma NullNameEntriesWritten()
    ensures QuarantineOutput(Validated([], [Entry(0, NullNameRow, None), Entry(0, NullNameRow, Some(Jan1))]))
         == Some([NullNameRow, NullNameRow])
  {
    var q := QuarantineOutput(Validated([], [Entry(0, NullNameRow, None), Entry(0, NullNameRow, Some(Jan1))]));
    assert q.value == [NullNameRow, NullNameRow];
  }

  /** Comparing the event columns only writes the row once. */
  lemma NullNameOnce()
    ensures QuarantineOutput(SplitOnce([NullNameRow], "2024-01-01", IsoParse)) == Some([NullNameRow])
  {
    NullNameDedup();
    var q := QuarantineOutput(Validated([], [Entry(0, NullNameRow, None)]));
    assert q.value == [NullNameRow];
  }

  /** With two unreadable dates, "x" before "y", the batch fails on the
      first one. */
  lemma FirstBadDateReported()
    ensures ValidateDataQuality(Frame(ExpectedColumns, [GoodRow.(usageDate := Some("x")), GoodRow.(usageDate := Some("y"))]),
                                "2024-01-01", IsoParse)
         == Failure(UnparseableDate("x"))
  {
    assert IsoParse("x").None? && IsoParse("y").None?;
  }
}
