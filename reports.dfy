/**
  Read-only projections of the record table used by the dashboard: the
  timeline rows with their deviation and performance status, and the
  per-task summary of the performance chart.
 */
module Reports {
  import opened Wrappers
  import opened TimeTasks

  /** Real minus stipulated time of one record (`diferencia`): positive
      exactly when the task overran, negative exactly when it finished early. */
  function Deviation(rec: TimeRecord): (d: real)
    ensures d > 0.0 <==> rec.realMinutes > rec.estimatedMinutes
    ensures d < 0.0 <==> rec.realMinutes < rec.estimatedMinutes
  {
    rec.realMinutes - rec.estimatedMinutes
  }

  // ---------------------------------------------------------------------
  // Timeline status rule
  // ---------------------------------------------------------------------

  /** Total of the stipulated times; positive over a non-empty table whose
      snapshots are all positive. */
  function SumEstimated(rows: seq<TimeRecord>): (total: real)
    ensures rows != [] && RecordsInvariant(rows) ==> total > 0.0
  {
    if rows == [] then 0.0 else rows[0].estimatedMinutes + SumEstimated(rows[1..])
  }

  /** Mean of the stipulated times over all rows: the count times the mean is
      the total. */
  function MeanEstimated(rows: seq<TimeRecord>): (mean: real)
    requires |rows| > 0
    ensures mean * (|rows| as real) == SumEstimated(rows)
    ensures RecordsInvariant(rows) ==> mean > 0.0
  {
    SumEstimated(rows) / (|rows| as real)
  }

  /** Ten per cent of the mean stipulated time: the tolerance of the rule.
      Over the records the manager keeps it is positive and below the mean. */
  function Tolerance(rows: seq<TimeRecord>): (t: real)
    requires |rows| > 0
    ensures RecordsInvariant(rows) ==> 0.0 < t < MeanEstimated(rows)
  {
    MeanEstimated(rows) * 0.1
  }

  /** Performance state of a timeline bar. */
  datatype Status = Late | Ahead | OnTime

  /** The label the chart shows for a state. */
  function Label(s: Status): string {
    match s
    case Late => "Con Retraso"
    case Ahead => "Adelantado"
    case OnTime => "A Tiempo"
  }

  /** Delayed when the deviation exceeds the tolerance, early when it falls
      below its negation (and is not delayed), on time otherwise. */
  function Classify(difference: real, tolerance: real): (s: Status)
    ensures s == Late <==> difference > tolerance
    ensures s == Ahead <==> !(difference > tolerance) && difference < -tolerance
    ensures s == OnTime <==> -tolerance <= difference <= tolerance
  {
    if difference > tolerance then Late
    else if difference < -tolerance then Ahead
    else OnTime
  }

  /** One bar of the timeline. */
  datatype TimelineRow = TimelineRow(record: TimeRecord, finish: Instant, difference: real, status: Status)

  /** The rows of the timeline chart, or nothing when there are no records. */
  function Timeline(rows: seq<TimeRecord>): (r: Option<seq<TimelineRow>>)
    ensures r.None? <==> rows == []
    ensures r.Some? ==> |r.value| == |rows|
    ensures r.Some? ==> forall i :: 0 <= i < |rows| ==>
      && r.value[i].record == rows[i]
      && r.value[i].finish - rows[i].registeredAt == rows[i].realMinutes
      && r.value[i].difference == rows[i].realMinutes - rows[i].estimatedMinutes
      && (r.value[i].status == Late <==> r.value[i].difference > Tolerance(rows))
      && (r.value[i].status == OnTime <==> -Tolerance(rows) <= r.value[i].difference <= Tolerance(rows))
      && Label(r.value[i].status) ==
           if r.value[i].difference > Tolerance(rows) then "Con Retraso"
           else if r.value[i].difference < -Tolerance(rows) then "Adelantado"
           else "A Tiempo"
  {
    if rows == [] then None
    else
      var tolerance := Tolerance(rows);
      Some(seq(|rows|, i requires 0 <= i < |rows| =>
        TimelineRow(rows[i], rows[i].registeredAt + rows[i].realMinutes,
                    Deviation(rows[i]), Classify(Deviation(rows[i]), tolerance))))
  }

  /** Over the records the manager keeps, each bar is early exactly when its
      deviation is below minus the tolerance, and a deviation of exactly plus
      or minus the tolerance is on time. */
  lemma TimelineStatusOnRecords(rows: seq<TimeRecord>, i: nat)
    requires RecordsInvariant(rows) && i < |rows|
    ensures var bar := Timeline(rows).value[i];
      && (bar.status == Late <==> Deviation(rows[i]) > Tolerance(rows))
      && (bar.status == Ahead <==> Deviation(rows[i]) < -Tolerance(rows))
      && (bar.status == OnTime <==> -Tolerance(rows) <= Deviation(rows[i]) <= Tolerance(rows))
      && (Deviation(rows[i]) == Tolerance(rows) ==> bar.status == OnTime)
      && (Deviation(rows[i]) == -Tolerance(rows) ==> bar.status == OnTime)
  {
  }

  // ---------------------------------------------------------------------
  // Per-task performance summary
  // ---------------------------------------------------------------------

  /** Task names occurring in the records, compared exactly (with case). */
  function TaskNames(rows: seq<TimeRecord>): set<string> {
    set i | 0 <= i < |rows| :: rows[i].task
  }

  /** The records of one task, in table order. */
  function RowsOf(rows: seq<TimeRecord>, name: string): (r: seq<TimeRecord>)
    ensures |r| <= |rows|
    ensures forall x :: x in r ==> x in rows && x.task == name
    ensures forall i :: 0 <= i < |rows| && rows[i].task == name ==> rows[i] in r
  {
    if rows == [] then []
    else if rows[0].task == name then [rows[0]] + RowsOf(rows[1..], name)
    else RowsOf(rows[1..], name)
  }

  function SumReal(rows: seq<TimeRecord>): real {
    if rows == [] then 0.0 else rows[0].realMinutes + SumReal(rows[1..])
  }

  /** One bar pair of the performance chart: the mean real time and the first
      stipulated time of a task. */
  datatype TaskPerformance = TaskPerformance(realAverage: real, estimatedFirst: real)

  /** Mean real time and first stipulated time of a non-empty group: the
      count times the mean is the total real time. */
  function Summary(group: seq<TimeRecord>): (p: TaskPerformance)
    requires |group| > 0
    ensures p.realAverage * (|group| as real) == SumReal(group)
    ensures p.estimatedFirst == group[0].estimatedMinutes
  {
    TaskPerformance(SumReal(group) / (|group| as real), group[0].estimatedMinutes)
  }

  /** The per-task summary, or nothing when there are no records. */
  function Performance(rows: seq<TimeRecord>): (r: Option<map<string, TaskPerformance>>)
    ensures r.None? <==> rows == []
    ensures r.Some? ==> r.value.Keys == TaskNames(rows)
  {
    if rows == [] then None
    else Some(map name | name in TaskNames(rows) :: Summary(RowsOf(rows, name)))
  }

  /** (n + 1) * c == n * c + c, kept apart from the sequence reasoning. */
  lemma Distribute(n: real, c: real)
    ensures (n + 1.0) * c == n * c + c
  {
  }

  /** A total bounded by n copies of each bound has a mean within them. */
  lemma MeanBetween(total: real, n: real, lo: real, hi: real)
    requires n > 0.0 && n * lo <= total <= n * hi
    ensures lo <= total / n <= hi
  {
  }

  lemma {:induction false} SumRealWithin(group: seq<TimeRecord>, lo: real, hi: real)
    requires forall i :: 0 <= i < |group| ==> lo <= group[i].realMinutes <= hi
    ensures (|group| as real) * lo <= SumReal(group) <= (|group| as real) * hi
  {
    if group != [] {
      var rest := group[1..];
      SumRealWithin(rest, lo, hi);
      var n := |rest| as real;
      assert |group| as real == n + 1.0;
      Distribute(n, lo);
      Distribute(n, hi);
    }
  }

  /** The mean real time of a non-empty group lies between any bounds on
      the real times in it. */
  lemma GroupAverageWithin(group: seq<TimeRecord>, lo: real, hi: real)
    requires |group| > 0
    requires forall i :: 0 <= i < |group| ==> lo <= group[i].realMinutes <= hi
    ensures lo <= Summary(group).realAverage <= hi
  {
    SumRealWithin(group, lo, hi);
    MeanBetween(SumReal(group), |group| as real, lo, hi);
  }

  /** The mean real time of a task lies between any bounds on the real
      times of its records. */
  lemma AverageWithin(rows: seq<TimeRecord>, name: string, lo: real, hi: real)
    requires name in TaskNames(rows)
    requires forall i :: 0 <= i < |rows| && rows[i].task == name ==> lo <= rows[i].realMinutes <= hi
    ensures lo <= Performance(rows).value[name].realAverage <= hi
  {
    var group := RowsOf(rows, name);
    var k :| 0 <= k < |rows| && rows[k].task == name;
    assert rows[k] in group;
    forall j | 0 <= j < |group|
      ensures lo <= group[j].realMinutes <= hi
    {
      assert group[j] in group;
      var i :| 0 <= i < |rows| && rows[i] == group[j];
    }
    GroupAverageWithin(group, lo, hi);
    assert Performance(rows).value[name] == Summary(group);
  }

  /** Appending a record adds it to the end of its own task's group and
      leaves every other group as it was: together with `RowsOf([], name) == []`
      this fixes each group, in table order and with repeats. */
  lemma {:induction false} RowsOfAppend(rows: seq<TimeRecord>, x: TimeRecord, name: string)
    ensures RowsOf(rows + [x], name) == RowsOf(rows, name) + (if x.task == name then [x] else [])
  {
    if rows != [] {
      assert (rows + [x])[1..] == rows[1..] + [x];
      RowsOfAppend(rows[1..], x, name);
    }
  }

  /** Appending a record adds its real time to the total. */
  lemma {:induction false} SumRealAppend(group: seq<TimeRecord>, x: TimeRecord)
    ensures SumReal(group + [x]) == SumReal(group) + x.realMinutes
  {
    if group != [] {
      assert (group + [x])[1..] == group[1..] + [x];
      SumRealAppend(group[1..], x);
    }
  }

  /** Appending a record of a task grows that task's group by one and its
      total real time by the record's real time, so the summary's mean is the
      total real time of the task's records over their number. */
  lemma GroupOfAppendedRecord(rows: seq<TimeRecord>, x: TimeRecord)
    ensures |RowsOf(rows + [x], x.task)| == |RowsOf(rows, x.task)| + 1
    ensures SumReal(RowsOf(rows + [x], x.task)) == SumReal(RowsOf(rows, x.task)) + x.realMinutes
  {
    RowsOfAppend(rows, x, x.task);
    SumRealAppend(RowsOf(rows, x.task), x);
  }

  /** The stipulated time of a task's summary is the snapshot of its first
      record in table order. */
  lemma {:induction false} FirstEstimatedIsEarliest(rows: seq<TimeRecord>, name: string, k: nat)
    requires k < |rows| && rows[k].task == name
    requires forall j :: 0 <= j < k ==> rows[j].task != name
    ensures |RowsOf(rows, name)| > 0 && RowsOf(rows, name)[0] == rows[k]
  {
    if k > 0 {
      FirstEstimatedIsEarliest(rows[1..], name, k - 1);
    }
  }

  /** The same through the chart's summary map. */
  lemma PerformanceFirstEstimated(rows: seq<TimeRecord>, name: string, k: nat)
    requires k < |rows| && rows[k].task == name
    requires forall j :: 0 <= j < k ==> rows[j].task != name
    ensures name in Performance(rows).value
    ensures Performance(rows).value[name].estimatedFirst == rows[k].estimatedMinutes
  {
    FirstEstimatedIsEarliest(rows, name, k);
    assert name in TaskNames(rows);
  }
}
