/** The summary sheet: seven metrics over the filtered set, in fixed order. */
module Summary {
  import opened Records
  import opened Duration
  import Filter

  /** A cell of the Value column: a call count or a readable duration. */
  datatype MetricValue = Count(calls: nat) | Time(text: string)

  datatype SummaryRow = SummaryRow(metric: string, value: MetricValue)

  const Metrics: seq<string> := [
    "Total Calls",
    "Total Calls To User",
    "Total Calls From User",
    "Total Time Spent",
    "Avg Call Time (To User)",
    "Avg Call Time (From User)",
    "Avg Call Time (All)"
  ]

  /** The rows whose callee is the user, in their order. */
  function CallsTo(rows: seq<CallRecord>, user: string): (sub: seq<CallRecord>)
    ensures |sub| <= |rows|
    ensures forall r :: r in sub ==> r in rows && r.to == user
  {
    if rows == [] then []
    else (if rows[0].to == user then [rows[0]] else []) + CallsTo(rows[1..], user)
  }

  /** The rows whose caller is the user, in their order. */
  function CallsFrom(rows: seq<CallRecord>, user: string): (sub: seq<CallRecord>)
    ensures |sub| <= |rows|
    ensures forall r :: r in sub ==> r in rows && r.from == user
  {
    if rows == [] then []
    else (if rows[0].from == user then [rows[0]] else []) + CallsFrom(rows[1..], user)
  }

  /** The "to user" subset keeps every row whose callee is the user, as often
      as it occurs, and no other row. */
  lemma {:induction false} CallsToKeepsAll(rows: seq<CallRecord>, user: string, r: CallRecord)
    ensures multiset(CallsTo(rows, user))[r] == if r.to == user then multiset(rows)[r] else 0
  {
    if rows != [] {
      CallsToKeepsAll(rows[1..], user, r);
      assert rows == [rows[0]] + rows[1..];
    }
  }

  /** The "from user" subset keeps every row whose caller is the user, as
      often as it occurs, and no other row. */
  lemma {:induction false} CallsFromKeepsAll(rows: seq<CallRecord>, user: string, r: CallRecord)
    ensures multiset(CallsFrom(rows, user))[r] == if r.from == user then multiset(rows)[r] else 0
  {
    if rows != [] {
      CallsFromKeepsAll(rows[1..], user, r);
      assert rows == [rows[0]] + rows[1..];
    }
  }

  /** The number of rows in which the user is both caller and callee. */
  function SelfCalls(rows: seq<CallRecord>, user: string): nat {
    if rows == [] then 0
    else (if rows[0].to == user && rows[0].from == user then 1 else 0) + SelfCalls(rows[1..], user)
  }

  /** Every row has a duration (the filter guarantees it). */
  predicate AllTimed(rows: seq<CallRecord>) {
    forall r :: r in rows ==> r.duration.Some?
  }

  /** The sum of the duration column. */
  function TotalSeconds(rows: seq<CallRecord>): nat
    requires AllTimed(rows)
  {
    if rows == [] then 0 else rows[0].duration.value + TotalSeconds(rows[1..])
  }

  /** The mean truncated to whole seconds, 0 for an empty subset. */
  function TruncatedMean(sum: nat, count: nat): nat {
    if count == 0 then 0 else sum / count
  }

  /** The truncated mean is 0 for no calls, and otherwise the largest whole
      number of seconds that, given to every call, stays within the sum. */
  lemma TruncatedMeanBounds(sum: nat, count: nat)
    ensures count == 0 ==> TruncatedMean(sum, count) == 0
    ensures count > 0 ==> TruncatedMean(sum, count) * count <= sum < (TruncatedMean(sum, count) + 1) * count
  {
    if count > 0 {
      var q, r := sum / count, sum % count;
      assert sum == q * count + r && 0 <= r < count;
      assert (q + 1) * count == q * count + count;
    }
  }

  /** The average duration of a subset, in whole seconds. */
  function AverageSeconds(rows: seq<CallRecord>): nat
    requires AllTimed(rows)
  {
    TruncatedMean(TotalSeconds(rows), |rows|)
  }

  /** A two-column table built from its Metric column and its Value column. */
  function Table(metrics: seq<string>, values: seq<MetricValue>): (sheet: seq<SummaryRow>)
    requires |metrics| == |values|
    ensures |sheet| == |metrics|
    ensures forall i :: 0 <= i < |sheet| ==> sheet[i].metric == metrics[i] && sheet[i].value == values[i]
  {
    seq(|metrics|, i requires 0 <= i < |metrics| => SummaryRow(metrics[i], values[i]))
  }

  /** The summary sheet of the filtered set: the seven metrics in their fixed
      order, each with its value. */
  function SummarySheet(rows: seq<CallRecord>, user: string): (sheet: seq<SummaryRow>)
    requires AllTimed(rows)
    ensures |sheet| == |Metrics| == 7
    ensures forall i :: 0 <= i < |sheet| ==> sheet[i].metric == Metrics[i]
  {
    var to, from := CallsTo(rows, user), CallsFrom(rows, user);
    assert AllTimed(to) && AllTimed(from);
    Table(Metrics, [
      Count(|rows|),
      Count(|to|),
      Count(|from|),
      Time(Readable(Some(TotalSeconds(rows)))),
      Time(Readable(Some(AverageSeconds(to)))),
      Time(Readable(Some(AverageSeconds(from)))),
      Time(Readable(Some(AverageSeconds(rows))))
    ])
  }

  /** The value of each metric. */
  lemma SummaryValues(rows: seq<CallRecord>, user: string)
    requires AllTimed(rows)
    ensures AllTimed(CallsTo(rows, user)) && AllTimed(CallsFrom(rows, user))
    ensures var sheet := SummarySheet(rows, user);
      && sheet[0].value == Count(|rows|)
      && sheet[1].value == Count(|CallsTo(rows, user)|)
      && sheet[2].value == Count(|CallsFrom(rows, user)|)
      && sheet[3].value == Time(Readable(Some(TotalSeconds(rows))))
      && sheet[4].value == Time(Readable(Some(AverageSeconds(CallsTo(rows, user)))))
      && sheet[5].value == Time(Readable(Some(AverageSeconds(CallsFrom(rows, user)))))
      && sheet[6].value == Time(Readable(Some(AverageSeconds(rows))))
  {
    var to, from := CallsTo(rows, user), CallsFrom(rows, user);
    assert AllTimed(to) && AllTimed(from);
    var values := [
      Count(|rows|),
      Count(|to|),
      Count(|from|),
      Time(Readable(Some(TotalSeconds(rows)))),
      Time(Readable(Some(AverageSeconds(to)))),
      Time(Readable(Some(AverageSeconds(from)))),
      Time(Readable(Some(AverageSeconds(rows))))
    ];
    assert SummarySheet(rows, user) == Table(Metrics, values);
  }

  /** Counting "to" and "from" separately counts each self call twice. */
  lemma {:induction false} ToPlusFrom(rows: seq<CallRecord>, user: string)
    requires forall r :: r in rows ==> r.to == user || r.from == user
    ensures |CallsTo(rows, user)| + |CallsFrom(rows, user)| == |rows| + SelfCalls(rows, user)
  {
    if rows != [] {
      assert forall r :: r in rows[1..] ==> r in rows;
      ToPlusFrom(rows[1..], user);
    }
  }

  lemma {:induction false} NoSelfCalls(rows: seq<CallRecord>, user: string)
    ensures SelfCalls(rows, user) == 0 <==> forall r :: r in rows ==> !(r.to == user && r.from == user)
  {
    if rows != [] {
      NoSelfCalls(rows[1..], user);
      assert rows == [rows[0]] + rows[1..];
    }
  }

  /** On rows that all involve the user, Total Calls is at most the To count
      plus the From count, with equality exactly when no call has the user at
      both ends. */
  lemma TotalCallsBound(rows: seq<CallRecord>, user: string)
    requires forall r :: r in rows ==> r.to == user || r.from == user
    ensures |rows| <= |CallsTo(rows, user)| + |CallsFrom(rows, user)|
    ensures |rows| == |CallsTo(rows, user)| + |CallsFrom(rows, user)|
        <==> forall r :: r in rows ==> !(r.to == user && r.from == user)
  {
    ToPlusFrom(rows, user);
    NoSelfCalls(rows, user);
  }

  lemma {:induction false} TotalAtLeast(rows: seq<CallRecord>, threshold: int)
    requires AllTimed(rows)
    requires forall r :: r in rows ==> r.duration.value >= threshold
    ensures TotalSeconds(rows) >= |rows| * threshold
  {
    if rows != [] {
      var rest := rows[1..];
      assert forall r :: r in rest ==> r in rows;
      TotalAtLeast(rest, threshold);
      MulSucc(|rest|, threshold);
    }
  }

  /** Every call in a non-empty subset lasts at least the threshold, so its
      truncated average does too. */
  lemma AverageAtLeastThreshold(rows: seq<CallRecord>, threshold: int)
    requires AllTimed(rows)
    requires forall r :: r in rows ==> r.duration.value >= threshold
    requires rows != []
    ensures AverageSeconds(rows) >= threshold
  {
    TotalAtLeast(rows, threshold);
    var avg, n := AverageSeconds(rows), |rows|;
    TruncatedMeanBounds(TotalSeconds(rows), n);
    assert n * threshold < n * (avg + 1);
    MulMonotone(n, threshold, avg + 1);
  }

  lemma MulSucc(n: nat, t: int)
    ensures (n + 1) * t == n * t + t
  {
  }

  lemma MulMonotone(n: nat, a: int, b: int)
    ensures a >= b ==> n * a >= n * b
  {
  }

  /** The summary of a filtered set: the call counts obey the bound above, and
      each average that has calls behind it is at least the threshold. */
  lemma FilteredSummary(table: seq<CallRecord>, cfg: Config)
    ensures AllTimed(Filter.Filtered(table, cfg))
    ensures
      var rows := Filter.Filtered(table, cfg);
      var to, from := CallsTo(rows, cfg.user), CallsFrom(rows, cfg.user);
      && |rows| <= |to| + |from|
      && (rows != [] ==> AverageSeconds(rows) >= cfg.threshold)
      && (to != [] ==> AverageSeconds(to) >= cfg.threshold)
      && (from != [] ==> AverageSeconds(from) >= cfg.threshold)
  {
    var rows := Filter.Filtered(table, cfg);
    var to, from := CallsTo(rows, cfg.user), CallsFrom(rows, cfg.user);
    TotalCallsBound(rows, cfg.user);
    if rows != [] {
      AverageAtLeastThreshold(rows, cfg.threshold);
    }
    if to != [] {
      AverageAtLeastThreshold(to, cfg.threshold);
    }
    if from != [] {
      AverageAtLeastThreshold(from, cfg.threshold);
    }
  }
}
