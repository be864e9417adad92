/** The detail sheet: one row per filtered call, in order of the call's
    instant, with the interaction text and the readable duration. */
module Detail {
  import opened Records
  import opened Duration
  import opened Display
  import Filter

  /** A row of the detail sheet. The local wall-clock rendering of the
      instant is not modelled: the row keeps the instant itself. */
  datatype DetailRow = DetailRow(
    createdAt: int,
    interaction: string,
    readable: string,
    seconds: Option<nat>
  )

  const CallFromPrefix: string := "call from "
  const CallToPrefix: string := "call to "

  /** Who the call was with, seen from the user: the caller's display name
      when the user was called, the callee verbatim otherwise. */
  function Interaction(r: CallRecord, user: string): string {
    if r.to == user then CallFromPrefix + DisplayName(r.from) else CallToPrefix + r.to
  }

  predicate StartsWith(text: string, prefix: string) {
    |text| >= |prefix| && text[..|prefix|] == prefix
  }

  /** The interaction text tells the two cases apart: it reads "call from …"
      exactly when the user is the callee, and then names the caller; for a
      filtered call that reads "call to …" the user is the caller. */
  lemma InteractionDirection(r: CallRecord, cfg: Config)
    ensures StartsWith(Interaction(r, cfg.user), CallFromPrefix) <==> r.to == cfg.user
    ensures StartsWith(Interaction(r, cfg.user), CallToPrefix) <==> r.to != cfg.user
    ensures r.to == cfg.user ==> Interaction(r, cfg.user)[|CallFromPrefix|..] == DisplayName(r.from)
    ensures r.to != cfg.user ==> Interaction(r, cfg.user)[|CallToPrefix|..] == r.to
    ensures Filter.Matches(r, cfg) && r.to != cfg.user ==> r.from == cfg.user
  {
    var text := Interaction(r, cfg.user);
    if r.to == cfg.user {
      assert text[..|CallFromPrefix|] == CallFromPrefix;
      assert text[5] == 'f';
    } else {
      assert text[..|CallToPrefix|] == CallToPrefix;
      assert text[5] == 't';
    }
  }

  /** The detail row of one call. */
  function RowOf(r: CallRecord, cfg: Config): DetailRow {
    DetailRow(r.createdAt, Interaction(r, cfg.user), Readable(r.duration), r.duration)
  }

  /** The detail rows of the calls, call by call in their order. */
  function RowsOf(calls: seq<CallRecord>, cfg: Config): (rows: seq<DetailRow>)
    ensures |rows| == |calls|
    ensures forall i :: 0 <= i < |calls| ==> rows[i] == RowOf(calls[i], cfg)
  {
    if calls == [] then [] else [RowOf(calls[0], cfg)] + RowsOf(calls[1..], cfg)
  }

  predicate SortedByInstant(calls: seq<CallRecord>) {
    forall i, j :: 0 <= i < j < |calls| ==> calls[i].createdAt <= calls[j].createdAt
  }

  predicate RowsInOrder(rows: seq<DetailRow>) {
    forall i, j :: 0 <= i < j < |rows| ==> rows[i].createdAt <= rows[j].createdAt
  }

  /** `call` put before the first call of `sorted` that is not earlier than it. */
  function Insert(call: CallRecord, sorted: seq<CallRecord>): (res: seq<CallRecord>)
    ensures multiset(res) == multiset(sorted) + multiset{call}
  {
    if sorted == [] then [call]
    else if call.createdAt <= sorted[0].createdAt then [call] + sorted
    else
      assert sorted == [sorted[0]] + sorted[1..];
      [sorted[0]] + Insert(call, sorted[1..])
  }

  /** No call of `calls` happens before `instant`. */
  predicate NoneBefore(instant: int, calls: seq<CallRecord>) {
    forall j :: 0 <= j < |calls| ==> instant <= calls[j].createdAt
  }

  /** Inserting a call no earlier than `instant` keeps that lower bound. */
  lemma {:induction false} InsertNoneBefore(instant: int, call: CallRecord, calls: seq<CallRecord>)
    requires NoneBefore(instant, calls) && instant <= call.createdAt
    ensures NoneBefore(instant, Insert(call, calls))
  {
    if calls != [] && call.createdAt > calls[0].createdAt {
      InsertNoneBefore(instant, call, calls[1..]);
      var rest := Insert(call, calls[1..]);
      assert Insert(call, calls) == [calls[0]] + rest;
    }
  }

  /** Inserting into a sorted sequence keeps it sorted. */
  lemma {:induction false} InsertSorted(call: CallRecord, sorted: seq<CallRecord>)
    requires SortedByInstant(sorted)
    ensures SortedByInstant(Insert(call, sorted))
  {
    if sorted != [] && call.createdAt > sorted[0].createdAt {
      var first, tail := sorted[0], sorted[1..];
      var rest := Insert(call, tail);
      InsertSorted(call, tail);
      assert NoneBefore(first.createdAt, tail) by {
        forall j | 0 <= j < |tail| ensures first.createdAt <= tail[j].createdAt {
          assert tail[j] == sorted[j + 1];
        }
      }
      InsertNoneBefore(first.createdAt, call, tail);
      assert Insert(call, sorted) == [first] + rest;
    }
  }

  /** Sorting by instant: the order sort_values(by="Created at") produces,
      up to the order of calls with equal instants, which it leaves open. */
  function SortByInstant(calls: seq<CallRecord>): (sorted: seq<CallRecord>)
    ensures SortedByInstant(sorted)
    ensures multiset(sorted) == multiset(calls)
  {
    if calls == [] then []
    else
      assert calls == [calls[0]] + calls[1..];
      InsertSorted(calls[0], SortByInstant(calls[1..]));
      Insert(calls[0], SortByInstant(calls[1..]))
  }

  lemma RowsOfCons(call: CallRecord, calls: seq<CallRecord>, cfg: Config)
    ensures RowsOf([call] + calls, cfg) == [RowOf(call, cfg)] + RowsOf(calls, cfg)
  {
    assert ([call] + calls)[1..] == calls;
  }

  lemma {:induction false} RowsOfInsert(call: CallRecord, sorted: seq<CallRecord>, cfg: Config)
    ensures multiset(RowsOf(Insert(call, sorted), cfg)) == multiset(RowsOf(sorted, cfg)) + multiset{RowOf(call, cfg)}
  {
    if sorted == [] {
      RowsOfCons(call, [], cfg);
    } else if call.createdAt <= sorted[0].createdAt {
      RowsOfCons(call, sorted, cfg);
    } else {
      var first, tail := sorted[0], sorted[1..];
      var rest := Insert(call, tail);
      assert sorted == [first] + tail;
      assert Insert(call, sorted) == [first] + rest;
      RowsOfInsert(call, tail, cfg);
      RowsOfCons(first, rest, cfg);
      RowsOfCons(first, tail, cfg);
      assert multiset(RowsOf([first] + rest, cfg)) == multiset{RowOf(first, cfg)} + multiset(RowsOf(rest, cfg));
      assert multiset(RowsOf(sorted, cfg)) == multiset{RowOf(first, cfg)} + multiset(RowsOf(tail, cfg));
    }
  }

  /** Sorting the calls reorders their rows and nothing more. */
  lemma {:induction false} RowsOfSort(calls: seq<CallRecord>, cfg: Config)
    ensures multiset(RowsOf(SortByInstant(calls), cfg)) == multiset(RowsOf(calls, cfg))
  {
    if calls != [] {
      RowsOfSort(calls[1..], cfg);
      RowsOfInsert(calls[0], SortByInstant(calls[1..]), cfg);
    }
  }

  /** The detail sheet of the filtered set: one row per call, the rows of
      the calls in any order that puts earlier instants first. */
  function DetailSheet(filtered: seq<CallRecord>, cfg: Config): (rows: seq<DetailRow>)
    ensures |rows| == |filtered|
    ensures RowsInOrder(rows)
    ensures multiset(rows) == multiset(RowsOf(filtered, cfg))
  {
    var sorted := SortByInstant(filtered);
    RowsOfSort(filtered, cfg);
    assert |sorted| == |multiset(sorted)| == |filtered|;
    RowsOf(sorted, cfg)
  }

  /** Every detail row is the row of one filtered call: its readable
      duration is the formatted raw duration beside it, and its interaction
      names the other party of that call. */
  lemma DetailRowsDescribeCalls(filtered: seq<CallRecord>, cfg: Config, k: nat)
    requires k < |filtered|
    ensures var row := DetailSheet(filtered, cfg)[k];
      && row.readable == Readable(row.seconds)
      && exists i :: 0 <= i < |filtered| && row == RowOf(filtered[i], cfg)
  {
    var rows := DetailSheet(filtered, cfg);
    var row := rows[k];
    assert row in multiset(rows);
    assert row in RowsOf(filtered, cfg);
    var i :| 0 <= i < |filtered| && RowsOf(filtered, cfg)[i] == row;
  }
}
