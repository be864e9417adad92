/** The analysis run: load, filter, summarise, detail, with the two early
    exits of an empty table and of an empty filtered set. */
module Analyzer {
  import opened Records
  import opened Filter
  import opened Summary
  import opened Detail
  import Display

  /** How a run ends. `Report` carries the two sheets that are written. */
  datatype Outcome =
    | NoData
    | NoMatches
    | Report(summary: seq<SummaryRow>, detail: seq<DetailRow>)

  /** One run over the loaded table. */
  method Analyze(table: seq<CallRecord>, cfg: Config) returns (outcome: Outcome)
    ensures outcome == NoData <==> table == []
    ensures outcome == NoMatches <==> table != [] && Filtered(table, cfg) == []
    ensures outcome.Report? ==>
      var filtered := Filtered(table, cfg);
      && filtered != []
      && AllTimed(filtered)
      && outcome.summary == SummarySheet(filtered, cfg.user)
      && outcome.detail == DetailSheet(filtered, cfg)
  {
    if table == [] {
      return NoData;
    }
    var filtered := FilterData(table, cfg);
    if filtered == [] {
      return NoMatches;
    }
    assert AllTimed(filtered);
    var summary := SummarySheet(filtered, cfg.user);
    var detail := DetailSheet(filtered, cfg);
    outcome := Report(summary, detail);
  }

  const Bob: string := "bob"

  /** A call from a PBX identifier to bob lasting 65 seconds. */
  const PbxCall: CallRecord := CallRecord("Inbound", Bob, Display.SamplePbxId, Some(65), 1704110400)

  /** A call from carol to bob lasting 5 seconds. */
  const ShortCall: CallRecord := CallRecord("Inbound", Bob, "carol", Some(5), 1704110460)

  const TenSeconds: Config := Config(Bob, 10)

  /** With a 10-second threshold only the PBX call is kept. */
  lemma TwoCallScenarioFilter()
    ensures Filtered([PbxCall, ShortCall], TenSeconds) == [PbxCall]
  {
    assert [PbxCall, ShortCall][..1] == [PbxCall];
    assert Filtered([PbxCall], TenSeconds) == [PbxCall];
  }

  /** Its summary counts one call, to bob, of 1m 5s. */
  lemma TwoCallScenarioSummary()
    ensures var sheet := SummarySheet([PbxCall], Bob);
      && sheet[0].value == Count(1)
      && sheet[1].value == Count(1)
      && sheet[2].value == Count(0)
      && sheet[3].value == Time("1m 5s")
  {
    SummaryValues([PbxCall], Bob);
    assert TotalSeconds([PbxCall]) == 65;
    Duration.ReadableMinuteSeconds();
  }

  /** Its detail sheet has one row, reading "call from PBX" and "1m 5s". */
  lemma TwoCallScenarioDetail()
    ensures DetailSheet([PbxCall], TenSeconds)
         == [DetailRow(1704110400, "call from PBX", "1m 5s", Some(65))]
  {
    assert Display.IsPbxId(Display.SamplePbxId);
    assert Interaction(PbxCall, Bob) == "call from PBX";
    Duration.ReadableMinuteSeconds();
    var rows := DetailSheet([PbxCall], TenSeconds);
    assert rows[0] in multiset(RowsOf([PbxCall], TenSeconds));
  }
}
