/** The filter stage: inbound calls that involve the user and last at least
    the activity threshold, in table order. */
module Filter {
  import opened Records

  /** The three masks applied one after the other. */
  datatype Stage = InboundOnly | InvolvesUser | ActiveOnly

  predicate Passes(stage: Stage, r: CallRecord, cfg: Config) {
    match stage
    case InboundOnly => r.direction == "Inbound"
    case InvolvesUser => r.to == cfg.user || r.from == cfg.user
    // A missing duration is NaN in the table, and NaN >= threshold is false.
    case ActiveOnly => r.duration.Some? && r.duration.value >= cfg.threshold
  }

  /** A record belongs to the filtered set. */
  predicate Matches(r: CallRecord, cfg: Config) {
    Passes(InboundOnly, r, cfg) && Passes(InvolvesUser, r, cfg) && Passes(ActiveOnly, r, cfg)
  }

  /** The rows that pass one stage's mask, in their order. */
  function Narrow(rows: seq<CallRecord>, stage: Stage, cfg: Config): (kept: seq<CallRecord>)
    ensures |kept| <= |rows|
    ensures forall r :: r in kept ==> r in rows && Passes(stage, r, cfg)
  {
    if rows == [] then []
    else
      var last := rows[|rows| - 1];
      Narrow(rows[..|rows| - 1], stage, cfg) + (if Passes(stage, last, cfg) then [last] else [])
  }

  /** The filtered set: the records that match, in table order. */
  function Filtered(table: seq<CallRecord>, cfg: Config): (kept: seq<CallRecord>)
    ensures |kept| <= |table|
    ensures forall r :: r in kept ==> r in table && Matches(r, cfg)
  {
    if table == [] then []
    else
      var last := table[|table| - 1];
      Filtered(table[..|table| - 1], cfg) + (if Matches(last, cfg) then [last] else [])
  }

  /** One boolean mask over the rows: `df[mask]`. */
  method ApplyStage(rows: seq<CallRecord>, stage: Stage, cfg: Config) returns (kept: seq<CallRecord>)
    ensures kept == Narrow(rows, stage, cfg)
  {
    kept := [];
    for i := 0 to |rows|
      invariant kept == Narrow(rows[..i], stage, cfg)
    {
      assert rows[..i + 1][..i] == rows[..i];
      if Passes(stage, rows[i], cfg) {
        kept := kept + [rows[i]];
      }
    }
    assert rows[..|rows|] == rows;
  }

  /** The filter: direction, then user, then duration, each narrowing the
      result of the one before. */
  method FilterData(table: seq<CallRecord>, cfg: Config) returns (kept: seq<CallRecord>)
    ensures kept == Filtered(table, cfg)
  {
    kept := ApplyStage(table, InboundOnly, cfg);
    kept := ApplyStage(kept, InvolvesUser, cfg);
    kept := ApplyStage(kept, ActiveOnly, cfg);
    NarrowThrice(table, cfg);
  }

  lemma NarrowSnoc(rows: seq<CallRecord>, r: CallRecord, stage: Stage, cfg: Config)
    ensures Narrow(rows + [r], stage, cfg) == Narrow(rows, stage, cfg) + (if Passes(stage, r, cfg) then [r] else [])
  {
    assert (rows + [r])[..|rows|] == rows;
  }

  lemma FilteredSnoc(rows: seq<CallRecord>, r: CallRecord, cfg: Config)
    ensures Filtered(rows + [r], cfg) == Filtered(rows, cfg) + (if Matches(r, cfg) then [r] else [])
  {
    assert (rows + [r])[..|rows|] == rows;
  }

  /** The three successive masks select exactly the filtered set. */
  lemma {:induction false} NarrowThrice(table: seq<CallRecord>, cfg: Config)
    ensures Narrow(Narrow(Narrow(table, InboundOnly, cfg), InvolvesUser, cfg), ActiveOnly, cfg)
         == Filtered(table, cfg)
  {
    if table != [] {
      var init, last := table[..|table| - 1], table[|table| - 1];
      NarrowThrice(init, cfg);
      var a := Narrow(init, InboundOnly, cfg);
      var b := Narrow(a, InvolvesUser, cfg);
      var c := Narrow(b, ActiveOnly, cfg);
      assert c == Filtered(init, cfg);
      if !Passes(InboundOnly, last, cfg) {
        assert Narrow(table, InboundOnly, cfg) == a;
        assert Filtered(table, cfg) == Filtered(init, cfg);
      } else {
        assert Narrow(table, InboundOnly, cfg) == a + [last];
        NarrowSnoc(a, last, InvolvesUser, cfg);
        if !Passes(InvolvesUser, last, cfg) {
          assert Narrow(a + [last], InvolvesUser, cfg) == b;
          assert Filtered(table, cfg) == Filtered(init, cfg);
        } else {
          NarrowSnoc(b, last, ActiveOnly, cfg);
          if Passes(ActiveOnly, last, cfg) {
            assert Filtered(table, cfg) == Filtered(init, cfg) + [last];
          } else {
            assert Filtered(table, cfg) == Filtered(init, cfg);
          }
        }
      }
    }
  }

  /** `sub` is `s` with some elements left out, the rest in their order. */
  ghost predicate IsSubsequence<T>(sub: seq<T>, s: seq<T>)
    decreases |s|
  {
    if sub == [] then true
    else if s == [] then false
    else
      (sub[|sub| - 1] == s[|s| - 1] && IsSubsequence(sub[..|sub| - 1], s[..|s| - 1]))
      || IsSubsequence(sub, s[..|s| - 1])
  }

  /** The filter keeps its rows in table order. */
  lemma {:induction false} FilteredIsSubsequence(table: seq<CallRecord>, cfg: Config)
    ensures IsSubsequence(Filtered(table, cfg), table)
  {
    if table != [] {
      var init, last := table[..|table| - 1], table[|table| - 1];
      FilteredIsSubsequence(init, cfg);
      var kept := Filtered(table, cfg);
      if Matches(last, cfg) {
        assert kept == Filtered(init, cfg) + [last];
        assert kept[..|kept| - 1] == Filtered(init, cfg);
      } else {
        assert kept == Filtered(init, cfg);
        assert kept != [] ==> IsSubsequence(kept, init);
      }
    }
  }

  /** Every matching record is kept, as often as it occurs in the table, and
      nothing else is. */
  lemma {:induction false} FilteredKeepsAllMatches(table: seq<CallRecord>, cfg: Config, r: CallRecord)
    ensures multiset(Filtered(table, cfg))[r] == if Matches(r, cfg) then multiset(table)[r] else 0
  {
    if table != [] {
      var init, last := table[..|table| - 1], table[|table| - 1];
      FilteredKeepsAllMatches(init, cfg, r);
      assert table == init + [last];
    }
  }

  /** Filtering the filtered set changes nothing. */
  lemma {:induction false} FilteredIdempotent(table: seq<CallRecord>, cfg: Config)
    ensures Filtered(Filtered(table, cfg), cfg) == Filtered(table, cfg)
  {
    if table != [] {
      var init, last := table[..|table| - 1], table[|table| - 1];
      var kept := Filtered(init, cfg);
      FilteredIdempotent(init, cfg);
      if Matches(last, cfg) {
        assert Filtered(table, cfg) == kept + [last];
        FilteredSnoc(kept, last, cfg);
      } else {
        assert Filtered(table, cfg) == kept;
      }
    }
  }

  /** The filter comes back empty exactly when no record of the table
      matches: the "no calls matched" exit. */
  lemma {:induction false} FilteredEmpty(table: seq<CallRecord>, cfg: Config)
    ensures Filtered(table, cfg) == [] <==> forall r :: r in table ==> !Matches(r, cfg)
  {
    if table != [] {
      var init, last := table[..|table| - 1], table[|table| - 1];
      FilteredEmpty(init, cfg);
      assert table == init + [last];
      assert forall r :: r in table ==> r in init || r == last;
    }
  }
}
