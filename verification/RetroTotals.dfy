/** Each total of the retrospective as the sum of the record field it is named for, and
    each ranked category with its own total and weight
    (`scripts/delivery-telemetry.py`). */
module RetroTotals {
  import opened Prelude
  import opened LedgerSchema
  import opened Ledger
  import opened LedgerRuns
  import opened Sorting
  import opened Retro

  /** An integer field of a record. */
  function Field(v: Json, name: string): int { if HasInt(v, name) then IntOf(v, name) else 0 }

  /** The sum of one field. */
  function Sum(records: seq<Json>, name: string): int {
    if records == [] then 0 else Sum(records[..|records| - 1], name) + Field(records[|records| - 1], name)
  }

  function Filter(records: seq<Json>, p: Json -> bool): seq<Json> {
    if records == [] then []
    else
      var r := records[|records| - 1];
      Filter(records[..|records| - 1], p) + (if p(r) then [r] else [])
  }

  predicate HasBoth(v: Json) {
    v.Obj? && Get(v.fields, "roborev_blockers").Some? && Get(v.fields, "roborev_nits").Some?
  }

  predicate LacksOne(v: Json) { !HasBoth(v) }

  predicate Passed(v: Json) { v.Obj? && Get(v.fields, "gate") == Some(Str("pass")) }

  lemma {:induction false} SumSnoc(records: seq<Json>, r: Json, name: string)
    ensures Sum(records + [r], name) == Sum(records, name) + Field(r, name)
  {
    hide Field;
    assert (records + [r])[..|records|] == records;
  }

  /** What a record must have to be counted; a lone half of the severity split is not
      looked at. */
  lemma {:induction false} CountableExactly(r: Json)
    ensures Countable(r) <==>
            && HasInt(r, "claim_collisions") && HasInt(r, "rebase_events") && HasInt(r, "rework")
            && HasInt(r, "roborev_findings") && HasInt(r, "gate_runs") && Get(r.fields, "gate").Some?
            && (HasBoth(r) ==> HasInt(r, "roborev_blockers") && HasInt(r, "roborev_nits"))
  {
    hide Get;
  }

  /** What one record adds. */
  lemma {:induction false} ContributionOf(r: Json)
    requires Countable(r)
    ensures var c := Contribution(r);
            && c.claims == Field(r, "claim_collisions") && c.rebases == Field(r, "rebase_events")
            && c.rework == Field(r, "rework") && c.gates == FailedRounds(r)
            && c.findings == Field(r, if HasBoth(r) then "roborev_blockers" else "roborev_findings")
            && c.nits == (if HasBoth(r) then Field(r, "roborev_nits") else 0)
            && c.severity == (if HasBoth(r) then 1 else 0)
  {
    hide Get, FailedRounds;
  }

  /** Collisions, rebases and rework are the sums of their fields. */
  lemma {:induction false} PlainTotals(records: seq<Json>)
    requires AllCountable(records)
    ensures Total(records).claims == Sum(records, "claim_collisions")
    ensures Total(records).rebases == Sum(records, "rebase_events")
    ensures Total(records).rework == Sum(records, "rework")
  {
    hide Countable, Contribution, Field;
    if records != [] {
      PlainTotals(records[..|records| - 1]);
      ContributionOf(records[|records| - 1]);
    }
  }

  /** Findings are the blockers of the records that split them by severity and the
      undivided findings of the others; nits come from the former alone. */
  lemma {:induction false} FindingTotals(records: seq<Json>)
    requires AllCountable(records)
    ensures var t, both, other := Total(records), Filter(records, HasBoth), Filter(records, LacksOne);
            && t.findings == Sum(both, "roborev_blockers") + Sum(other, "roborev_findings")
            && t.nits == Sum(both, "roborev_nits") && t.severity == |both|
  {
    hide Countable, Contribution, Field, Sum, HasBoth;
    if records == [] {
      NoSum();
    } else {
      var init, r := records[..|records| - 1], records[|records| - 1];
      FindingTotals(init);
      ContributionOf(r);
      SumSnoc(Filter(init, HasBoth), r, "roborev_blockers");
      SumSnoc(Filter(init, HasBoth), r, "roborev_nits");
      SumSnoc(Filter(init, LacksOne), r, "roborev_findings");
      assert Filter(init, HasBoth) + [] == Filter(init, HasBoth);
      assert Filter(init, LacksOne) + [] == Filter(init, LacksOne);
    }
  }

  lemma {:induction false} NoSum()
    ensures Sum([], "roborev_blockers") == 0 && Sum([], "roborev_nits") == 0 && Sum([], "roborev_findings") == 0
  {
  }

  /** A record's failed rounds: all its runs, but for the last when the gate passed. */
  lemma {:induction false} RoundsOf(v: Json)
    requires Countable(v)
    ensures var runs := Field(v, "gate_runs");
            FailedRounds(v) == if runs < 1 then 0 else if Passed(v) then runs - 1 else runs
  {
    hide Get;
  }

  /** When every record has run its gate, the failed rounds are all the gate runs but
      one for each record that passed. */
  lemma {:induction false} GateTotals(records: seq<Json>)
    requires AllCountable(records) && forall k :: 0 <= k < |records| ==> Field(records[k], "gate_runs") >= 1
    ensures Total(records).gates == Sum(records, "gate_runs") - |Filter(records, Passed)|
  {
    hide Countable, Contribution, Field, Passed, FailedRounds;
    if records != [] {
      var init, r := records[..|records| - 1], records[|records| - 1];
      GateTotals(init);
      ContributionOf(r);
      RoundsOf(r);
    }
  }

  /** A ranking lists each of the five categories with its own total and weight, and
      nothing else. */
  lemma {:induction false} RankedExactly(t: Tally, ranked: seq<Row>)
    requires multiset(ranked) == multiset(Rows(t))
    ensures |ranked| == 5
    ensures Row("gate_failures", t.gates, 5, 5 * t.gates) in ranked
    ensures Row("rework", t.rework, 4, 4 * t.rework) in ranked
    ensures Row("claim_collisions", t.claims, 3, 3 * t.claims) in ranked
    ensures Row("roborev_findings", t.findings, 2, 2 * t.findings) in ranked
    ensures Row("rebase_events", t.rebases, 2, 2 * t.rebases) in ranked
  {
    assert |multiset(ranked)| == |ranked| && |multiset(Rows(t))| == 5;
    var rows := Rows(t);
    assert rows[0] in multiset(ranked) && rows[1] in multiset(ranked) && rows[2] in multiset(ranked);
    assert rows[3] in multiset(ranked) && rows[4] in multiset(ranked);
  }

  /** A larger score comes first, and equal scores are ranked by name. */
  lemma {:induction false} RankedInOrder(ranked: seq<Row>, i: nat, j: nat)
    requires Sorted(ranked, RowLeq) && i < j < |ranked|
    ensures ranked[i].score >= ranked[j].score
    ensures ranked[i].score == ranked[j].score ==> NameLeq(ranked[i].category, ranked[j].category)
  {
    hide NameLeq;
    assert RowLeq(ranked[i], ranked[j]);
  }
}
