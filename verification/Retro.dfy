/** The retrospective over the delivery ledger: summing each failure category and
    ranking the categories by weighted score (`scripts/delivery-telemetry.py`). */
module Retro {
  import opened Prelude
  import opened LedgerSchema
  import opened Ledger
  import opened LedgerRuns
  import opened Sorting

  datatype Tally = Tally(
    claims: int, rebases: int, rework: int, findings: int, gates: int, nits: int, severity: int)

  const ZERO: Tally := Tally(0, 0, 0, 0, 0, 0, 0)

  function Plus(t: Tally, u: Tally): Tally {
    Tally(t.claims + u.claims, t.rebases + u.rebases, t.rework + u.rework, t.findings + u.findings,
          t.gates + u.gates, t.nits + u.nits, t.severity + u.severity)
  }

  predicate HasInt(v: Json, name: string) { v.Obj? && IsInt(Get(v.fields, name)) }

  function IntOf(v: Json, name: string): int
    requires HasInt(v, name)
  {
    Get(v.fields, name).value.n
  }

  predicate Has(v: Json, name: string)
    requires v.Obj?
  {
    Get(v.fields, name).Some?
  }

  /** The fields that the tally indexes are there and are integers. */
  predicate Countable(v: Json) {
    HasInt(v, "claim_collisions") && HasInt(v, "rebase_events") && HasInt(v, "rework") &&
    HasInt(v, "roborev_findings") && HasInt(v, "gate_runs") && Has(v, "gate") &&
    (Split(v) ==> HasInt(v, "roborev_blockers") && HasInt(v, "roborev_nits"))
  }

  predicate Split(v: Json)
    requires v.Obj?
  {
    Has(v, "roborev_blockers") && Has(v, "roborev_nits")
  }

  function FailedRounds(v: Json): int
    requires Countable(v)
  {
    var passed := if Get(v.fields, "gate").value == Str("pass") then 1 else 0;
    var n := IntOf(v, "gate_runs") - passed;
    if n < 0 then 0 else n
  }

  function Contribution(v: Json): Tally
    requires Countable(v)
  {
    Tally(
      IntOf(v, "claim_collisions"), IntOf(v, "rebase_events"), IntOf(v, "rework"),
      if Split(v) then IntOf(v, "roborev_blockers") else IntOf(v, "roborev_findings"),
      FailedRounds(v),
      if Split(v) then IntOf(v, "roborev_nits") else 0,
      if Split(v) then 1 else 0)
  }

  predicate AllCountable(records: seq<Json>) { forall k :: 0 <= k < |records| ==> Countable(records[k]) }

  function Total(records: seq<Json>): Tally
    requires AllCountable(records)
  {
    if records == [] then ZERO else Plus(Total(records[..|records| - 1]), Contribution(records[|records| - 1]))
  }

  method Aggregate(records: seq<Json>) returns (t: Tally)
    requires AllCountable(records)
    ensures t == Total(records)
  {
    hide Countable, HasInt, FailedRounds;
    t := ZERO;
    for k := 0 to |records|
      invariant t == Total(records[..k])
    {
      var r := records[k];
      assert Countable(r) && records[..k + 1][..k] == records[..k];
      assert Total(records[..k + 1]) == Plus(Total(records[..k]), Contribution(r));
      var one := TallyOne(t, r);
      t := one;
    }
    assert records[..|records|] == records;
  }

  /** One record's updates, counter by counter. */
  method TallyOne(before: Tally, r: Json) returns (t: Tally)
    requires Countable(r)
    ensures t == Plus(before, Contribution(r))
  {
    hide Get;
    t := before;
    t := t.(claims := t.claims + IntOf(r, "claim_collisions"));
    t := t.(rebases := t.rebases + IntOf(r, "rebase_events"));
    t := t.(rework := t.rework + IntOf(r, "rework"));
    if Split(r) {
      t := t.(findings := t.findings + IntOf(r, "roborev_blockers"));
      t := t.(nits := t.nits + IntOf(r, "roborev_nits"));
      t := t.(severity := t.severity + 1);
    } else {
      t := t.(findings := t.findings + IntOf(r, "roborev_findings"));
    }
    t := t.(gates := t.gates + FailedRounds(r));
  }

  // ----- accepted records can be counted -----

  lemma {:induction false} CounterField(v: Json, env: Recognisers, name: string, i: nat, j: nat, least: int)
    requires Conforms(v, RECORD, env)
    requires i < |RECORD.required| && RECORD.required[i] == name
    requires j < |RECORD.properties| && RECORD.properties[j] == Property(name, AtLeast(least))
    ensures HasInt(v, name) && IntOf(v, name) >= least
  {
    hide Conforms, Get;
    RequiredField(v, env, name, i, j);
    AtLeastIs(Get(v.fields, name).value, least, env);
  }

  lemma {:induction false} OptionalField(v: Json, env: Recognisers, name: string, j: nat)
    requires Conforms(v, RECORD, env) && v.Obj?
    requires j < |RECORD.properties| && RECORD.properties[j] == Property(name, AtLeast(0))
    ensures Has(v, name) ==> HasInt(v, name) && IntOf(v, name) >= 0
  {
    hide Conforms, Get;
    assert RECORD.kind == Some("object");
    PropertyConforms(v, RECORD, env, j);
    if Has(v, name) { AtLeastIs(Get(v.fields, name).value, 0, env); }
  }

  lemma {:induction false} ValidCounters(v: Json, env: Recognisers)
    requires Conforms(v, RECORD, env)
    ensures HasInt(v, "claim_collisions") && HasInt(v, "rebase_events") && HasInt(v, "rework")
    ensures HasInt(v, "roborev_findings") && HasInt(v, "gate_runs") && IntOf(v, "gate_runs") >= 1
  {
    hide Conforms, Get, HasInt, IntOf;
    CounterField(v, env, "claim_collisions", 12, 12, 0);
    CounterField(v, env, "rebase_events", 13, 13, 0);
    CounterField(v, env, "gate_runs", 15, 15, 1);
    CounterField(v, env, "roborev_findings", 16, 16, 0);
    CounterField(v, env, "rework", 17, 19, 0);
  }

  lemma {:induction false} ValidCountable(v: Json, env: Recognisers)
    requires Valid(v, RECORD, env)
    ensures Countable(v) && IntOf(v, "gate_runs") >= 1
  {
    hide Conforms, Get;
    ValidCounters(v, env);
    GatePresent(v, env);
    OptionalField(v, env, "roborev_blockers", 17);
    OptionalField(v, env, "roborev_nits", 18);
  }

  lemma {:induction false} GatePresent(v: Json, env: Recognisers)
    requires Conforms(v, RECORD, env)
    ensures v.Obj? && Has(v, "gate")
  {
    hide Conforms, Get;
    RequiredField(v, env, "gate", 14, 14);
  }

  lemma {:induction false} RecordsValid(lines: seq<Line>, n: nat, env: Recognisers)
    requires n <= |lines| && AllGood(lines, RECORD, env)
    ensures forall k :: 0 <= k < |Records(lines, n)| ==> Valid(Records(lines, n)[k], RECORD, env)
  {
    hide Valid;
    if n > 0 {
      RecordsValid(lines, n - 1, env);
      assert Good(lines[n - 1], RECORD, env);
    }
  }

  // ----- laws of the tally -----

  /** The findings as recorded, blind to the severity split. */
  function RawFindings(records: seq<Json>): int
    requires AllCountable(records)
  {
    if records == [] then 0
    else RawFindings(records[..|records| - 1]) + IntOf(records[|records| - 1], "roborev_findings")
  }

  lemma {:induction false} SplitConserves(v: Json, env: Recognisers)
    requires Valid(v, RECORD, env) && Countable(v)
    ensures Contribution(v).findings + Contribution(v).nits == IntOf(v, "roborev_findings")
  {
    hide Conforms, Get;
  }

  /** On accepted records every finding is either weighed or counted as a nit. */
  lemma {:induction false} FindingsConserved(records: seq<Json>, env: Recognisers)
    requires AllCountable(records) && forall k :: 0 <= k < |records| ==> Valid(records[k], RECORD, env)
    ensures RawFindings(records) == Total(records).findings + Total(records).nits
  {
    hide Valid, Contribution, Countable, HasInt, IntOf;
    if records != [] {
      var n := |records| - 1;
      FindingsConserved(records[..n], env);
      assert Valid(records[n], RECORD, env) && Countable(records[n]);
      SplitConserves(records[n], env);
    }
  }

  lemma {:induction false} PlusLaws(t: Tally, u: Tally, v: Tally)
    ensures Plus(Plus(t, u), v) == Plus(t, Plus(u, v)) && Plus(t, ZERO) == t
    ensures Plus(Plus(t, u), v) == Plus(Plus(t, v), u)
  {
  }

  lemma {:induction false} TotalSnoc(a: seq<Json>, v: Json)
    requires AllCountable(a) && Countable(v)
    ensures AllCountable(a + [v]) && Total(a + [v]) == Plus(Total(a), Contribution(v))
  {
    hide Countable, Contribution, Plus;
    assert (a + [v])[..|a|] == a;
  }

  lemma {:induction false} TotalAppend(a: seq<Json>, b: seq<Json>)
    requires AllCountable(a) && AllCountable(b)
    ensures AllCountable(a + b) && Total(a + b) == Plus(Total(a), Total(b))
  {
    hide Countable, Contribution, Plus, Total;
    if b == [] {
      assert a + b == a;
      PlusLaws(Total(a), ZERO, ZERO);
      TotalNone();
    } else {
      var init, v := b[..|b| - 1], b[|b| - 1];
      TotalAppend(a, init);
      TotalSnoc(a + init, v);
      TotalSnoc(init, v);
      assert a + b == a + init + [v] && b == init + [v];
      PlusLaws(Total(a), Total(init), Contribution(v));
    }
  }

  lemma {:induction false} TotalNone()
    ensures Total([]) == ZERO
  {
  }

  lemma {:induction false} TotalRemove(a: seq<Json>, i: nat)
    requires AllCountable(a) && i < |a|
    ensures AllCountable(a[..i] + a[i + 1..])
    ensures Total(a) == Plus(Total(a[..i] + a[i + 1..]), Contribution(a[i]))
  {
    hide Countable, Contribution, Total, Plus;
    var l, r := a[..i], a[i + 1..];
    assert a == l + [a[i]] + r;
    TotalSnoc(l, a[i]);
    TotalAppend(l + [a[i]], r);
    TotalAppend(l, r);
    PlusLaws(Total(l), Contribution(a[i]), Total(r));
  }

  /** The order of the ledger does not matter. */
  lemma {:induction false} TotalReordered(a: seq<Json>, b: seq<Json>)
    requires AllCountable(a) && AllCountable(b) && multiset(a) == multiset(b)
    ensures Total(a) == Total(b)
  {
    hide Countable, Contribution, Plus;
    if a == [] {
      assert |b| == |multiset(b)| == 0;
    } else {
      var n := |a| - 1;
      assert a[n] in multiset(a) && a[n] in multiset(b);
      var i :| 0 <= i < |b| && b[i] == a[n];
      var rest := b[..i] + b[i + 1..];
      MultisetLast(a);
      MultisetWithout(b, i);
      Cancel(multiset(a[..n]), multiset(rest), a[n]);
      TotalRemove(b, i);
      TotalReordered(a[..n], rest);
    }
  }

  // ----- ranking -----

  datatype Row = Row(category: string, count: int, weight: int, score: int)

  function Weighted(category: string, count: int, weight: int): Row { Row(category, count, weight, count * weight) }

  /** The weighted categories; the nit and severity totals are not among them. */
  function Rows(t: Tally): seq<Row> {
    [Weighted("gate_failures", t.gates, 5),
     Weighted("rework", t.rework, 4),
     Weighted("claim_collisions", t.claims, 3),
     Weighted("roborev_findings", t.findings, 2),
     Weighted("rebase_events", t.rebases, 2)]
  }

  predicate RowLeq(a: Row, b: Row) { a.score > b.score || (a.score == b.score && NameLeq(a.category, b.category)) }

  lemma {:induction false} RowOrder()
    ensures TotalPreorder(RowLeq)
  {
    hide NameLeq;
    forall a: Row, b: Row ensures RowLeq(a, b) || RowLeq(b, a) { NameTotal(a.category, b.category); }
    forall a: Row, b: Row, c: Row | RowLeq(a, b) && RowLeq(b, c) ensures RowLeq(a, c) {
      if a.score == b.score == c.score { NameTransitive(a.category, b.category, c.category); }
    }
  }

  lemma {:induction false} RowsDistinct(t: Tally)
    ensures forall r, q :: r in Rows(t) && q in Rows(t) && r.category == q.category ==> r == q
  {
    assert "gate_failures"[0] == 'g' && "rework"[2] == 'w';
    assert "claim_collisions"[0] == 'c' && "roborev_findings"[1] == 'o';
    assert "rebase_events"[2] == 'b' && "rework"[1] == 'e' && "rebase_events"[1] == 'e' && "roborev_findings"[0] == 'r';
  }

  method Rank(t: Tally) returns (ranked: seq<Row>)
    ensures multiset(ranked) == multiset(Rows(t)) && Sorted(ranked, RowLeq)
  {
    hide Sort;
    ranked := Sort(Rows(t), RowLeq);
    SortMultiset(Rows(t), RowLeq);
    RowOrder();
    SortSorted(Rows(t), RowLeq);
  }

  lemma {:induction false} RowsApart(s: seq<Row>, t: Tally)
    requires multiset(s) == multiset(Rows(t))
    ensures Antisymmetric(s, RowLeq)
  {
    hide NameLeq, Rows;
    RowsDistinct(t);
    forall i, j | 0 <= i < |s| && 0 <= j < |s| && RowLeq(s[i], s[j]) && RowLeq(s[j], s[i]) ensures s[i] == s[j] {
      NameTotal(s[i].category, s[j].category);
      assert s[i] in multiset(s) && s[j] in multiset(s);
      assert s[i] in Rows(t) && s[j] in Rows(t);
    }
  }

  /** Score downwards and then name leaves exactly one order of the categories. */
  lemma {:induction false} RankUnique(t: Tally, a: seq<Row>, b: seq<Row>)
    requires multiset(a) == multiset(Rows(t)) == multiset(b) && Sorted(a, RowLeq) && Sorted(b, RowLeq)
    ensures a == b
  {
    hide RowLeq;
    RowOrder();
    RowsApart(a, t);
    SortedUnique(a, b, RowLeq);
  }

  // ----- the command -----

  /** Ranks only what the loader accepts without a finding. */
  method RetroRanking(lines: seq<Line>, env: Recognisers) returns (ranked: Option<seq<Row>>)
    ensures ranked.Some? <==> AllGood(lines, RECORD, env) && OnePerCycle(lines) && Records(lines, |lines|) != []
    ensures ranked.Some? ==> AllCountable(Records(lines, |lines|)) && Sorted(ranked.value, RowLeq)
    ensures ranked.Some? ==> multiset(ranked.value) == multiset(Rows(Total(Records(lines, |lines|))))
  {
    hide Load, AllGood, OnePerCycle, Valid, RowLeq, Total, Rows, Countable;
    var loaded := LoadLedger(lines, RECORD, env);
    LintExactly(lines, env);
    LoadedRecords(lines, RECORD, env);
    if loaded.Crashed? || loaded.findings != [] || loaded.records == [] { return None; }
    var records := loaded.records;
    RecordsValid(lines, |lines|, env);
    forall k | 0 <= k < |records| ensures Countable(records[k]) { ValidCountable(records[k], env); }
    var t := Aggregate(records);
    var rows := Rank(t);
    ranked := Some(rows);
  }

  lemma {:induction false} LoadedRecords(lines: seq<Line>, schema: Schema, env: Recognisers)
    ensures Load(lines, schema, env).Loaded? ==> Load(lines, schema, env).records == Records(lines, |lines|)
  {
    hide Findings;
  }
}
