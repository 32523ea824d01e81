/** The append-only delivery ledger: one record per delivery cycle, a loader that
    reports every defect, and the `record` command's check-then-append
    (`scripts/delivery-telemetry.py`). */
module Ledger {
  import opened Prelude
  import opened LedgerSchema

  // ----- the record schema (`docs/reports/delivery-telemetry.schema.json`) -----

  const ANY: Schema := Schema(None, None, None, None, None, false, None, [], false, [])

  function AtLeast(least: int): Schema { ANY.(kind := Some("integer"), minimum := Some(least as real)) }

  function Matching(pattern: string): Schema { ANY.(kind := Some("string"), pattern := Some(pattern)) }

  function OneOf(a: string, b: string): Schema { ANY.(enumeration := Some([Str(a), Str(b)])) }

  const TIMESTAMP: Schema := ANY.(kind := Some("string"), dateTime := true)

  const PHASES: Schema := ANY.(
    kind := Some("object"), closed := true, required := ["to_pr_s", "review_s"],
    properties := [Property("to_pr_s", AtLeast(0)), Property("review_s", AtLeast(0))])

  const RECORD: Schema := ANY.(
    kind := Some("object"), closed := true,
    required := [
      "schema", "issue", "slug", "pr", "routing", "priority", "created_at", "pr_opened_at", "merged_at", "closed_at",
      "cycle_time_s", "phase_s", "claim_collisions", "rebase_events", "gate", "gate_runs", "roborev_findings",
      "rework", "stamped_at"],
    properties := [
      Property("schema", ANY.(constant := Some(Int(1)), kind := Some("integer"))),
      Property("issue", AtLeast(1)),
      Property("slug", Matching("^[a-z0-9][a-z0-9-]*$")),
      Property("pr", AtLeast(1)),
      Property("routing", OneOf("design", "oracle")),
      Property("priority", Matching("^P[0-3]$")),
      Property("created_at", TIMESTAMP),
      Property("pr_opened_at", TIMESTAMP),
      Property("merged_at", TIMESTAMP),
      Property("closed_at", TIMESTAMP),
      Property("cycle_time_s", AtLeast(0)),
      Property("phase_s", PHASES),
      Property("claim_collisions", AtLeast(0)),
      Property("rebase_events", AtLeast(0)),
      Property("gate", OneOf("pass", "fail")),
      Property("gate_runs", AtLeast(1)),
      Property("roborev_findings", AtLeast(0)),
      Property("roborev_blockers", AtLeast(0)),
      Property("roborev_nits", AtLeast(0)),
      Property("rework", AtLeast(0)),
      Property("nudges", AtLeast(0)),
      Property("orphan_minutes", AtLeast(0)),
      Property("stamped_at", TIMESTAMP)])

  // ----- the severity split -----

  predicate IsInt(v: Option<Json>) { v.Some? && v.value.Int? }

  predicate SeverityOk(fields: seq<Field>) {
    var blockers, nits := Get(fields, "roborev_blockers"), Get(fields, "roborev_nits");
    var findings := Get(fields, "roborev_findings");
    blockers.Some? == nits.Some? &&
    (IsInt(blockers) && IsInt(nits) && IsInt(findings) ==> blockers.value.n + nits.value.n == findings.value.n)
  }

  function SeverityErrors(fields: seq<Field>): seq<Error> {
    var blockers, nits := Get(fields, "roborev_blockers"), Get(fields, "roborev_nits");
    var findings := Get(fields, "roborev_findings");
    if blockers.Some? != nits.Some? then [Error([], Unpaired)]
    else if blockers.None? then []
    else if IsInt(blockers) && IsInt(nits) && IsInt(findings) && blockers.value.n + nits.value.n != findings.value.n
    then [Error([], SplitMismatch)]
    else []
  }

  function RecordErrors(v: Json, schema: Schema, env: Recognisers): seq<Error> {
    Violations(v, schema, [], env) + (if v.Obj? then SeverityErrors(v.fields) else [])
  }

  predicate Valid(v: Json, schema: Schema, env: Recognisers) {
    Conforms(v, schema, env) && (v.Obj? ==> SeverityOk(v.fields))
  }

  lemma {:induction false} ValidExactly(v: Json, schema: Schema, env: Recognisers)
    ensures RecordErrors(v, schema, env) == [] <==> Valid(v, schema, env)
  {
    hide Violations, Conforms, Get;
    ViolationsExactly(v, schema, [], env);
  }

  method ValidateRecord(v: Json, schema: Schema, env: Recognisers) returns (errors: seq<Error>)
    ensures errors == RecordErrors(v, schema, env)
    ensures errors == [] <==> Valid(v, schema, env)
  {
    hide Violations, Conforms, Get;
    var log := new ErrorLog();
    log.Validate(v, schema, [], env);
    if v.Obj? { log.errors := log.errors + SeverityErrors(v.fields); }
    errors := log.errors;
    ValidExactly(v, schema, env);
  }

  // ----- delivery cycles -----

  /** The issue and pull request that a record is about; a missing one reads as null. */
  datatype Cycle = Cycle(issue: Json, pr: Json)

  function Field0(fields: seq<Field>, key: string): Json {
    match Get(fields, key)
    case None => Null
    case Some(v) => v
  }

  function CycleOf(v: Json): Option<Cycle> {
    if v.Obj? && !Field0(v.fields, "issue").Null?
    then Some(Cycle(Field0(v.fields, "issue"), Field0(v.fields, "pr")))
    else None
  }

  predicate Hashable(v: Json) { !v.List? && !v.Obj? }

  predicate HashableCycle(c: Cycle) { Hashable(c.issue) && Hashable(c.pr) }

  predicate SameCycle(a: Cycle, b: Cycle) { Equal(a.issue, b.issue) && Equal(a.pr, b.pr) }

  lemma {:induction false} SameCycleTransitive(a: Cycle, b: Cycle, c: Cycle)
    requires HashableCycle(a) && HashableCycle(b) && HashableCycle(c)
    requires SameCycle(a, b) && SameCycle(b, c)
    ensures SameCycle(a, c) && SameCycle(b, a)
  {
  }

  // ----- loading -----

  datatype Line = Blank | Garbled | Parsed(v: Json)

  datatype What = BadJson | Invalid(e: Error) | Duplicate(first: nat)

  datatype Finding = Finding(line: nat, what: What)

  datatype Loaded = Loaded(records: seq<Json>, findings: seq<Finding>) | Crashed

  function LineCycle(line: Line): Option<Cycle> { if line.Parsed? then CycleOf(line.v) else None }

  /** The first of the first n lines that is about the cycle. */
  function FirstLine(lines: seq<Line>, n: nat, c: Cycle): (r: Option<nat>)
    requires n <= |lines|
    ensures r.Some? ==> r.value < n && LineCycle(lines[r.value]).Some? && SameCycle(LineCycle(lines[r.value]).value, c)
    ensures r.Some? ==>
              forall i :: 0 <= i < r.value && LineCycle(lines[i]).Some? ==> !SameCycle(LineCycle(lines[i]).value, c)
    ensures r.None? ==> forall i :: 0 <= i < n && LineCycle(lines[i]).Some? ==> !SameCycle(LineCycle(lines[i]).value, c)
  {
    if n == 0 then None
    else
      match FirstLine(lines, n - 1, c)
      case Some(i) => Some(i)
      case None =>
        var d := LineCycle(lines[n - 1]);
        if d.Some? && SameCycle(d.value, c) then Some(n - 1) else None
  }

  function Invalids(line: nat, errors: seq<Error>): seq<Finding> {
    if errors == [] then []
    else Invalids(line, errors[..|errors| - 1]) + [Finding(line, Invalid(errors[|errors| - 1]))]
  }

  function Repeat(lines: seq<Line>, k: nat): seq<Finding>
    requires k < |lines|
  {
    var c := LineCycle(lines[k]);
    if c.None? then []
    else
      match FirstLine(lines, k, c.value)
      case None => []
      case Some(i) => [Finding(k + 1, Duplicate(i + 1))]
  }

  function LineFindings(lines: seq<Line>, k: nat, schema: Schema, env: Recognisers): seq<Finding>
    requires k < |lines|
  {
    match lines[k]
    case Blank => []
    case Garbled => [Finding(k + 1, BadJson)]
    case Parsed(v) => Invalids(k + 1, RecordErrors(v, schema, env)) + Repeat(lines, k)
  }

  function Findings(lines: seq<Line>, n: nat, schema: Schema, env: Recognisers): seq<Finding>
    requires n <= |lines|
  {
    if n == 0 then [] else Findings(lines, n - 1, schema, env) + LineFindings(lines, n - 1, schema, env)
  }

  function Records(lines: seq<Line>, n: nat): seq<Json>
    requires n <= |lines|
  {
    if n == 0 then []
    else Records(lines, n - 1) + (if lines[n - 1].Parsed? then [lines[n - 1].v] else [])
  }

  /** A list or an object as issue or pull request cannot be looked up. */
  predicate Crashes(line: Line) { LineCycle(line).Some? && !HashableCycle(LineCycle(line).value) }

  function Load(lines: seq<Line>, schema: Schema, env: Recognisers): Loaded {
    if exists k :: 0 <= k < |lines| && Crashes(lines[k]) then Crashed
    else Loaded(Records(lines, |lines|), Findings(lines, |lines|, schema, env))
  }

  datatype Seen = Seen(cycle: Cycle, line: nat)

  function LookUp(seen: seq<Seen>, c: Cycle): Option<nat> {
    if seen == [] then None
    else
      match LookUp(seen[..|seen| - 1], c)
      case Some(i) => Some(i)
      case None => if SameCycle(seen[|seen| - 1].cycle, c) then Some(seen[|seen| - 1].line) else None
  }

  method InvalidFindings(line: nat, errors: seq<Error>) returns (r: seq<Finding>)
    ensures r == Invalids(line, errors)
  {
    r := [];
    for i := 0 to |errors|
      invariant r == Invalids(line, errors[..i])
    {
      assert errors[..i + 1][..i] == errors[..i];
      r := r + [Finding(line, Invalid(errors[i]))];
    }
    assert errors[..|errors|] == errors;
  }

  ghost predicate Indexed(seen: seq<Seen>, lines: seq<Line>, n: nat)
    requires n <= |lines|
  {
    forall c: Cycle :: HashableCycle(c) ==> LookUp(seen, c) == FirstLine(lines, n, c)
  }

  lemma {:induction false} IndexedSkip(seen: seq<Seen>, lines: seq<Line>, n: nat)
    requires n < |lines| && Indexed(seen, lines, n) && LineCycle(lines[n]).None?
    ensures Indexed(seen, lines, n + 1)
  {
    hide LineCycle, SameCycle, LookUp;
  }

  lemma {:induction false} IndexedRepeat(seen: seq<Seen>, lines: seq<Line>, n: nat)
    requires n < |lines| && Indexed(seen, lines, n) && LineCycle(lines[n]).Some? && !Crashes(lines[n])
    requires forall k :: 0 <= k < n ==> !Crashes(lines[k])
    requires FirstLine(lines, n, LineCycle(lines[n]).value).Some?
    ensures Indexed(seen, lines, n + 1)
  {
    hide LineCycle, SameCycle, LookUp, HashableCycle;
    var d := LineCycle(lines[n]).value;
    var i := FirstLine(lines, n, d).value;
    forall c: Cycle | HashableCycle(c) ensures LookUp(seen, c) == FirstLine(lines, n + 1, c) {
      if FirstLine(lines, n, c).None? && SameCycle(d, c) {
        SameCycleTransitive(LineCycle(lines[i]).value, d, c);
      }
    }
  }

  lemma {:induction false} IndexedNew(seen: seq<Seen>, lines: seq<Line>, n: nat)
    requires n < |lines| && Indexed(seen, lines, n) && LineCycle(lines[n]).Some?
    ensures Indexed(seen + [Seen(LineCycle(lines[n]).value, n)], lines, n + 1)
  {
    hide LineCycle, SameCycle, HashableCycle;
    var more := seen + [Seen(LineCycle(lines[n]).value, n)];
    assert more[..|more| - 1] == seen;
  }

  /** One parsed line: its violations, and whether its cycle was seen before. */
  method LoadRecord(lines: seq<Line>, n: nat, seen: seq<Seen>, schema: Schema, env: Recognisers)
    returns (found: seq<Finding>, more: seq<Seen>)
    requires n < |lines| && lines[n].Parsed? && Indexed(seen, lines, n)
    requires forall k :: 0 <= k <= n ==> !Crashes(lines[k])
    ensures found == LineFindings(lines, n, schema, env) && Indexed(more, lines, n + 1)
  {
    hide RecordErrors, CycleOf, SameCycle, HashableCycle, FirstLine, LookUp, Invalids;
    var errors := ValidateRecord(lines[n].v, schema, env);
    found := InvalidFindings(n + 1, errors);
    more := seen;
    var c := CycleOf(lines[n].v);
    if c.None? {
      IndexedSkip(seen, lines, n);
      assert Repeat(lines, n) == [];
      return;
    }
    assert HashableCycle(c.value);
    var first := LookUp(seen, c.value);
    assert first == FirstLine(lines, n, c.value);
    if first.Some? {
      IndexedRepeat(seen, lines, n);
      assert Repeat(lines, n) == [Finding(n + 1, Duplicate(first.value + 1))];
      found := found + [Finding(n + 1, Duplicate(first.value + 1))];
    } else {
      IndexedNew(seen, lines, n);
      assert Repeat(lines, n) == [];
      more := seen + [Seen(c.value, n)];
    }
  }

  /** Loads and reports every line, with a dictionary of the cycles seen so far. */
  method LoadLedger(lines: seq<Line>, schema: Schema, env: Recognisers) returns (r: Loaded)
    ensures r == Load(lines, schema, env)
  {
    hide LineFindings, LineCycle, Indexed, HashableCycle;
    var records: seq<Json>, findings: seq<Finding>, seen: seq<Seen> := [], [], [];
    NothingIndexed(lines);
    var n := 0;
    while n < |lines|
      invariant n <= |lines|
      invariant forall k :: 0 <= k < n ==> !Crashes(lines[k])
      invariant records == Records(lines, n) && findings == Findings(lines, n, schema, env)
      invariant Indexed(seen, lines, n)
    {
      if Crashes(lines[n]) { return Crashed; }
      match lines[n] {
        case Blank =>
          PlainLine(seen, lines, n, schema, env);
        case Garbled =>
          PlainLine(seen, lines, n, schema, env);
          findings := findings + [Finding(n + 1, BadJson)];
        case Parsed(v) =>
          var found, more := LoadRecord(lines, n, seen, schema, env);
          findings, seen, records := findings + found, more, records + [v];
      }
      n := n + 1;
    }
    r := Loaded(records, findings);
  }

  lemma {:induction false} PlainLine(seen: seq<Seen>, lines: seq<Line>, n: nat, schema: Schema, env: Recognisers)
    requires n < |lines| && !lines[n].Parsed? && Indexed(seen, lines, n)
    ensures Indexed(seen, lines, n + 1)
    ensures LineFindings(lines, n, schema, env) == if lines[n].Blank? then [] else [Finding(n + 1, BadJson)]
  {
    IndexedSkip(seen, lines, n);
  }

  lemma {:induction false} NothingIndexed(lines: seq<Line>)
    ensures Indexed([], lines, 0)
  {
  }
}
