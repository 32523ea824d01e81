/** What the delivery ledger's commands keep, alone and racing each other. */
module LedgerRuns {
  import opened Prelude
  import opened LedgerSchema
  import opened Ledger

  // ----- what a clean report means -----

  predicate Good(line: Line, schema: Schema, env: Recognisers) {
    line.Blank? || (line.Parsed? && Valid(line.v, schema, env))
  }

  predicate Clash(a: Line, b: Line) {
    LineCycle(a).Some? && LineCycle(b).Some? && SameCycle(LineCycle(a).value, LineCycle(b).value)
  }

  predicate AllGood(lines: seq<Line>, schema: Schema, env: Recognisers) {
    forall k :: 0 <= k < |lines| ==> Good(lines[k], schema, env)
  }

  /** No delivery cycle has two records. */
  predicate OnePerCycle(lines: seq<Line>) { forall i, j :: 0 <= i < j < |lines| ==> !Clash(lines[i], lines[j]) }

  predicate Clean(lines: seq<Line>, schema: Schema, env: Recognisers) {
    AllGood(lines, schema, env) && OnePerCycle(lines) && forall k :: 0 <= k < |lines| ==> !Crashes(lines[k])
  }

  predicate Accepted(r: Loaded) { r.Loaded? && r.findings == [] }

  lemma {:induction false} InvalidsEmpty(line: nat, errors: seq<Error>)
    ensures Invalids(line, errors) == [] <==> errors == []
  {
  }

  lemma {:induction false} LineExactly(lines: seq<Line>, k: nat, schema: Schema, env: Recognisers)
    requires k < |lines|
    ensures LineFindings(lines, k, schema, env) == [] <==>
            Good(lines[k], schema, env) && forall i :: 0 <= i < k ==> !Clash(lines[i], lines[k])
  {
    hide RecordErrors, Valid, CycleOf, SameCycle, Invalids;
    if lines[k].Parsed? {
      ValidExactly(lines[k].v, schema, env);
      InvalidsEmpty(k + 1, RecordErrors(lines[k].v, schema, env));
      var c := LineCycle(lines[k]);
      if c.Some? { var first := FirstLine(lines, k, c.value); }
    }
  }

  lemma {:induction false} FindingsExactly(lines: seq<Line>, n: nat, schema: Schema, env: Recognisers)
    requires n <= |lines|
    ensures Findings(lines, n, schema, env) == [] <==> AllGood(lines[..n], schema, env) && OnePerCycle(lines[..n])
  {
    hide LineFindings, Good, Clash;
    if n > 0 {
      FindingsExactly(lines, n - 1, schema, env);
      LineExactly(lines, n - 1, schema, env);
      var a, b := lines[..n - 1], lines[..n];
      assert forall k :: 0 <= k < n - 1 ==> a[k] == b[k];
    }
  }

  /** The loader accepts exactly the ledgers whose records are valid and whose cycles
      are distinct. */
  lemma {:induction false} AcceptedExactly(lines: seq<Line>, schema: Schema, env: Recognisers)
    ensures Accepted(Load(lines, schema, env)) <==> Clean(lines, schema, env)
  {
    hide Findings, Records, AllGood, OnePerCycle, Crashes;
    FindingsExactly(lines, |lines|, schema, env);
    assert lines[..|lines|] == lines;
  }

  /** The loader ends with an error exactly when some line is an object whose issue is
      not null and whose issue or pull request is a list or an object. */
  lemma {:induction false} LoadCrashesExactly(lines: seq<Line>, schema: Schema, env: Recognisers)
    ensures Load(lines, schema, env) == Crashed <==>
            exists k :: 0 <= k < |lines| && lines[k].Parsed? && lines[k].v.Obj? && Unhashable(lines[k].v.fields)
  {
    hide Findings, Records, Get;
    forall k | 0 <= k < |lines|
      ensures Crashes(lines[k]) <==> lines[k].Parsed? && lines[k].v.Obj? && Unhashable(lines[k].v.fields)
    {
    }
  }

  predicate Unhashable(fields: seq<Field>) {
    var issue, pr := Field0(fields, "issue"), Field0(fields, "pr");
    !issue.Null? && (issue.List? || issue.Obj? || pr.List? || pr.Obj?)
  }

  // ----- the record schema rules crashes out of valid records -----

  lemma {:induction false} RequiredField(v: Json, env: Recognisers, name: string, i: nat, j: nat)
    requires Conforms(v, RECORD, env)
    requires i < |RECORD.required| && RECORD.required[i] == name
    requires j < |RECORD.properties| && RECORD.properties[j].name == name
    ensures v.Obj? && Get(v.fields, name).Some?
    ensures Conforms(Get(v.fields, name).value, RECORD.properties[j].schema, env)
  {
    hide Conforms, Get;
    assert RECORD.kind == Some("object");
    RequiredPresent(v, RECORD, env, i);
    PropertyConforms(v, RECORD, env, j);
  }

  lemma {:induction false} AtLeastIs(v: Json, least: int, env: Recognisers)
    requires Conforms(v, AtLeast(least), env)
    ensures v.Int? && v.n >= least
  {
    assert TypeOk(v, "integer");
  }

  lemma {:induction false} CycleFields(v: Json, env: Recognisers)
    requires Conforms(v, RECORD, env)
    ensures v.Obj? && Get(v.fields, "issue").Some? && Get(v.fields, "pr").Some?
    ensures Get(v.fields, "issue").value.Int? && Get(v.fields, "pr").value.Int?
  {
    hide Conforms, Get;
    RequiredField(v, env, "issue", 1, 1);
    AtLeastIs(Get(v.fields, "issue").value, 1, env);
    RequiredField(v, env, "pr", 3, 3);
    AtLeastIs(Get(v.fields, "pr").value, 1, env);
  }

  lemma {:induction false} ValidHasCycle(v: Json, env: Recognisers)
    requires Valid(v, RECORD, env)
    ensures CycleOf(v).Some? && HashableCycle(CycleOf(v).value)
    ensures CycleOf(v).value.issue.Int? && CycleOf(v).value.pr.Int?
  {
    hide Conforms, Get;
    CycleFields(v, env);
  }

  lemma {:induction false} GoodNeverCrashes(line: Line, env: Recognisers)
    requires Good(line, RECORD, env)
    ensures !Crashes(line)
  {
    hide Valid, CycleOf;
    if line.Parsed? { ValidHasCycle(line.v, env); }
  }

  /** Lint passes exactly the ledgers of valid records with distinct cycles; every
      other ledger is reported or ends the command. */
  lemma {:induction false} LintExactly(lines: seq<Line>, env: Recognisers)
    ensures Accepted(Load(lines, RECORD, env)) <==> AllGood(lines, RECORD, env) && OnePerCycle(lines)
  {
    hide Load, Good, Crashes, OnePerCycle;
    AcceptedExactly(lines, RECORD, env);
    if AllGood(lines, RECORD, env) {
      forall k | 0 <= k < |lines| ensures !Crashes(lines[k]) { GoodNeverCrashes(lines[k], env); }
    }
  }

  // ----- recording -----

  /** An existing line is about the same issue and pull request. */
  predicate Taken(line: Line, v: Json)
    requires v.Obj?
  {
    line.Parsed? && line.v.Obj? &&
    Equal(Field0(line.v.fields, "issue"), Field0(v.fields, "issue")) &&
    Equal(Field0(line.v.fields, "pr"), Field0(v.fields, "pr"))
  }

  predicate MayAppend(lines: seq<Line>, v: Json, allowDuplicate: bool, env: Recognisers) {
    RecordErrors(v, RECORD, env) == [] && v.Obj? &&
    (allowDuplicate || forall k :: 0 <= k < |lines| ==> !Taken(lines[k], v))
  }

  function Record(lines: seq<Line>, v: Json, allowDuplicate: bool, env: Recognisers): seq<Line> {
    if MayAppend(lines, v, allowDuplicate, env) then lines + [Parsed(v)] else lines
  }

  /** The ledger file and the `record` command. */
  class LedgerFile {
    var lines: seq<Line>

    method RecordCycle(v: Json, allowDuplicate: bool, env: Recognisers) returns (code: int)
      modifies this
      ensures lines == Record(old(lines), v, allowDuplicate, env)
      ensures code == if MayAppend(old(lines), v, allowDuplicate, env) then 0 else 1
    {
      hide RecordErrors, Valid, Taken;
      var errors := ValidateRecord(v, RECORD, env);
      if errors != [] || !v.Obj? { return 1; }
      var k := 0;
      while k < |lines|
        invariant k <= |lines| && lines == old(lines)
        invariant allowDuplicate || forall i :: 0 <= i < k ==> !Taken(lines[i], v)
      {
        if Taken(lines[k], v) && !allowDuplicate { return 1; }
        k := k + 1;
      }
      lines := lines + [Parsed(v)];
      return 0;
    }
  }

  lemma {:induction false} ClashIsTaken(line: Line, v: Json, env: Recognisers)
    requires Good(line, RECORD, env) && Valid(v, RECORD, env)
    ensures v.Obj? && (Clash(line, Parsed(v)) <==> Taken(line, v))
  {
    hide Valid, Get;
    ValidHasCycle(v, env);
    if line.Parsed? { ValidHasCycle(line.v, env); }
  }

  /** A successful append without the override keeps the ledger clean. */
  lemma {:induction false} RecordKeepsClean(lines: seq<Line>, v: Json, env: Recognisers)
    requires AllGood(lines, RECORD, env) && OnePerCycle(lines)
    ensures AllGood(Record(lines, v, false, env), RECORD, env) && OnePerCycle(Record(lines, v, false, env))
  {
    hide Valid, Taken, Clash, RecordErrors;
    if MayAppend(lines, v, false, env) {
      ValidExactly(v, RECORD, env);
      var after := lines + [Parsed(v)];
      forall i | 0 <= i < |lines| ensures !Clash(lines[i], Parsed(v)) { ClashIsTaken(lines[i], v, env); }
      assert Record(lines, v, false, env) == after;
      assert forall i :: 0 <= i < |lines| ==> after[i] == lines[i];
    }
  }

  /** With the override, the ledger stays clean exactly when the cycle was new. */
  lemma {:induction false} OverrideExactly(lines: seq<Line>, v: Json, env: Recognisers)
    requires AllGood(lines, RECORD, env) && OnePerCycle(lines) && Valid(v, RECORD, env)
    ensures var after := Record(lines, v, true, env);
            AllGood(after, RECORD, env) && (OnePerCycle(after) <==> MayAppend(lines, v, false, env))
  {
    hide Valid, Taken, Clash, RecordErrors;
    ValidExactly(v, RECORD, env);
    ValidIsObject(v, env);
    var after := lines + [Parsed(v)];
    forall i | 0 <= i < |lines| ensures Clash(lines[i], Parsed(v)) <==> Taken(lines[i], v) {
      ClashIsTaken(lines[i], v, env);
    }
    assert Record(lines, v, true, env) == after;
    assert forall i :: 0 <= i < |lines| ==> after[i] == lines[i];
    assert after[|lines|] == Parsed(v);
    if OnePerCycle(after) {
      forall k | 0 <= k < |lines| ensures !Taken(lines[k], v) { assert !Clash(after[k], after[|lines|]); }
    }
  }

  lemma {:induction false} ValidIsObject(v: Json, env: Recognisers)
    requires Valid(v, RECORD, env)
    ensures v.Obj?
  {
    hide Conforms, Get;
    CycleFields(v, env);
  }

  function RecordAll(lines: seq<Line>, values: seq<Json>, env: Recognisers): seq<Line> {
    if values == [] then lines
    else Record(RecordAll(lines, values[..|values| - 1], env), values[|values| - 1], false, env)
  }

  /** Whatever is recorded, and in whatever order, lint goes on passing. */
  lemma {:induction false} RunsStayAccepted(lines: seq<Line>, values: seq<Json>, env: Recognisers)
    requires Accepted(Load(lines, RECORD, env))
    ensures Accepted(Load(RecordAll(lines, values, env), RECORD, env))
  {
    hide Load, AllGood, OnePerCycle, Record;
    if values != [] {
      var before := RecordAll(lines, values[..|values| - 1], env);
      RunsStayAccepted(lines, values[..|values| - 1], env);
      LintExactly(before, env);
      RecordKeepsClean(before, values[|values| - 1], env);
      LintExactly(Record(before, values[|values| - 1], false, env), env);
    }
  }

  // ----- recorders that race -----

  datatype Recorder = Idle | Checked(v: Json)

  datatype Race = Race(lines: seq<Line>, recorders: seq<Recorder>)

  datatype Move = Start(who: nat, v: Json, allowDuplicate: bool) | Finish(who: nat)

  /** The check and the append are separate steps, so others may come between. */
  function Moved(r: Race, m: Move, env: Recognisers): Race {
    if m.who >= |r.recorders| then r
    else
      match m
      case Start(who, v, allowDuplicate) =>
        if r.recorders[who].Idle? && MayAppend(r.lines, v, allowDuplicate, env)
        then r.(recorders := r.recorders[who := Checked(v)]) else r
      case Finish(who) =>
        match r.recorders[who]
        case Idle => r
        case Checked(v) => Race(r.lines + [Parsed(v)], r.recorders[who := Idle])
  }

  function Raced(r: Race, moves: seq<Move>, env: Recognisers): Race {
    if moves == [] then r else Moved(Raced(r, moves[..|moves| - 1], env), moves[|moves| - 1], env)
  }

  predicate RaceGood(r: Race, env: Recognisers) {
    AllGood(r.lines, RECORD, env) &&
    forall k :: 0 <= k < |r.recorders| && r.recorders[k].Checked? ==> Valid(r.recorders[k].v, RECORD, env)
  }

  lemma {:induction false} MovedGood(r: Race, m: Move, env: Recognisers)
    requires RaceGood(r, env)
    ensures RaceGood(Moved(r, m, env), env)
  {
    hide Valid, Taken, RecordErrors;
    if m.Start? { ValidExactly(m.v, RECORD, env); }
  }

  lemma {:induction false} RacedGood(r: Race, moves: seq<Move>, env: Recognisers)
    requires RaceGood(r, env)
    ensures RaceGood(Raced(r, moves, env), env)
  {
    hide RaceGood, Moved;
    if moves != [] {
      RacedGood(r, moves[..|moves| - 1], env);
      MovedGood(Raced(r, moves[..|moves| - 1], env), moves[|moves| - 1], env);
    }
  }

  /** However recorders interleave, the only defect they can cause is a repeated
      cycle, and lint accepts the ledger exactly when there is none. */
  lemma {:induction false} RacesReported(lines: seq<Line>, n: nat, moves: seq<Move>, env: Recognisers)
    requires Accepted(Load(lines, RECORD, env))
    ensures var after := Raced(Race(lines, Idles(n)), moves, env).lines;
            AllGood(after, RECORD, env) && (Accepted(Load(after, RECORD, env)) <==> OnePerCycle(after))
  {
    hide Load, OnePerCycle, Good, Raced;
    LintExactly(lines, env);
    IdlesIdle(n);
    RacedGood(Race(lines, Idles(n)), moves, env);
    LintExactly(Raced(Race(lines, Idles(n)), moves, env).lines, env);
  }

  function Idles(n: nat): seq<Recorder> { if n == 0 then [] else Idles(n - 1) + [Idle] }

  lemma {:induction false} IdlesIdle(n: nat)
    ensures forall k :: 0 <= k < |Idles(n)| ==> Idles(n)[k].Idle?
  {
    if n > 0 { IdlesIdle(n - 1); }
  }

  /** Two recorders that check before either appends both append. */
  lemma {:induction false} RaceDuplicates(v: Json, env: Recognisers)
    requires Valid(v, RECORD, env)
    ensures var moves := [Start(0, v, false), Start(1, v, false), Finish(0), Finish(1)];
            !OnePerCycle(Raced(Race([], [Idle, Idle]), moves, env).lines)
  {
    hide Valid, Taken, RecordErrors, Clash;
    ValidExactly(v, RECORD, env);
    ValidIsObject(v, env);
    var moves := [Start(0, v, false), Start(1, v, false), Finish(0), Finish(1)];
    var s0 := Race([], [Idle, Idle]);
    var s1 := Race([], [Checked(v), Idle]);
    var s2 := Race([], [Checked(v), Checked(v)]);
    var s3 := Race([Parsed(v)], [Idle, Checked(v)]);
    var s4 := Race([Parsed(v), Parsed(v)], [Idle, Idle]);
    assert MayAppend([], v, false, env);
    assert Moved(s0, moves[0], env) == s1 && Moved(s1, moves[1], env) == s2;
    assert Moved(s2, moves[2], env) == s3 && Moved(s3, moves[3], env) == s4;
    assert moves[..3][..2] == moves[..2] && moves[..2][..1] == moves[..1] && moves[..1][..0] == [];
    assert Raced(s0, [], env) == s0;
    assert Raced(s0, moves[..1], env) == s1;
    assert Raced(s0, moves[..2], env) == s2;
    assert Raced(s0, moves[..3], env) == s3;
    assert Raced(s0, moves, env) == s4;
    assert Clash(s4.lines[0], s4.lines[1]) by { SelfClash(v, env); }
  }

  lemma {:induction false} SelfClash(v: Json, env: Recognisers)
    requires Valid(v, RECORD, env)
    ensures Clash(Parsed(v), Parsed(v))
  {
    hide Valid, CycleOf;
    ValidHasCycle(v, env);
  }
}
