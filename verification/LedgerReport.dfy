/** What the validator's and the loader's reports say, problem by problem and place by
    place: every defect is reported where it is, and nothing else is
    (`scripts/delivery-telemetry.py`). */
module LedgerReport {
  import opened Prelude
  import opened LedgerSchema
  import opened Ledger
  import opened LedgerRuns

  // ----- the checks in terms of values -----

  /** Each type name against the kind of value; a boolean is no number, and a type name
      that the validator does not know accepts everything. */
  lemma {:induction false} TypeOkExactly(v: Json, kind: string)
    ensures TypeOk(v, "object") <==> v.Obj?
    ensures TypeOk(v, "array") <==> v.List?
    ensures TypeOk(v, "string") <==> v.Str?
    ensures TypeOk(v, "integer") <==> v.Int?
    ensures TypeOk(v, "number") <==> v.Int? || v.Float?
    ensures TypeOk(v, "boolean") <==> v.Bool?
    ensures TypeOk(v, "null") <==> v.Null?
    ensures kind !in {"object", "array", "string", "integer", "number", "boolean", "null"} ==> TypeOk(v, kind)
  {
    assert "object"[0] == 'o' && "array"[0] == 'a' && "string"[0] == 's' && "integer"[0] == 'i';
    assert "number"[0] == 'n' && "number"[2] == 'm' && "boolean"[0] == 'b' && "null"[0] == 'n' && "null"[2] == 'l';
  }

  lemma {:induction false} GetNone(fields: seq<Field>, key: string)
    ensures Get(fields, key).None? <==> forall i :: 0 <= i < |fields| ==> fields[i].name != key
  {
    if fields != [] {
      var n := |fields| - 1;
      GetNone(fields[..n], key);
      assert forall i :: 0 <= i < n ==> fields[..n][i] == fields[i];
    }
  }

  /** A name that occurs more than once reads as its last occurrence. */
  lemma {:induction false} GetExactly(fields: seq<Field>, key: string, i: nat)
    requires i < |fields| && fields[i].name == key && forall j :: i < j < |fields| ==> fields[j].name != key
    ensures Get(fields, key) == Some(fields[i].value)
    decreases |fields|
  {
    var n := |fields| - 1;
    if i < n { GetExactly(fields[..n], key, i); }
  }

  /** Numbers and booleans are equal by value, strings by their characters, and null to
      itself alone. */
  lemma {:induction false} EqualExactly(m: int, n: int, r: real, b: bool, s: string, t: string, v: Json)
    ensures Equal(Int(m), Int(n)) <==> m == n
    ensures Equal(Int(m), Float(r)) <==> m as real == r
    ensures Equal(Bool(b), Int(n)) <==> n == if b then 1 else 0
    ensures Equal(Str(s), Str(t)) <==> s == t
    ensures Equal(Null, v) <==> v == Null
    ensures Equal(Str(s), v) ==> v.Str?
    ensures v.Str? || v.Null? || v.List? || v.Obj? ==> !Equal(Int(n), v) && !Equal(Bool(b), v)
  {
  }

  /** A constant must agree in kind as well, so no boolean passes for a number. */
  lemma {:induction false} ConstantExactly(v: Json, n: int)
    ensures ConstantOk(v, Int(n)) <==> v == Int(n) || v == Float(n as real)
  {
  }

  /** A minimum binds integers and floats and nothing else. */
  lemma {:induction false} MinimumExactly(v: Json, least: real)
    ensures MinimumOk(v, least) <==>
            match v
            case Int(n) => n as real >= least
            case Float(r) => r >= least
            case _ => true
  {
  }

  // ----- every problem at its place -----

  /** The value itself has the problem.  Once its type is wrong nothing further is said
      of it but a wrong constant or an unlisted value. */
  predicate Local(v: Json, s: Schema, env: Recognisers, problem: Problem) {
    match problem
    case NotEqual => s.constant.Some? && !ConstantOk(v, s.constant.value)
    case NotListed => s.enumeration.Some? && !Listed(v, s.enumeration.value)
    case WrongType => s.kind.Some? && !TypeOk(v, s.kind.value)
    case BelowMinimum => TypeHolds(v, s) && s.minimum.Some? && !MinimumOk(v, s.minimum.value)
    case NoMatch => TypeHolds(v, s) && s.pattern.Some? && v.Str? && !env.matches(s.pattern.value, v.s)
    case NotDateTime => TypeHolds(v, s) && s.dateTime && v.Str? && !env.parses(v.s)
    case NotFullDateTime =>
      TypeHolds(v, s) && s.dateTime && v.Str? && env.parses(v.s) && !('T' in v.s && env.hasOffset(v.s))
    case Missing(field) => IsObject(v, s) && field in s.required && Get(v.fields, field).None?
    case Unknown(key) =>
      && IsObject(v, s) && s.closed && !HasKey(s.properties, key)
      && exists i :: 0 <= i < |v.fields| && v.fields[i].name == key
    case _ => false
  }

  predicate IsObject(v: Json, s: Schema) { TypeHolds(v, s) && s.kind == Some("object") && v.Obj? }

  predicate IsArray(v: Json, s: Schema) { TypeHolds(v, s) && s.kind == Some("array") && v.List? && s.items.Some? }

  /** The value at the end of the path below `v` has the problem. */
  predicate Wrong(v: Json, s: Schema, env: Recognisers, path: seq<Step>, problem: Problem)
    decreases |path|
  {
    if path == [] then Local(v, s, env, problem)
    else
      match path[0]
      case Index(i) =>
        IsArray(v, s) && i < |v.items| && Wrong(v.items[i], s.items.value, env, path[1..], problem)
      case Key(k) =>
        IsObject(v, s) && Get(v.fields, k).Some? &&
        exists j :: 0 <= j < |s.properties| && s.properties[j].name == k
                 && Wrong(Get(v.fields, k).value, s.properties[j].schema, env, path[1..], problem)
  }

  predicate Below(path: seq<Step>, e: Error) { |path| < |e.path| && e.path[..|path|] == path }

  lemma {:induction false} MissingMean(fields: seq<Field>, s: Schema, path: seq<Step>, n: nat, e: Error)
    requires n <= |s.required|
    ensures e in MissingErrors(fields, s, path, n) <==>
            e.path == path && e.problem.Missing? && e.problem.field in s.required[..n]
            && Get(fields, e.problem.field).None?
  {
    hide Get;
    if n > 0 {
      MissingMean(fields, s, path, n - 1, e);
      assert s.required[..n] == s.required[..n - 1] + [s.required[n - 1]];
    }
  }

  lemma {:induction false} UnknownMean(fields: seq<Field>, s: Schema, path: seq<Step>, n: nat, e: Error)
    requires n <= |fields|
    ensures e in UnknownErrors(fields, s, path, n) <==>
            e.path == path && e.problem.Unknown? && !HasKey(s.properties, e.problem.key)
            && exists i :: 0 <= i < n && fields[i].name == e.problem.key
  {
    hide HasKey;
    if n > 0 { UnknownMean(fields, s, path, n - 1, e); }
  }

  /** The errors that a value reports of itself. */
  function OwnErrors(v: Json, s: Schema, path: seq<Step>, env: Recognisers): seq<Error> {
    if !TypeHolds(v, s) then LeadErrors(v, s, path) + [Error(path, WrongType)]
    else
      LeadErrors(v, s, path) + ScalarErrors(v, s, path, env) +
      (if IsObject(v, s) then KeyErrors(v.fields, s, path) else [])
  }

  lemma {:induction false} OwnMean(v: Json, s: Schema, path: seq<Step>, env: Recognisers, e: Error)
    ensures e in OwnErrors(v, s, path, env) <==> e.path == path && Local(v, s, env, e.problem)
  {
    hide LeadErrors, ScalarErrors, ConstantOk, Listed, TypeOk, MinimumOk, HasKey, Get, KeyErrors;
    LeadMean(v, s, path, env, e);
    if TypeHolds(v, s) { ScalarMean(v, s, path, env, e); }
    if IsObject(v, s) { KeysMean(v.fields, s, path, e); }
  }

  lemma {:induction false} LeadMean(v: Json, s: Schema, path: seq<Step>, env: Recognisers, e: Error)
    ensures e in LeadErrors(v, s, path) <==>
            e.path == path && (e.problem.NotEqual? || e.problem.NotListed?) && Local(v, s, env, e.problem)
  {
    hide ConstantOk, Listed, TypeOk, MinimumOk, HasKey, Get;
  }

  lemma {:induction false} CheckMean(ok: bool, path: seq<Step>, problem: Problem, e: Error)
    ensures e in Check(ok, path, problem) <==> !ok && e.path == path && e.problem == problem
  {
  }

  lemma {:induction false} FormatMean(v: Json, s: Schema, path: seq<Step>, env: Recognisers, e: Error)
    requires TypeHolds(v, s)
    ensures e in FormatErrors(v, s, path, env) <==>
            e.path == path && (e.problem.NotDateTime? || e.problem.NotFullDateTime?) && Local(v, s, env, e.problem)
  {
    hide TypeOk, Get, HasKey, Check;
    if v.Str? { CheckMean('T' in v.s && env.hasOffset(v.s), path, NotFullDateTime, e); }
  }

  lemma {:induction false} ScalarMean(v: Json, s: Schema, path: seq<Step>, env: Recognisers, e: Error)
    requires TypeHolds(v, s)
    ensures e in ScalarErrors(v, s, path, env) <==>
            && e.path == path && Local(v, s, env, e.problem)
            && (e.problem.BelowMinimum? || e.problem.NoMatch? || e.problem.NotDateTime? || e.problem.NotFullDateTime?)
  {
    hide ConstantOk, Listed, TypeOk, MinimumOk, HasKey, Get, Check, FormatErrors;
    CheckMean(s.minimum.Some? ==> MinimumOk(v, s.minimum.value), path, BelowMinimum, e);
    CheckMean(s.pattern.Some? && v.Str? ==> env.matches(s.pattern.value, v.s), path, NoMatch, e);
    FormatMean(v, s, path, env, e);
  }

  lemma {:induction false} KeysMean(fields: seq<Field>, s: Schema, path: seq<Step>, e: Error)
    ensures e in KeyErrors(fields, s, path) <==>
            && e.path == path
            && (|| (e.problem.Missing? && e.problem.field in s.required && Get(fields, e.problem.field).None?)
                || (e.problem.Unknown? && s.closed && !HasKey(s.properties, e.problem.key)
                    && exists i :: 0 <= i < |fields| && fields[i].name == e.problem.key))
  {
    hide MissingErrors, UnknownErrors, Get, HasKey;
    MissingMean(fields, s, path, |s.required|, e);
    assert s.required[..|s.required|] == s.required;
    UnknownMean(fields, s, path, |fields|, e);
  }

  lemma {:induction false} ItemsMean(items: seq<Json>, s: Schema, path: seq<Step>, env: Recognisers, n: nat, e: Error)
    requires n <= |items|
    ensures e in ItemErrors(items, s, path, env, n) <==>
            Below(path, e) && e.path[|path|].Index? && e.path[|path|].i < n
            && Wrong(items[e.path[|path|].i], s, env, e.path[|path| + 1..], e.problem)
    decreases s, |s.properties| + 1 + n
  {
    hide Violations, Wrong;
    if n > 0 {
      ItemsMean(items, s, path, env, n - 1, e);
      var longer := path + [Index(n - 1)];
      ViolationsMean(items[n - 1], s, longer, env, e);
      if |path| < |e.path| { assert e.path[..|path| + 1] == e.path[..|path|] + [e.path[|path|]]; }
      assert longer[..|path|] == path && longer[|path|] == Index(n - 1);
    }
  }

  predicate PropertyWrong(fields: seq<Field>, p: Property, env: Recognisers, path: seq<Step>, problem: Problem) {
    Get(fields, p.name).Some? && Wrong(Get(fields, p.name).value, p.schema, env, path, problem)
  }

  lemma {:induction false} PropertiesMean(fields: seq<Field>, s: Schema, path: seq<Step>, env: Recognisers, n: nat,
      e: Error)
    requires n <= |s.properties|
    ensures e in PropertyErrors(fields, s, path, env, n) <==>
            Below(path, e) && e.path[|path|].Key?
            && exists j :: 0 <= j < n && s.properties[j].name == e.path[|path|].k
                        && PropertyWrong(fields, s.properties[j], env, e.path[|path| + 1..], e.problem)
    decreases s, n
  {
    hide Violations, Wrong, Get;
    if n > 0 {
      PropertiesMean(fields, s, path, env, n - 1, e);
      var p := s.properties[n - 1];
      var longer := path + [Key(p.name)];
      if Get(fields, p.name).Some? { ViolationsMean(Get(fields, p.name).value, p.schema, longer, env, e); }
      if |path| < |e.path| { assert e.path[..|path| + 1] == e.path[..|path|] + [e.path[|path|]]; }
      assert longer[..|path|] == path && longer[|path|] == Key(p.name);
    }
  }

  /** The validator reports exactly the problems that the value and its parts have, each
      with the path to where it is. */
  lemma {:induction false} ViolationsMean(v: Json, s: Schema, path: seq<Step>, env: Recognisers, e: Error)
    ensures e in Violations(v, s, path, env) <==>
            |path| <= |e.path| && e.path[..|path|] == path && Wrong(v, s, env, e.path[|path|..], e.problem)
    decreases s, |s.properties| + 1
  {
    hide OwnErrors, ItemErrors, PropertyErrors, Local, Get;
    OwnMean(v, s, path, env, e);
    ViolationsParts(v, s, path, env, e);
    if IsArray(v, s) { ItemsMean(v.items, s.items.value, path, env, |v.items|, e); }
    if IsObject(v, s) { PropertiesMean(v.fields, s, path, env, |s.properties|, e); }
    if |path| <= |e.path| && e.path[..|path|] == path {
      WrongUnfold(v, s, env, e.path[|path|..], e.problem);
      if |e.path| == |path| {
        assert e.path == path && e.path[|path|..] == [];
      } else {
        assert e.path[|path|..][1..] == e.path[|path| + 1..];
      }
    }
  }

  lemma {:induction false} ViolationsParts(v: Json, s: Schema, path: seq<Step>, env: Recognisers, e: Error)
    ensures e in Violations(v, s, path, env) <==>
            || e in OwnErrors(v, s, path, env)
            || (IsArray(v, s) && e in ItemErrors(v.items, s.items.value, path, env, |v.items|))
            || (IsObject(v, s) && e in PropertyErrors(v.fields, s, path, env, |s.properties|))
  {
    hide LeadErrors, ScalarErrors, KeyErrors, TypeOk, ItemErrors, PropertyErrors;
  }

  lemma {:induction false} WrongUnfold(v: Json, s: Schema, env: Recognisers, path: seq<Step>, problem: Problem)
    ensures path == [] ==> (Wrong(v, s, env, path, problem) <==> Local(v, s, env, problem))
    ensures path != [] && path[0].Index? ==>
              (Wrong(v, s, env, path, problem) <==>
               IsArray(v, s) && path[0].i < |v.items|
               && Wrong(v.items[path[0].i], s.items.value, env, path[1..], problem))
    ensures path != [] && path[0].Key? ==>
              (Wrong(v, s, env, path, problem) <==>
               IsObject(v, s) && exists j :: 0 <= j < |s.properties| && s.properties[j].name == path[0].k
                                          && PropertyWrong(v.fields, s.properties[j], env, path[1..], problem))
  {
    hide Local, Get;
    if path != [] && path[0].Key? && IsObject(v, s) {
      var k := path[0].k;
      if j :| 0 <= j < |s.properties| && s.properties[j].name == k && Get(v.fields, k).Some?
              && Wrong(Get(v.fields, k).value, s.properties[j].schema, env, path[1..], problem) {
        assert PropertyWrong(v.fields, s.properties[j], env, path[1..], problem);
      }
    }
  }

  // ----- the severity split -----

  /** Blockers without nits, or nits without blockers, are reported as unpaired, and a
      pair of integers that does not add up to the findings as a mismatch. */
  lemma {:induction false} SeverityMean(fields: seq<Field>)
    ensures var blockers, nits := Get(fields, "roborev_blockers"), Get(fields, "roborev_nits");
            var findings := Get(fields, "roborev_findings");
            && (Error([], Unpaired) in SeverityErrors(fields) <==> blockers.Some? != nits.Some?)
            && (Error([], SplitMismatch) in SeverityErrors(fields) <==>
                IsInt(blockers) && IsInt(nits) && IsInt(findings)
                && blockers.value.n + nits.value.n != findings.value.n)
            && forall e :: e in SeverityErrors(fields) ==> e in {Error([], Unpaired), Error([], SplitMismatch)}
  {
    hide Get;
  }

  // ----- the loader's findings -----

  lemma {:induction false} InvalidsMean(line: nat, errors: seq<Error>, f: Finding)
    ensures f in Invalids(line, errors) <==> f.line == line && f.what.Invalid? && f.what.e in errors
  {
    if errors != [] {
      var n := |errors| - 1;
      InvalidsMean(line, errors[..n], f);
      assert errors == errors[..n] + [errors[n]];
    }
  }

  /** The first line that is about the same cycle as line `k`. */
  predicate FirstClash(lines: seq<Line>, i: int, k: int)
    requires 0 <= k < |lines|
  {
    0 <= i < k && Clash(lines[i], lines[k]) && forall j :: 0 <= j < i ==> !Clash(lines[j], lines[k])
  }

  /** Two lines are about the same cycle when both are objects whose issue is not null,
      with equal issues and equal pull requests; a missing pull request reads as null. */
  lemma {:induction false} ClashExactly(a: Line, b: Line)
    ensures Clash(a, b) <==>
            && a.Parsed? && a.v.Obj? && b.Parsed? && b.v.Obj?
            && !Field0(a.v.fields, "issue").Null? && !Field0(b.v.fields, "issue").Null?
            && Equal(Field0(a.v.fields, "issue"), Field0(b.v.fields, "issue"))
            && Equal(Field0(a.v.fields, "pr"), Field0(b.v.fields, "pr"))
  {
    hide Equal, Field0;
  }

  lemma {:induction false} RepeatMean(lines: seq<Line>, k: nat, f: Finding)
    requires k < |lines|
    ensures f in Repeat(lines, k) <==>
            f.line == k + 1 && f.what.Duplicate? && FirstClash(lines, f.what.first - 1, k)
  {
    hide LineCycle, SameCycle;
    var c := LineCycle(lines[k]);
    if c.Some? {
      var first := FirstLine(lines, k, c.value);
      forall i | 0 <= i < k ensures FirstClash(lines, i, k) <==> first == Some(i) {
      }
    }
  }

  /** The defect that a finding names is the defect of its line. */
  predicate Defect(lines: seq<Line>, f: Finding, schema: Schema, env: Recognisers) {
    1 <= f.line <= |lines| &&
    var line := lines[f.line - 1];
    match f.what
    case BadJson => line.Garbled?
    case Invalid(e) => line.Parsed? && e in RecordErrors(line.v, schema, env)
    case Duplicate(first) => line.Parsed? && FirstClash(lines, first - 1, f.line - 1)
  }

  lemma {:induction false} LineFindingsMean(lines: seq<Line>, k: nat, schema: Schema, env: Recognisers, f: Finding)
    requires k < |lines|
    ensures f in LineFindings(lines, k, schema, env) <==> f.line == k + 1 && Defect(lines, f, schema, env)
  {
    hide RecordErrors, Invalids, Repeat, FirstClash;
    if lines[k].Parsed? {
      InvalidsMean(k + 1, RecordErrors(lines[k].v, schema, env), f);
      RepeatMean(lines, k, f);
    }
  }

  /** The loader's findings are exactly the defects of the ledger's lines: lines that do
      not parse, violations of the schema, and second records of a cycle, with the line
      of the first. */
  lemma {:induction false} FindingsMean(lines: seq<Line>, n: nat, schema: Schema, env: Recognisers, f: Finding)
    requires n <= |lines|
    ensures f in Findings(lines, n, schema, env) <==> f.line <= n && Defect(lines, f, schema, env)
  {
    hide LineFindings, Defect;
    if n > 0 {
      FindingsMean(lines, n - 1, schema, env, f);
      LineFindingsMean(lines, n - 1, schema, env, f);
    } else {
      NoLineZero(lines, schema, env, f);
    }
  }

  lemma {:induction false} NoLineZero(lines: seq<Line>, schema: Schema, env: Recognisers, f: Finding)
    ensures Defect(lines, f, schema, env) ==> f.line > 0
  {
    hide RecordErrors, FirstClash;
  }
}
