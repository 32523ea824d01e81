/** The delivery ledger's record validator: a recursive walk over a schema that
    appends to a shared list of errors (`scripts/delivery-telemetry.py`).  Regular
    expressions and timestamps are recognised by parameters. */
module LedgerSchema {
  import opened Prelude

  datatype Json =
    | Null
    | Bool(b: bool)
    | Int(n: int)
    | Float(r: real)
    | Str(s: string)
    | List(items: seq<Json>)
    | Obj(fields: seq<Field>)

  datatype Field = Field(name: string, value: Json)

  /** The schema keywords that the validator reads. */
  datatype Schema = Schema(
    constant: Option<Json>,
    enumeration: Option<seq<Json>>,
    kind: Option<string>,
    minimum: Option<real>,
    pattern: Option<string>,
    dateTime: bool,
    items: Option<Schema>,
    required: seq<string>,
    closed: bool,
    properties: seq<Property>)

  datatype Property = Property(name: string, schema: Schema)

  datatype Recognisers = Recognisers(
    matches: (string, string) -> bool,
    parses: string -> bool,
    hasOffset: string -> bool)

  datatype Step = Index(i: nat) | Key(k: string)

  datatype Problem =
    | NotEqual
    | NotListed
    | WrongType
    | BelowMinimum
    | NoMatch
    | NotDateTime
    | NotFullDateTime
    | Missing(field: string)
    | Unknown(key: string)
    | Unpaired
    | SplitMismatch

  datatype Error = Error(path: seq<Step>, problem: Problem)

  // ----- values -----

  function Get(fields: seq<Field>, key: string): Option<Json> {
    if fields == [] then None
    else if fields[|fields| - 1].name == key then Some(fields[|fields| - 1].value)
    else Get(fields[..|fields| - 1], key)
  }

  predicate IsNumeric(v: Json) { v.Bool? || v.Int? || v.Float? }

  function Num(v: Json): real
    requires IsNumeric(v)
  {
    match v
    case Bool(b) => if b then 1.0 else 0.0
    case Int(n) => n as real
    case Float(r) => r
  }

  /** Equality as Python has it: booleans and numbers compare by value. */
  predicate Equal(a: Json, b: Json) {
    if IsNumeric(a) && IsNumeric(b) then Num(a) == Num(b)
    else if a.List? && b.List? then
      |a.items| == |b.items| && forall i :: 0 <= i < |a.items| ==> Equal(a.items[i], b.items[i])
    else if a.Obj? && b.Obj? then
      (forall i :: 0 <= i < |a.fields| ==>
        Get(b.fields, a.fields[i].name).Some? && Equal(a.fields[i].value, Get(b.fields, a.fields[i].name).value)) &&
      (forall i :: 0 <= i < |b.fields| ==> Get(a.fields, b.fields[i].name).Some?)
    else a == b
  }

  predicate TypeOk(v: Json, kind: string) {
    if kind == "object" then v.Obj?
    else if kind == "array" then v.List?
    else if kind == "string" then v.Str?
    else if kind == "integer" then v.Int?
    else if kind == "number" then v.Int? || v.Float?
    else if kind == "boolean" then v.Bool?
    else if kind == "null" then v.Null?
    else true
  }

  // ----- what a value must satisfy -----

  predicate ConstantOk(v: Json, c: Json) { Equal(v, c) && v.Bool? == c.Bool? }

  predicate Listed(v: Json, options: seq<Json>) { exists i :: 0 <= i < |options| && Equal(v, options[i]) }

  predicate MinimumOk(v: Json, least: real) { v.Int? || v.Float? ==> Num(v) >= least }

  predicate DateTimeOk(s: string, env: Recognisers) { env.parses(s) && 'T' in s && env.hasOffset(s) }

  predicate SimpleOk(v: Json, s: Schema, env: Recognisers) {
    (s.constant.Some? ==> ConstantOk(v, s.constant.value)) &&
    (s.enumeration.Some? ==> Listed(v, s.enumeration.value)) &&
    (s.kind.Some? ==> TypeOk(v, s.kind.value)) &&
    (s.minimum.Some? ==> MinimumOk(v, s.minimum.value)) &&
    (s.pattern.Some? && v.Str? ==> env.matches(s.pattern.value, v.s)) &&
    (s.dateTime && v.Str? ==> DateTimeOk(v.s, env))
  }

  predicate HasKey(properties: seq<Property>, key: string) {
    exists i :: 0 <= i < |properties| && properties[i].name == key
  }

  predicate KeysOk(fields: seq<Field>, s: Schema) {
    (forall i :: 0 <= i < |s.required| ==> Get(fields, s.required[i]).Some?) &&
    (s.closed ==> forall i :: 0 <= i < |fields| ==> HasKey(s.properties, fields[i].name))
  }

  /** The value satisfies the schema. */
  predicate Conforms(v: Json, s: Schema, env: Recognisers)
    decreases s
  {
    SimpleOk(v, s, env) &&
    (s.kind == Some("array") && v.List? && s.items.Some? ==>
      forall i :: 0 <= i < |v.items| ==> Conforms(v.items[i], s.items.value, env)) &&
    (s.kind == Some("object") && v.Obj? ==>
      KeysOk(v.fields, s) &&
      forall i :: 0 <= i < |s.properties| && Get(v.fields, s.properties[i].name).Some?
        ==> Conforms(Get(v.fields, s.properties[i].name).value, s.properties[i].schema, env))
  }

  // ----- what the validator reports -----

  function Check(ok: bool, path: seq<Step>, problem: Problem): seq<Error> {
    if ok then [] else [Error(path, problem)]
  }

  function LeadErrors(v: Json, s: Schema, path: seq<Step>): seq<Error> {
    Check(s.constant.Some? ==> ConstantOk(v, s.constant.value), path, NotEqual) +
    Check(s.enumeration.Some? ==> Listed(v, s.enumeration.value), path, NotListed)
  }

  function FormatErrors(v: Json, s: Schema, path: seq<Step>, env: Recognisers): seq<Error> {
    if !s.dateTime || !v.Str? then []
    else if !env.parses(v.s) then [Error(path, NotDateTime)]
    else Check('T' in v.s && env.hasOffset(v.s), path, NotFullDateTime)
  }

  function ScalarErrors(v: Json, s: Schema, path: seq<Step>, env: Recognisers): seq<Error> {
    Check(s.minimum.Some? ==> MinimumOk(v, s.minimum.value), path, BelowMinimum) +
    Check(s.pattern.Some? && v.Str? ==> env.matches(s.pattern.value, v.s), path, NoMatch) +
    FormatErrors(v, s, path, env)
  }

  function MissingErrors(fields: seq<Field>, s: Schema, path: seq<Step>, n: nat): seq<Error>
    requires n <= |s.required|
  {
    if n == 0 then []
    else MissingErrors(fields, s, path, n - 1) +
         Check(Get(fields, s.required[n - 1]).Some?, path, Missing(s.required[n - 1]))
  }

  function UnknownErrors(fields: seq<Field>, s: Schema, path: seq<Step>, n: nat): seq<Error>
    requires n <= |fields|
  {
    if n == 0 then []
    else UnknownErrors(fields, s, path, n - 1) +
         Check(HasKey(s.properties, fields[n - 1].name), path, Unknown(fields[n - 1].name))
  }

  function KeyErrors(fields: seq<Field>, s: Schema, path: seq<Step>): seq<Error> {
    MissingErrors(fields, s, path, |s.required|) +
    (if s.closed then UnknownErrors(fields, s, path, |fields|) else [])
  }

  function ItemErrors(items: seq<Json>, s: Schema, path: seq<Step>, env: Recognisers, n: nat): seq<Error>
    requires n <= |items|
    decreases s, |s.properties| + 1 + n
  {
    if n == 0 then []
    else ItemErrors(items, s, path, env, n - 1) + Violations(items[n - 1], s, path + [Index(n - 1)], env)
  }

  function PropertyErrors(fields: seq<Field>, s: Schema, path: seq<Step>, env: Recognisers, n: nat): seq<Error>
    requires n <= |s.properties|
    decreases s, n
  {
    if n == 0 then []
    else
      var p := s.properties[n - 1];
      PropertyErrors(fields, s, path, env, n - 1) +
      (match Get(fields, p.name)
       case None => []
       case Some(value) => Violations(value, p.schema, path + [Key(p.name)], env))
  }

  predicate TypeHolds(v: Json, s: Schema) { s.kind.Some? ==> TypeOk(v, s.kind.value) }

  function Violations(v: Json, s: Schema, path: seq<Step>, env: Recognisers): seq<Error>
    decreases s, |s.properties| + 1
  {
    if !TypeHolds(v, s) then LeadErrors(v, s, path) + [Error(path, WrongType)]
    else
      LeadErrors(v, s, path) + ScalarErrors(v, s, path, env) +
      (if s.kind == Some("array") && v.List? && s.items.Some?
       then ItemErrors(v.items, s.items.value, path, env, |v.items|) else []) +
      (if s.kind == Some("object") && v.Obj?
       then KeyErrors(v.fields, s, path) + PropertyErrors(v.fields, s, path, env, |s.properties|) else [])
  }

  /** The list of errors that a walk appends to. */
  class ErrorLog {
    var errors: seq<Error>

    constructor ()
      ensures errors == []
    {
      errors := [];
    }

    method Expect(ok: bool, path: seq<Step>, problem: Problem)
      modifies this
      ensures errors == old(errors) + Check(ok, path, problem)
    {
      if !ok { errors := errors + [Error(path, problem)]; }
    }

    method ValidateLead(v: Json, s: Schema, path: seq<Step>)
      modifies this
      ensures errors == old(errors) + LeadErrors(v, s, path)
    {
      Expect(s.constant.Some? ==> ConstantOk(v, s.constant.value), path, NotEqual);
      Expect(s.enumeration.Some? ==> Listed(v, s.enumeration.value), path, NotListed);
    }

    method ValidateScalar(v: Json, s: Schema, path: seq<Step>, env: Recognisers)
      modifies this
      ensures errors == old(errors) + ScalarErrors(v, s, path, env)
    {
      Expect(s.minimum.Some? ==> MinimumOk(v, s.minimum.value), path, BelowMinimum);
      Expect(s.pattern.Some? && v.Str? ==> env.matches(s.pattern.value, v.s), path, NoMatch);
      if s.dateTime && v.Str? {
        if !env.parses(v.s) { errors := errors + [Error(path, NotDateTime)]; }
        else { Expect('T' in v.s && env.hasOffset(v.s), path, NotFullDateTime); }
      }
    }

    method ValidateKeys(fields: seq<Field>, s: Schema, path: seq<Step>)
      modifies this
      ensures errors == old(errors) + KeyErrors(fields, s, path)
    {
      hide Get, HasKey;
      for n := 0 to |s.required|
        invariant errors == old(errors) + MissingErrors(fields, s, path, n)
      {
        Expect(Get(fields, s.required[n]).Some?, path, Missing(s.required[n]));
      }
      if s.closed {
        ghost var before := errors;
        for n := 0 to |fields|
          invariant errors == before + UnknownErrors(fields, s, path, n)
        {
          Expect(HasKey(s.properties, fields[n].name), path, Unknown(fields[n].name));
        }
      }
    }

    /** Appends exactly the value's violations, in the walk's order. */
    method Validate(v: Json, s: Schema, path: seq<Step>, env: Recognisers)
      modifies this
      ensures errors == old(errors) + Violations(v, s, path, env)
      decreases s, |s.properties| + 1
    {
      hide LeadErrors, ScalarErrors, KeyErrors, TypeOk, ItemErrors, PropertyErrors;
      ValidateLead(v, s, path);
      if !TypeHolds(v, s) {
        errors := errors + [Error(path, WrongType)];
        return;
      }
      ValidateScalar(v, s, path, env);
      if s.kind == Some("array") && v.List? && s.items.Some? {
        ValidateItems(v.items, s.items.value, path, env);
      }
      if s.kind == Some("object") && v.Obj? {
        ValidateKeys(v.fields, s, path);
        ValidateProperties(v.fields, s, path, env);
      }
    }

    method ValidateItems(items: seq<Json>, s: Schema, path: seq<Step>, env: Recognisers)
      modifies this
      ensures errors == old(errors) + ItemErrors(items, s, path, env, |items|)
      decreases s, |s.properties| + 2
    {
      hide Violations;
      for n := 0 to |items|
        invariant errors == old(errors) + ItemErrors(items, s, path, env, n)
      {
        Validate(items[n], s, path + [Index(n)], env);
      }
    }

    method ValidateProperties(fields: seq<Field>, s: Schema, path: seq<Step>, env: Recognisers)
      modifies this
      ensures errors == old(errors) + PropertyErrors(fields, s, path, env, |s.properties|)
      decreases s, 0
    {
      hide Violations, Get;
      for n := 0 to |s.properties|
        invariant errors == old(errors) + PropertyErrors(fields, s, path, env, n)
      {
        var p := s.properties[n];
        var found := Get(fields, p.name);
        if found.Some? { Validate(found.value, p.schema, path + [Key(p.name)], env); }
      }
    }
  }

  // ----- the report is empty exactly for conforming values -----

  lemma {:induction false} SimpleExactly(v: Json, s: Schema, path: seq<Step>, env: Recognisers)
    ensures LeadErrors(v, s, path) == [] && TypeHolds(v, s) && ScalarErrors(v, s, path, env) == []
       <==> SimpleOk(v, s, env)
  {
    hide Equal, TypeOk;
  }

  lemma {:induction false} MissingExactly(fields: seq<Field>, s: Schema, path: seq<Step>, n: nat)
    requires n <= |s.required|
    ensures MissingErrors(fields, s, path, n) == [] <==> forall i :: 0 <= i < n ==> Get(fields, s.required[i]).Some?
  {
    if n > 0 { MissingExactly(fields, s, path, n - 1); }
  }

  lemma {:induction false} UnknownExactly(fields: seq<Field>, s: Schema, path: seq<Step>, n: nat)
    requires n <= |fields|
    ensures UnknownErrors(fields, s, path, n) == [] <==> forall i :: 0 <= i < n ==> HasKey(s.properties, fields[i].name)
  {
    hide HasKey;
    if n > 0 { UnknownExactly(fields, s, path, n - 1); }
  }

  lemma {:induction false} KeysExactly(fields: seq<Field>, s: Schema, path: seq<Step>)
    ensures KeyErrors(fields, s, path) == [] <==> KeysOk(fields, s)
  {
    hide HasKey, Get;
    MissingExactly(fields, s, path, |s.required|);
    UnknownExactly(fields, s, path, |fields|);
  }

  lemma {:induction false} ItemsExactly(items: seq<Json>, s: Schema, path: seq<Step>, env: Recognisers, n: nat)
    requires n <= |items|
    ensures ItemErrors(items, s, path, env, n) == [] <==> forall i :: 0 <= i < n ==> Conforms(items[i], s, env)
    decreases s, |s.properties| + 1 + n
  {
    hide Conforms, Violations;
    if n > 0 {
      ItemsExactly(items, s, path, env, n - 1);
      ViolationsExactly(items[n - 1], s, path + [Index(n - 1)], env);
    }
  }

  predicate PropertyOk(fields: seq<Field>, p: Property, env: Recognisers)
    decreases p
  {
    Get(fields, p.name).Some? ==> Conforms(Get(fields, p.name).value, p.schema, env)
  }

  lemma {:induction false} PropertiesExactly(fields: seq<Field>, s: Schema, path: seq<Step>, env: Recognisers, n: nat)
    requires n <= |s.properties|
    ensures PropertyErrors(fields, s, path, env, n) == [] <==>
            forall i :: 0 <= i < n ==> PropertyOk(fields, s.properties[i], env)
    decreases s, n
  {
    hide Conforms, Violations, Get;
    if n > 0 {
      PropertiesExactly(fields, s, path, env, n - 1);
      var p := s.properties[n - 1];
      if Get(fields, p.name).Some? {
        ViolationsExactly(Get(fields, p.name).value, p.schema, path + [Key(p.name)], env);
      }
    }
  }

  lemma {:induction false} ViolationsExactly(v: Json, s: Schema, path: seq<Step>, env: Recognisers)
    ensures Violations(v, s, path, env) == [] <==> Conforms(v, s, env)
    decreases s, |s.properties| + 1
  {
    hide SimpleOk, LeadErrors, ScalarErrors, KeyErrors, KeysOk, TypeHolds, Get, ItemErrors, PropertyErrors;
    SimpleExactly(v, s, path, env);
    if s.kind == Some("array") && v.List? && s.items.Some? {
      ItemsExactly(v.items, s.items.value, path, env, |v.items|);
    }
    if s.kind == Some("object") && v.Obj? {
      KeysExactly(v.fields, s, path);
      PropertiesExactly(v.fields, s, path, env, |s.properties|);
      assert (forall i :: 0 <= i < |s.properties| ==> PropertyOk(v.fields, s.properties[i], env)) <==>
             (forall i :: 0 <= i < |s.properties| && Get(v.fields, s.properties[i].name).Some?
                ==> Conforms(Get(v.fields, s.properties[i].name).value, s.properties[i].schema, env));
    }
  }

  /** A conforming object's property conforms to the property's schema. */
  lemma {:induction false} PropertyConforms(v: Json, s: Schema, env: Recognisers, i: nat)
    requires Conforms(v, s, env) && s.kind == Some("object") && i < |s.properties|
    ensures v.Obj? && PropertyOk(v.fields, s.properties[i], env)
  {
    hide Get;
    assert TypeOk(v, "object");
  }

  lemma {:induction false} RequiredPresent(v: Json, s: Schema, env: Recognisers, i: nat)
    requires Conforms(v, s, env) && s.kind == Some("object") && i < |s.required|
    ensures v.Obj? && Get(v.fields, s.required[i]).Some?
  {
    hide Get;
    assert TypeOk(v, "object");
  }

  /** An enumeration lists a boolean exactly when it holds the number or boolean that
      Python takes for equal to it. */
  lemma {:induction false} BooleanListedExactly(b: bool, options: seq<Json>)
    ensures Listed(Bool(b), options) <==>
            exists i :: 0 <= i < |options| && IsNumeric(options[i]) && Num(options[i]) == if b then 1.0 else 0.0
  {
    forall i | 0 <= i < |options|
      ensures Equal(Bool(b), options[i]) <==> IsNumeric(options[i]) && Num(options[i]) == if b then 1.0 else 0.0
    {
    }
  }

  /** The guard that keeps `true` from counting as 1 is only on `const`: for a schema
      with an enumeration alone, a boolean conforms exactly if its number is listed,
      and with a constant alone exactly if the constant is that boolean. */
  lemma {:induction false} EnumerationAcceptsBoolean(b: bool, options: seq<Json>, c: Json, env: Recognisers)
    ensures var plain := Schema(None, None, None, None, None, false, None, [], false, []);
            && (Conforms(Bool(b), plain.(enumeration := Some(options)), env) <==>
                exists i :: 0 <= i < |options| && IsNumeric(options[i]) && Num(options[i]) == if b then 1.0 else 0.0)
            && (Conforms(Bool(b), plain.(constant := Some(c)), env) <==> c == Bool(b))
  {
    BooleanListedExactly(b, options);
  }

  /** So `true` passes an enumeration of 1 and fails the constant 1. */
  lemma {:induction false} TrueIsListedAsOne(env: Recognisers)
    ensures var plain := Schema(None, None, None, None, None, false, None, [], false, []);
            !Conforms(Bool(true), plain.(constant := Some(Int(1))), env) &&
            Conforms(Bool(true), plain.(enumeration := Some([Int(1)])), env)
  {
    hide Conforms;
    EnumerationAcceptsBoolean(true, [Int(1)], Int(1), env);
    assert [Int(1)][0] == Int(1);
  }
}
