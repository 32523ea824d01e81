/** The performance-history summary: for each (bench, metric) the latest record and
    the most recent one from a different commit (`scripts/profile_report.py`). */
module History {
  import opened Prelude
  import opened Sorting

  datatype Rec = Rec(bench: string, metric: string, commit: string, ts: real, value: real, unit: string)

  datatype Key = Key(bench: string, metric: string)

  datatype Summary = Summary(key: Key, latest: Rec, prev: Option<Rec>, delta: Option<real>)

  datatype Group = Group(key: Key, recs: seq<Rec>)

  function KeyOf(r: Rec): Key { Key(r.bench, r.metric) }

  predicate TsLeq(a: Rec, b: Rec) { a.ts <= b.ts }

  predicate KeyLeq(a: Key, b: Key) {
    (a.bench != b.bench && NameLeq(a.bench, b.bench)) || (a.bench == b.bench && NameLeq(a.metric, b.metric))
  }

  predicate SummaryLeq(a: Summary, b: Summary) { KeyLeq(a.key, b.key) }

  // ----- the program -----

  /** The records of one group, in ledger order. */
  function Of(records: seq<Rec>, k: Key): seq<Rec> {
    if records == [] then []
    else
      var r := records[|records| - 1];
      Of(records[..|records| - 1], k) + (if KeyOf(r) == k then [r] else [])
  }

  function AddTo(groups: seq<Group>, r: Rec): seq<Group> {
    if groups == [] then [Group(KeyOf(r), [r])]
    else if groups[0].key == KeyOf(r) then [Group(KeyOf(r), groups[0].recs + [r])] + groups[1..]
    else [groups[0]] + AddTo(groups[1..], r)
  }

  function Delta(latest: Rec, prev: Option<Rec>): Option<real> {
    if prev.None? || prev.value.value == 0.0 then None
    else Some((latest.value / prev.value.value - 1.0) * 100.0)
  }

  /** The backward search over a group sorted by timestamp. */
  method LatestAndPrev(group: seq<Rec>) returns (latest: Option<Rec>, prev: Option<Rec>)
    ensures latest == Last(group)
    ensures prev == if group == [] then None else Last(Others(group, Last(group).value.commit))
  {
    if group == [] { return None, None; }
    var last := group[|group| - 1];
    latest := Some(last);
    var i := |group| - 1;
    assert group[..i + 1] == group;
    assert Others(group, last.commit) == Others(group[..i], last.commit);
    while i > 0
      invariant 0 <= i <= |group| - 1
      invariant Last(Others(group, last.commit)) == Last(Others(group[..i], last.commit))
    {
      i := i - 1;
      assert group[..i + 1][..i] == group[..i];
      if group[i].commit != last.commit { return latest, Some(group[i]); }
    }
    return latest, None;
  }

  function Last(s: seq<Rec>): Option<Rec> { if s == [] then None else Some(s[|s| - 1]) }

  /** The records of other commits. */
  function Others(s: seq<Rec>, commit: string): seq<Rec> {
    if s == [] then []
    else
      var r := s[|s| - 1];
      Others(s[..|s| - 1], commit) + (if r.commit != commit then [r] else [])
  }

  predicate IsSummary(records: seq<Rec>, row: Summary) {
    var group := Of(records, row.key);
    Newest(group, row.latest) && PrevOf(group, row.latest.commit, row.prev) && row.delta == Delta(row.latest, row.prev)
  }

  /** r is the record with the greatest timestamp, the last of them in the ledger. */
  predicate Newest(s: seq<Rec>, r: Rec) {
    exists i :: 0 <= i < |s| && s[i] == r && IsNewestAt(s, i)
  }

  predicate IsNewestAt(s: seq<Rec>, i: nat)
    requires i < |s|
  {
    (forall j :: 0 <= j < i ==> s[j].ts <= s[i].ts) && (forall j :: i < j < |s| ==> s[j].ts < s[i].ts)
  }

  predicate PrevOf(s: seq<Rec>, commit: string, prev: Option<Rec>) {
    match prev
    case None => Others(s, commit) == []
    case Some(r) => Newest(Others(s, commit), r)
  }

  /** The change is a percentage of the previous value: adding that share of it gives
      the latest, and a rise from a positive value is a positive change. */
  lemma {:induction false} DeltaExactly(latest: Rec, prev: Option<Rec>)
    ensures Delta(latest, prev).Some? <==> prev.Some? && prev.value.value != 0.0
    ensures Delta(latest, prev).Some? ==>
              var d, p := Delta(latest, prev).value, prev.value.value;
              && 100.0 * latest.value == p * (100.0 + d)
              && (p > 0.0 ==> (d > 0.0 <==> latest.value > p) && (d == 0.0 <==> latest.value == p))
  {
    if prev.Some? && prev.value.value != 0.0 {
      var p, q := prev.value.value, latest.value / prev.value.value;
      assert p * q == latest.value;
      var d := (q - 1.0) * 100.0;
      assert p * (100.0 + d) == 100.0 * (p * q);
      if p > 0.0 { ShareSign(p, q); }
    }
  }

  lemma {:induction false} ShareSign(p: real, q: real)
    requires p > 0.0
    ensures q > 1.0 <==> p * q > p
    ensures q == 1.0 <==> p * q == p
  {
    var d := q - 1.0;
    assert p * q == p + p * d;
    if d > 0.0 { assert p * d > 0.0; } else if d < 0.0 { assert p * d < 0.0; }
  }

  // ----- sorting and filtering -----

  lemma {:induction false} TsOrder()
    ensures TotalPreorder(TsLeq)
  {
  }

  lemma {:induction false} OthersSnoc(s: seq<Rec>, x: Rec, c: string)
    ensures Others(s + [x], c) == if x.commit != c then Others(s, c) + [x] else Others(s, c)
  {
    assert (s + [x])[..|s|] == s;
  }

  lemma {:induction false} InsertSnoc(s: seq<Rec>, y: Rec, x: Rec)
    ensures Insert(s + [y], x, TsLeq) == if y.ts <= x.ts then s + [y] + [x] else Insert(s, x, TsLeq) + [y]
  {
    assert (s + [y])[..|s|] == s;
  }

  lemma {:induction false} SortSnoc(s: seq<Rec>, x: Rec)
    ensures Sort(s + [x], TsLeq) == Insert(Sort(s, TsLeq), x, TsLeq)
  {
    hide Insert;
    assert (s + [x])[..|s|] == s;
  }

  /** Filtering a stable insertion is inserting into what was filtered. */
  lemma {:induction false} OthersInsert(s: seq<Rec>, x: Rec, c: string)
    requires Sorted(s, TsLeq)
    ensures Others(Insert(s, x, TsLeq), c) == if x.commit == c then Others(s, c) else Insert(Others(s, c), x, TsLeq)
  {
    hide Others, Insert, Sorted;
    Bases(x, c);
    OthersSnoc(s, x, c);
    if s == [] {
      assert s + [x] == [x];
    } else {
      var init, y := s[..|s| - 1], s[|s| - 1];
      assert s == init + [y];
      InsertSnoc(init, y, x);
      if y.ts <= x.ts {
        OthersLast(s, x, c);
      } else {
        SortedInit(s);
        OthersInsert(init, x, c);
        OthersSnoc(init, y, c);
        OthersSnoc(Insert(init, x, TsLeq), y, c);
        InsertSnoc(Others(init, c), y, x);
      }
    }
  }

  lemma {:induction false} Bases(x: Rec, c: string)
    ensures Others([], c) == [] && Insert([], x, TsLeq) == [x] && Sort([], TsLeq) == []
  {
  }

  lemma {:induction false} SortedInit(s: seq<Rec>)
    requires Sorted(s, TsLeq) && s != []
    ensures Sorted(s[..|s| - 1], TsLeq)
  {
  }

  lemma {:induction false} OthersMember(s: seq<Rec>, c: string, y: Rec)
    requires y in Others(s, c)
    ensures y in s && y.commit != c
  {
    if y in Others(s[..|s| - 1], c) { OthersMember(s[..|s| - 1], c, y); }
  }

  lemma {:induction false} OthersLast(s: seq<Rec>, x: Rec, c: string)
    requires Sorted(s, TsLeq) && s != [] && s[|s| - 1].ts <= x.ts
    ensures Insert(Others(s, c), x, TsLeq) == Others(s, c) + [x]
  {
    var o := Others(s, c);
    if o != [] {
      OthersMember(s, c, o[|o| - 1]);
      var i :| 0 <= i < |s| && s[i] == o[|o| - 1];
      assert i < |s| - 1 ==> TsLeq(s[i], s[|s| - 1]);
    }
  }

  lemma {:induction false} OthersSort(s: seq<Rec>, c: string)
    ensures Others(Sort(s, TsLeq), c) == Sort(Others(s, c), TsLeq)
  {
    hide Others, Sort, Insert, Sorted;
    if s == [] {
      Bases(Rec("", "", c, 0.0, 0.0, ""), c);
    } else {
      var init, x := s[..|s| - 1], s[|s| - 1];
      assert s == init + [x];
      OthersSort(init, c);
      TsOrder();
      SortSorted(init, TsLeq);
      OthersInsert(Sort(init, TsLeq), x, c);
      SortSnoc(init, x);
      SortSnoc(Others(init, c), x);
      OthersSnoc(init, x, c);
    }
  }

  lemma {:induction false} InsertEnd(s: seq<Rec>, x: Rec)
    ensures Insert(s, x, TsLeq) != []
    ensures var t := Insert(s, x, TsLeq);
            t[|t| - 1] == if s == [] || s[|s| - 1].ts <= x.ts then x else s[|s| - 1]
  {
  }

  /** The last record in stable timestamp order is the newest. */
  lemma {:induction false} LastIsNewest(s: seq<Rec>)
    requires s != []
    ensures Sort(s, TsLeq) != [] && Newest(s, Sort(s, TsLeq)[|Sort(s, TsLeq)| - 1])
  {
    var n := |s| - 1;
    var init, x := s[..n], s[n];
    assert s == init + [x];
    SortSnoc(init, x);
    InsertEnd(Sort(init, TsLeq), x);
    if init == [] {
      assert IsNewestAt(s, 0);
    } else {
      LastIsNewest(init);
      hide Sort, Insert;
      var before := Sort(init, TsLeq);
      NewestSnoc(init, before[|before| - 1], x);
    }
  }

  lemma {:induction false} NewestSnoc(s: seq<Rec>, y: Rec, x: Rec)
    requires Newest(s, y)
    ensures Newest(s + [x], if y.ts <= x.ts then x else y)
  {
    var i :| 0 <= i < |s| && s[i] == y && IsNewestAt(s, i);
    var t := s + [x];
    assert forall j :: 0 <= j < |s| ==> t[j] == s[j];
    assert forall j :: 0 <= j < |s| ==> s[j].ts <= y.ts;
    if y.ts <= x.ts { assert IsNewestAt(t, |s|); } else { assert IsNewestAt(t, i); }
  }

  /** Latest and previous read off the sorted group are what the ledger says. */
  lemma {:induction false} SearchMeans(group: seq<Rec>)
    requires group != []
    ensures var s := Sort(group, TsLeq);
            s != [] && Newest(group, s[|s| - 1]) &&
            PrevOf(group, s[|s| - 1].commit, Last(Others(s, s[|s| - 1].commit)))
  {
    LastIsNewest(group);
    var s := Sort(group, TsLeq);
    var c := s[|s| - 1].commit;
    OthersSort(group, c);
    if Others(group, c) != [] { LastIsNewest(Others(group, c)); }
  }

  // ----- the summary -----

  predicate Grouped(groups: seq<Group>, records: seq<Rec>) {
    (forall i :: 0 <= i < |groups| ==> groups[i].recs == Of(records, groups[i].key) && groups[i].recs != []) &&
    (forall i, j :: 0 <= i < j < |groups| ==> groups[i].key != groups[j].key) &&
    (forall k :: 0 <= k < |records| ==> HasGroup(groups, KeyOf(records[k])))
  }

  predicate HasGroup(groups: seq<Group>, k: Key) { exists i :: 0 <= i < |groups| && groups[i].key == k }

  lemma {:induction false} AddNew(groups: seq<Group>, r: Rec)
    requires forall i :: 0 <= i < |groups| ==> groups[i].key != KeyOf(r)
    ensures AddTo(groups, r) == groups + [Group(KeyOf(r), [r])]
  {
    if groups != [] {
      AddNew(groups[1..], r);
      assert groups == [groups[0]] + groups[1..];
    }
  }

  lemma {:induction false} AddAt(groups: seq<Group>, r: Rec, i: nat)
    requires i < |groups| && groups[i].key == KeyOf(r) && forall j :: 0 <= j < i ==> groups[j].key != KeyOf(r)
    ensures AddTo(groups, r) == groups[i := Group(KeyOf(r), groups[i].recs + [r])]
  {
    if i == 0 {
      assert groups == [groups[0]] + groups[1..];
    } else {
      var tail := groups[1..];
      AddAt(tail, r, i - 1);
      var g := Group(KeyOf(r), groups[i].recs + [r]);
      assert groups[i := g] == [groups[0]] + tail[i - 1 := g];
    }
  }

  function Grown(g: Group, r: Rec): Group { if g.key == KeyOf(r) then Group(g.key, g.recs + [r]) else g }

  /** Where a group stands after a record is added. */
  lemma {:induction false} AddToGroups(groups: seq<Group>, r: Rec)
    requires forall i, j :: 0 <= i < j < |groups| ==> groups[i].key != groups[j].key
    ensures var g := AddTo(groups, r);
            |groups| <= |g| && (forall i :: 0 <= i < |groups| ==> g[i] == Grown(groups[i], r)) &&
            (if HasGroup(groups, KeyOf(r)) then |g| == |groups|
             else |g| == |groups| + 1 && g[|groups|] == Group(KeyOf(r), [r]))
  {
    hide AddTo;
    if HasGroup(groups, KeyOf(r)) {
      var i :| 0 <= i < |groups| && groups[i].key == KeyOf(r);
      AddAt(groups, r, i);
    } else {
      AddNew(groups, r);
    }
  }

  lemma {:induction false} OfEmpty(records: seq<Rec>, k: Key)
    requires forall i :: 0 <= i < |records| ==> KeyOf(records[i]) != k
    ensures Of(records, k) == []
  {
    if records != [] { OfEmpty(records[..|records| - 1], k); }
  }

  lemma {:induction false} AddKeepsGrouped(groups: seq<Group>, records: seq<Rec>, r: Rec)
    requires Grouped(groups, records)
    ensures Grouped(AddTo(groups, r), records + [r])
  {
    hide AddTo, Of;
    AddToGroups(groups, r);
    var g, all, k := AddTo(groups, r), records + [r], KeyOf(r);
    assert all[..|records|] == records;
    forall key: Key ensures Of(all, key) == if k == key then Of(records, key) + [r] else Of(records, key) {
      OfSnoc(records, r, key);
    }
    forall i | 0 <= i < |g| ensures g[i].recs == Of(all, g[i].key) && g[i].recs != [] {
      if i == |groups| {
        forall j | 0 <= j < |records| ensures KeyOf(records[j]) != k { assert HasGroup(groups, KeyOf(records[j])); }
        OfEmpty(records, k);
      } else {
        assert g[i] == Grown(groups[i], r);
      }
    }
    forall i, j | 0 <= i < j < |g| ensures g[i].key != g[j].key {
      if j == |groups| { assert groups[i].key == g[i].key; }
    }
    forall n | 0 <= n < |all| ensures HasGroup(g, KeyOf(all[n])) {
      if n < |records| {
        assert HasGroup(groups, KeyOf(records[n]));
        var i :| 0 <= i < |groups| && groups[i].key == KeyOf(records[n]);
        assert g[i].key == KeyOf(records[n]);
      } else if HasGroup(groups, k) {
        var i :| 0 <= i < |groups| && groups[i].key == k;
        assert g[i].key == k;
      } else {
        assert g[|groups|].key == k;
      }
    }
  }

  method GroupRecords(records: seq<Rec>) returns (groups: seq<Group>)
    ensures Grouped(groups, records)
  {
    hide AddTo, Grouped;
    groups := [];
    assert Grouped([], []) by { NothingGrouped(); }
    assert records[..0] == [];
    for n := 0 to |records|
      invariant Grouped(groups, records[..n])
    {
      AddKeepsGrouped(groups, records[..n], records[n]);
      assert records[..n + 1] == records[..n] + [records[n]];
      groups := AddTo(groups, records[n]);
    }
    assert records[..|records|] == records;
  }

  lemma {:induction false} NothingGrouped()
    ensures Grouped([], [])
  {
  }

  /** One row per (bench, metric) of the ledger, in order, each saying what the ledger
      says of its group. */
  ghost predicate IsReport(records: seq<Rec>, rows: seq<Summary>) {
    (forall i :: 0 <= i < |rows| ==> IsSummary(records, rows[i])) &&
    (forall i, j :: 0 <= i < j < |rows| ==> rows[i].key != rows[j].key) &&
    (forall n :: 0 <= n < |records| ==> exists i :: 0 <= i < |rows| && rows[i].key == KeyOf(records[n])) &&
    Sorted(rows, SummaryLeq)
  }

  predicate RowsFor(records: seq<Rec>, groups: seq<Group>, rows: seq<Summary>) {
    |rows| <= |groups| && forall i :: 0 <= i < |rows| ==> rows[i].key == groups[i].key && IsSummary(records, rows[i])
  }

  lemma {:induction false} SummaryOrder()
    ensures TotalPreorder(SummaryLeq)
  {
    hide NameLeq;
    forall a: Summary, b: Summary ensures SummaryLeq(a, b) || SummaryLeq(b, a) {
      NameTotal(a.key.bench, b.key.bench);
      NameTotal(a.key.metric, b.key.metric);
    }
    forall a: Summary, b: Summary, c: Summary | SummaryLeq(a, b) && SummaryLeq(b, c) ensures SummaryLeq(a, c) {
      KeyTransitive(a.key, b.key, c.key);
    }
  }

  lemma {:induction false} KeyTransitive(a: Key, b: Key, c: Key)
    requires KeyLeq(a, b) && KeyLeq(b, c)
    ensures KeyLeq(a, c)
  {
    hide NameLeq;
    NameTotal(a.bench, b.bench);
    if a.bench == b.bench == c.bench {
      NameTransitive(a.metric, b.metric, c.metric);
    } else {
      NameTotal(b.bench, b.bench);
      NameTotal(a.bench, a.bench);
      NameTransitive(a.bench, b.bench, c.bench);
      NameTotal(b.bench, c.bench);
    }
  }

  lemma {:induction false} PermuteReport(records: seq<Rec>, groups: seq<Group>, rows: seq<Summary>,
      sorted: seq<Summary>)
    requires Grouped(groups, records) && RowsFor(records, groups, rows) && |rows| == |groups|
    requires multiset(sorted) == multiset(rows) && Sorted(sorted, SummaryLeq) && DistinctKeys(sorted)
    ensures IsReport(records, sorted)
  {
    hide IsSummary, SummaryLeq, Of;
    forall i | 0 <= i < |sorted| ensures IsSummary(records, sorted[i]) {
      assert sorted[i] in multiset(sorted) && sorted[i] in multiset(rows);
    }
    forall n | 0 <= n < |records| ensures exists i :: 0 <= i < |sorted| && sorted[i].key == KeyOf(records[n]) {
      assert HasGroup(groups, KeyOf(records[n]));
      var g :| 0 <= g < |groups| && groups[g].key == KeyOf(records[n]);
      assert rows[g] in multiset(rows) && rows[g] in multiset(sorted);
      var i :| 0 <= i < |sorted| && sorted[i] == rows[g];
      assert sorted[i].key == KeyOf(records[n]);
    }
  }

  predicate DistinctKeys(rows: seq<Summary>) { forall i, j :: 0 <= i < j < |rows| ==> rows[i].key != rows[j].key }

  lemma {:induction false} InsertDistinct(s: seq<Summary>, x: Summary)
    requires DistinctKeys(s) && forall r :: r in s ==> r.key != x.key
    ensures DistinctKeys(Insert(s, x, SummaryLeq))
  {
    if s == [] || SummaryLeq(s[|s| - 1], x) {
      DistinctSnoc(s, x);
    } else {
      var init, y := s[..|s| - 1], s[|s| - 1];
      InsertDistinct(init, x);
      var t := Insert(init, x, SummaryLeq);
      forall r | r in t ensures r.key != y.key {
        InsertMember(init, x, r, SummaryLeq);
        if r in init { var i :| 0 <= i < |init| && init[i] == r; assert s[i].key != s[|s| - 1].key; }
      }
      DistinctSnoc(t, y);
    }
  }

  lemma {:induction false} SortDistinct(s: seq<Summary>)
    requires DistinctKeys(s)
    ensures DistinctKeys(Sort(s, SummaryLeq))
  {
    if s != [] {
      var init, x := s[..|s| - 1], s[|s| - 1];
      SortDistinct(init);
      var t := Sort(init, SummaryLeq);
      SortMultiset(init, SummaryLeq);
      forall r | r in t ensures r.key != x.key {
        assert r in multiset(t) && r in multiset(init);
        var i :| 0 <= i < |init| && init[i] == r;
        assert s[i].key != s[|s| - 1].key;
      }
      InsertDistinct(t, x);
    }
  }

  lemma {:induction false} DistinctSnoc(b: seq<Summary>, x: Summary)
    requires DistinctKeys(b) && forall r :: r in b ==> r.key != x.key
    ensures DistinctKeys(b + [x])
  {
  }

  method SummarizeHistory(records: seq<Rec>) returns (rows: seq<Summary>)
    ensures IsReport(records, rows)
  {
    hide IsReport, Sort, Newest, PrevOf, SummaryLeq, Of, Others;
    var groups := GroupRecords(records);
    rows := [];
    for i := 0 to |groups|
      invariant |rows| == i && RowsFor(records, groups, rows)
    {
      var recs := Sort(groups[i].recs, TsLeq);
      SearchMeans(groups[i].recs);
      var latest, prev := LatestAndPrev(recs);
      rows := rows + [Summary(groups[i].key, latest.value, prev, Delta(latest.value, prev))];
    }
    ghost var unsorted := rows;
    rows := Sort(rows, SummaryLeq);
    SortMultiset(unsorted, SummaryLeq);
    SummaryOrder();
    SortSorted(unsorted, SummaryLeq);
    SortDistinct(unsorted);
    PermuteReport(records, groups, unsorted, rows);
  }

  // ----- what changes a row -----

  lemma {:induction false} NewestUnique(s: seq<Rec>, a: Rec, b: Rec)
    requires Newest(s, a) && Newest(s, b)
    ensures a == b
  {
  }

  lemma {:induction false} OfSnoc(records: seq<Rec>, r: Rec, k: Key)
    ensures Of(records + [r], k) == if KeyOf(r) == k then Of(records, k) + [r] else Of(records, k)
  {
    assert (records + [r])[..|records|] == records;
  }

  /** A row is settled by the ledger and its key. */
  lemma {:induction false} SummaryUnique(records: seq<Rec>, a: Summary, b: Summary)
    requires IsSummary(records, a) && IsSummary(records, b) && a.key == b.key
    ensures a == b
  {
    hide Newest, Of, Others, Delta;
    var g := Of(records, a.key);
    NewestUnique(g, a.latest, b.latest);
    var o := Others(g, a.latest.commit);
    if a.prev.Some? && b.prev.Some? { NewestUnique(o, a.prev.value, b.prev.value); }
    if a.prev.Some? { NewestSome(o, a.prev.value); }
    if b.prev.Some? { NewestSome(o, b.prev.value); }
  }

  lemma {:induction false} NewestSome(s: seq<Rec>, r: Rec)
    requires Newest(s, r)
    ensures s != []
  {
  }

  /** Records of other groups do not affect a row. */
  lemma {:induction false} OtherGroupsIrrelevant(records: seq<Rec>, r: Rec, row: Summary)
    requires KeyOf(r) != row.key
    ensures IsSummary(records + [r], row) <==> IsSummary(records, row)
  {
    hide Newest, PrevOf, Of;
    OfSnoc(records, r, row.key);
  }

  /** Re-running the latest commit replaces the latest record and keeps the previous. */
  lemma {:induction false} RerunKeepsPrevious(records: seq<Rec>, r: Rec, row: Summary)
    requires IsSummary(records, row) && KeyOf(r) == row.key
    requires r.commit == row.latest.commit && r.ts >= row.latest.ts
    ensures IsSummary(records + [r], row.(latest := r, delta := Delta(r, row.prev)))
  {
    hide Newest, Of, Others;
    var g := Of(records, row.key);
    OfSnoc(records, r, row.key);
    NewestSnoc(g, row.latest, r);
    OthersSnoc(g, r, r.commit);
  }

  /** A run of another commit, no older than the rest, makes the former latest record
      the previous one. */
  lemma {:induction false} NewCommitShifts(records: seq<Rec>, r: Rec, row: Summary)
    requires IsSummary(records, row) && KeyOf(r) == row.key && r.ts >= row.latest.ts
    requires forall x :: x in Of(records, row.key) ==> x.commit != r.commit
    ensures IsSummary(records + [r], Summary(row.key, r, Some(row.latest), Delta(r, Some(row.latest))))
  {
    hide Newest, Of, Others;
    var g := Of(records, row.key);
    OfSnoc(records, r, row.key);
    NewestSnoc(g, row.latest, r);
    OthersSnoc(g, r, r.commit);
    OthersAll(g, r.commit);
  }

  lemma {:induction false} OthersAll(s: seq<Rec>, c: string)
    requires forall x :: x in s ==> x.commit != c
    ensures Others(s, c) == s
  {
    hide Others;
    if s == [] {
      Bases(Rec("", "", c, 0.0, 0.0, ""), c);
    } else {
      var init, x := s[..|s| - 1], s[|s| - 1];
      assert s == init + [x] && x in s;
      forall y | y in init ensures y.commit != c { assert y in s; }
      OthersAll(init, c);
      OthersSnoc(init, x, c);
    }
  }

  // ----- the report in terms of its records -----

  lemma {:induction false} OfMember(records: seq<Rec>, k: Key, r: Rec)
    ensures r in Of(records, k) <==> r in records && r.bench == k.bench && r.metric == k.metric
  {
    if records != [] {
      var n := |records| - 1;
      OfMember(records[..n], k, r);
      assert records == records[..n] + [records[n]];
    }
  }

  /** A row shows records of the ledger, of one bench and metric; the previous one is of
      another commit. */
  lemma {:induction false} RowRecords(records: seq<Rec>, row: Summary)
    requires IsSummary(records, row)
    ensures row.latest in records && row.latest.bench == row.key.bench && row.latest.metric == row.key.metric
    ensures row.prev.Some? ==>
              var p := row.prev.value;
              && p in records && p.bench == row.key.bench && p.metric == row.key.metric
              && p.commit != row.latest.commit
  {
    hide Of, Others, IsNewestAt;
    var group := Of(records, row.key);
    OfMember(records, row.key, row.latest);
    if row.prev.Some? {
      OthersMember(group, row.latest.commit, row.prev.value);
      OfMember(records, row.key, row.prev.value);
    }
  }

  /** Rows are sorted by bench and then by metric. */
  lemma {:induction false} ReportOrder(records: seq<Rec>, rows: seq<Summary>, i: nat, j: nat)
    requires IsReport(records, rows) && i < j < |rows|
    ensures var a, b := rows[i].latest, rows[j].latest;
            && (a.bench != b.bench || a.metric != b.metric)
            && (a.bench != b.bench ==> NameLeq(a.bench, b.bench))
            && (a.bench == b.bench ==> NameLeq(a.metric, b.metric))
  {
    hide IsSummary, NameLeq;
    RowRecords(records, rows[i]);
    RowRecords(records, rows[j]);
    assert SummaryLeq(rows[i], rows[j]);
  }
}
