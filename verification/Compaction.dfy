/** Compaction does not change what a reader sees.

    For one clustering row, a set of SSTables holds versions of the row, the range
    tombstones of its partition and its partition deletions (`View`).  `Merged` is
    what `merge_partition_rows` makes of them; a reader merges everything there is
    (without purging) and shows the live data cells (`Read`, the rule of
    `cqlite-flight/src/producer.rs`).  Replacing some SSTables by their compaction,
    with purging and expiry, leaves `Read` unchanged. */
module Compaction {
  import opened Prelude
  import opened Merge
  import RT = RangeTombstones

  datatype View = View(entries: seq<Entry>, ranges: seq<RT.Range>, deletions: seq<RowDeletion>)

  /** Where the row is, and which columns are key columns of the table; a static row
      has no clustering key, and no range covers it. */
  datatype Row = Row(schema: RT.Schema, ck: seq<RT.Component>, keyColumns: set<string>, clustered: bool)

  predicate Fits(v: View, row: Row) { RT.AllFit(v.ranges, |row.ck|) }

  predicate Covered(row: Row, r: RT.Range)
    requires RT.Fits(r, |row.ck|)
  {
    row.clustered && RT.Covers(row.schema, r, row.ck)
  }

  function FloorOf(row: Row, ranges: seq<RT.Range>): Option<int>
    requires RT.AllFit(ranges, |row.ck|)
  {
    if row.clustered then RT.FloorAt(row.schema, ranges, row.ck) else None
  }

  function Union(a: View, b: View): View {
    View(a.entries + b.entries, a.ranges + b.ranges, a.deletions + b.deletions)
  }

  // ----- shadowing a reconciled row by a range or partition deletion -----

  function RowTimestamp(cells: seq<Cell>): int {
    if cells == [] then 0
    else if |cells| == 1 then cells[0].ts
    else
      var t := RowTimestamp(cells[..|cells| - 1]);
      if cells[|cells| - 1].ts > t then cells[|cells| - 1].ts else t
  }

  function NewerData(cells: seq<Cell>, keyColumns: set<string>, floor: int): seq<Cell> {
    if cells == [] then []
    else
      var c := cells[|cells| - 1];
      NewerData(cells[..|cells| - 1], keyColumns, floor) +
      if c.key.column in keyColumns || c.ts > floor then [c] else []
  }

  function NewerMarkers(ds: seq<ComplexDeletion>, floor: int): seq<ComplexDeletion> {
    if ds == [] then []
    else
      var d := ds[|ds| - 1];
      NewerMarkers(ds[..|ds| - 1], floor) + if d.mfda > floor then [d] else []
  }

  /** `apply_range_shadowing` and `apply_partition_shadowing`, for a row without a
      stored liveness marker. */
  function Shadow(e: Entry, keyColumns: set<string>, floor: Option<int>): Option<Entry> {
    if floor.None? then Some(e)
    else
      var complex := NewerMarkers(e.complex, floor.value);
      match e.data
      case RowTombstone(del) =>
        if del.ts > floor.value then Some(Entry(RowTombstone(del), complex, None))
        else if complex != [] then Some(Entry(LiveRow([]), complex, None))
        else None
      case LiveRow(cells) =>
        var kept := NewerData(cells, keyColumns, floor.value);
        var rowDel := if e.rowDeletion.Some? && e.rowDeletion.value.ts > floor.value then e.rowDeletion else None;
        if !HasData(kept, keyColumns) && RowTimestamp(cells) <= floor.value then
          if rowDel.Some? then Some(Entry(RowTombstone(rowDel.value), [], None))
          else if complex != [] then Some(Entry(LiveRow([]), complex, None))
          else None
        else Some(Entry(LiveRow(kept), complex, rowDel))
  }

  function ShadowMaybe(e: Option<Entry>, keyColumns: set<string>, floor: Option<int>): Option<Entry> {
    if e.None? then None else Shadow(e.value, keyColumns, floor)
  }

  // ----- `merge_partition_rows`, seen from one row -----

  function PartitionFloor(v: View): Option<int> {
    var d := MaxRowDeletion(v.deletions);
    if d.None? then None else Some(d.value.ts)
  }

  function MergedRow(v: View, row: Row, cfg: Config): Option<Entry>
    requires Fits(v, row)
  {
    RT.CoalescedSameFloor(row.schema, v.ranges, row.ck);
    var reconciled := Reconcile(v.entries, row.keyColumns, cfg);
    var floor := FloorOf(row, RT.Coalesced(row.schema, v.ranges));
    ShadowMaybe(ShadowMaybe(reconciled, row.keyColumns, floor), row.keyColumns, PartitionFloor(v))
  }

  predicate RangeStays(r: RT.Range, partition: Option<int>, cfg: Config) {
    (partition.Some? ==> r.mfda > partition.value) &&
    !(cfg.gcBefore.Some? && Widen(r.ldt) < cfg.gcBefore.value && r.mfda < cfg.maxPurgeable)
  }

  function StayingRanges(rs: seq<RT.Range>, partition: Option<int>, cfg: Config): (out: seq<RT.Range>)
    ensures forall r :: r in out <==> r in rs && RangeStays(r, partition, cfg)
  {
    if rs == [] then []
    else
      var r := rs[|rs| - 1];
      assert rs == rs[..|rs| - 1] + [r];
      StayingRanges(rs[..|rs| - 1], partition, cfg) + if RangeStays(r, partition, cfg) then [r] else []
  }

  predicate PartitionPurgeable(d: RowDeletion, cfg: Config) {
    cfg.gcBefore.Some? && Widen(d.ldt) < cfg.gcBefore.value && d.ts < cfg.maxPurgeable
  }

  /** What the compaction of `v` holds for this row. */
  function Merged(v: View, row: Row, cfg: Config): View
    requires Fits(v, row)
  {
    var e := MergedRow(v, row, cfg);
    var d := MaxRowDeletion(v.deletions);
    View(if e.Some? then [e.value] else [],
         StayingRanges(RT.Coalesced(row.schema, v.ranges), PartitionFloor(v), cfg),
         if d.Some? && !PartitionPurgeable(d.value, cfg) then [d.value] else [])
  }

  // ----- reading -----

  function ReadConfig(dropped: map<string, int>, now: int): Config { Config(dropped, None, 0, Some(now)) }

  function LiveCell(cells: seq<Cell>, k: CellKey): Option<Cell> {
    if cells == [] then None
    else
      var c := cells[|cells| - 1];
      if c.key == k && !IsTombstone(c) then Some(c) else LiveCell(cells[..|cells| - 1], k)
  }

  /** The live cell a reader is shown for a data column. */
  function Read(v: View, row: Row, dropped: map<string, int>, now: int, k: CellKey): Option<Cell>
    requires Fits(v, row)
  {
    var e := MergedRow(v, row, ReadConfig(dropped, now));
    if e.Some? && e.value.data.LiveRow? then LiveCell(e.value.data.cells, k) else None
  }

  // ----- what a view says about a cell, independent of order -----

  /** Some deletion held by the view covers the cell. */
  ghost predicate Deleted(v: View, row: Row, c: Cell)
    requires Fits(v, row)
  {
    || (exists d :: d in RowDeletionsOf(v.entries) && c.ts <= d.ts)
    || (c.key.path.Some? && exists d :: d in ComplexOf(v.entries) && d.column == c.key.column && c.ts <= d.mfda)
    || (exists i :: 0 <= i < |v.ranges| && Covered(row, v.ranges[i]) && c.ts <= v.ranges[i].mfda)
    || (exists d :: d in v.deletions && c.ts <= d.ts)
  }

  predicate RankLe(a: Cell, b: Cell) {
    a.ts < b.ts || (a.ts == b.ts && (IsTombstone(a) ==> IsTombstone(b)))
  }

  lemma {:induction false} WinnerTop(cells: seq<Cell>, k: CellKey)
    ensures var w := Winner(cells, k);
            && (w.Some? ==> w.value in cells && w.value.key == k)
            && (w.Some? ==> forall c :: c in cells && c.key == k ==> RankLe(c, w.value))
            && (w.None? ==> forall c :: c in cells ==> c.key != k)
  {
    if cells != [] {
      WinnerTop(cells[..|cells| - 1], k);
      assert cells == cells[..|cells| - 1] + [cells[|cells| - 1]];
    }
  }

  lemma {:induction false} MaxRowTop(dels: seq<RowDeletion>)
    ensures var m := MaxRowDeletion(dels);
            && (m.Some? ==> m.value in dels)
            && (m.Some? ==> forall d :: d in dels ==> d.ts <= m.value.ts)
            && (m.None? ==> dels == [])
  {
    if dels != [] {
      MaxRowTop(dels[..|dels| - 1]);
      assert dels == dels[..|dels| - 1] + [dels[|dels| - 1]];
    }
  }

  lemma {:induction false} ActiveTop(cds: seq<ComplexDeletion>, col: string)
    ensures var m := ActiveFor(cds, col);
            && (m.Some? ==> m.value in cds && m.value.column == col)
            && (m.Some? ==> forall d :: d in cds && d.column == col ==> d.mfda <= m.value.mfda)
            && (m.None? ==> forall d :: d in cds ==> d.column != col)
  {
    if cds != [] {
      ActiveTop(cds[..|cds| - 1], col);
      assert cds == cds[..|cds| - 1] + [cds[|cds| - 1]];
    }
  }

  lemma {:induction false} DistinctSame(cds: seq<ComplexDeletion>, d: ComplexDeletion)
    ensures d in Distinct(cds) <==> d in cds
  {
    if cds != [] {
      DistinctSame(cds[..|cds| - 1], d);
      assert cds == cds[..|cds| - 1] + [cds[|cds| - 1]];
    }
  }

  // ----- the reconciled row, cell by cell -----

  /** The group's own deletions cover the cell. */
  ghost predicate GroupDeleted(entries: seq<Entry>, c: Cell) {
    || (exists d :: d in RowDeletionsOf(entries) && c.ts <= d.ts)
    || (c.key.path.Some? && exists d :: d in ComplexOf(entries) && d.column == c.key.column && c.ts <= d.mfda)
  }

  lemma {:induction false} RowShadowsIs(entries: seq<Entry>, c: Cell)
    ensures RowShadows(MaxRowDeletion(RowDeletionsOf(entries)), c)
       <==> exists d :: d in RowDeletionsOf(entries) && c.ts <= d.ts
  {
    MaxRowTop(RowDeletionsOf(entries));
  }

  lemma {:induction false} ComplexShadowsIs(entries: seq<Entry>, c: Cell)
    ensures ComplexShadows(ActiveMap(Distinct(ComplexOf(entries))), c)
       <==> c.key.path.Some? && exists d :: d in ComplexOf(entries) && d.column == c.key.column && c.ts <= d.mfda
  {
    var cds, col := Distinct(ComplexOf(entries)), c.key.column;
    ColumnActive(cds, col);
    ActiveTop(cds, col);
    forall d ensures d in cds <==> d in ComplexOf(entries) { DistinctSame(ComplexOf(entries), d); }
  }

  lemma {:induction false} UnshadowedIs(entries: seq<Entry>, c: Cell)
    ensures c in Unshadowed(entries) <==> Winner(CellsOf(entries), c.key) == Some(c) && !GroupDeleted(entries, c)
  {
    hide FirstSeen, Winner, CellsOf, ComplexOf, RowDeletionsOf, MaxRowDeletion, ActiveMap, Retain, Distinct, WinnerMap;
    var cells := CellsOf(entries);
    var w := WinnerMap(cells);
    var active := ActiveMap(Distinct(ComplexOf(entries)));
    var rd := MaxRowDeletion(RowDeletionsOf(entries));
    var keys := RetainKeys(FirstSeen(cells), w, active);
    RetainMember(Collect(keys, w), NotRowShadowed(rd), c);
    RowShadowsIs(entries, c);
    ComplexShadowsIs(entries, c);
    FirstSeenWinner(cells, c.key);
    forall k
      ensures (k in w <==> Winner(cells, k).Some?) && (k in w ==> w[k] == Winner(cells, k).value && w[k].key == k)
    {
      WinnerMapIs(cells, k);
    }
    if c in Collect(keys, w) {
      var i :| 0 <= i < |keys| && w[keys[i]] == c;
      assert keys[i] in keys;
    }
    if Winner(cells, c.key) == Some(c) && c.key in keys {
      var i :| 0 <= i < |keys| && keys[i] == c.key;
      assert Collect(keys, w)[i] == c;
    }
  }

  lemma {:induction false} WinnerMapIs(cells: seq<Cell>, k: CellKey)
    ensures k in WinnerMap(cells) <==> Winner(cells, k).Some?
    ensures k in WinnerMap(cells) ==> WinnerMap(cells)[k] == Winner(cells, k).value && WinnerMap(cells)[k].key == k
  {
    FirstSeenWinner(cells, k);
  }

  /** The cell is what reconciliation leaves for its key. */
  ghost predicate Survives(entries: seq<Entry>, cfg: Config, c: Cell) {
    && Winner(CellsOf(entries), c.key).Some?
    && var w := Winner(CellsOf(entries), c.key).value;
       && !GroupDeleted(entries, w) && !DropShadows(cfg.dropped, w)
       && c == Expire(w, cfg.now) && !CellPurgeable(c, cfg)
  }

  lemma {:induction false} SurvivorsAre(entries: seq<Entry>, cfg: Config, c: Cell)
    ensures c in Survivors(entries, cfg) <==> Survives(entries, cfg, c)
  {
    hide Unshadowed, Winner, CellsOf, GroupDeleted;
    var kept := Retain(Unshadowed(entries), NotDropped(cfg.dropped));
    var aged := ExpireAll(kept, cfg.now);
    RetainMember(aged, NotPurged(cfg), c);
    if c in aged {
      var i :| 0 <= i < |aged| && aged[i] == c;
      assert kept[i] in kept;
      RetainMember(Unshadowed(entries), NotDropped(cfg.dropped), kept[i]);
      UnshadowedIs(entries, kept[i]);
    }
    if Survives(entries, cfg, c) {
      var w := Winner(CellsOf(entries), c.key).value;
      WinnerTop(CellsOf(entries), c.key);
      UnshadowedIs(entries, w);
      RetainMember(Unshadowed(entries), NotDropped(cfg.dropped), w);
      var i :| 0 <= i < |kept| && kept[i] == w;
      assert aged[i] == c;
    }
  }

  // ----- what an entry holds -----

  ghost predicate HasCell(e: Option<Entry>, c: Cell) {
    e.Some? && e.value.data.LiveRow? && c in e.value.data.cells
  }

  ghost predicate HasRowDeletion(e: Option<Entry>, d: RowDeletion) {
    e.Some? && d in RowDeletionsIn(e.value)
  }

  ghost predicate HasMarker(e: Option<Entry>, d: ComplexDeletion) {
    e.Some? && d in e.value.complex
  }

  /** A coexisting row deletion is older than every cell beside it. */
  ghost predicate WellBuilt(e: Option<Entry>) {
    e.Some? ==>
      match e.value.data
      case RowTombstone(_) => e.value.rowDeletion.None?
      case LiveRow(cells) => e.value.rowDeletion.Some? ==>
          cells != [] && forall c :: c in cells ==> c.ts > e.value.rowDeletion.value.ts
  }

  lemma {:induction false} ReconcileHolds(entries: seq<Entry>, keyColumns: set<string>, cfg: Config)
    ensures var r := Reconcile(entries, keyColumns, cfg);
            && WellBuilt(r)
            && (forall c: Cell :: c.key.column !in keyColumns ==> (HasCell(r, c) <==> c in Survivors(entries, cfg)))
            && (forall d :: HasRowDeletion(r, d) <==> KeepRow(MaxRowDeletion(RowDeletionsOf(entries)), cfg) == Some(d))
            && (forall d :: HasMarker(r, d) <==> d in RetainMarkers(ActiveList(Distinct(ComplexOf(entries))), cfg))
  {
    hide Survivors, MaxRowDeletion, RetainMarkers, ActiveList, Unshadowed;
    if entries == [] {
      NoEntries(cfg);
    } else {
      var surv := Survivors(entries, cfg);
      var rd := KeepRow(MaxRowDeletion(RowDeletionsOf(entries)), cfg);
      forall c | c in surv && rd.Some? ensures c.ts > rd.value.ts {
        SurvivorsAre(entries, cfg, c);
        MaxRowTop(RowDeletionsOf(entries));
        assert rd.value in RowDeletionsOf(entries);
      }
      if surv != [] { assert surv[0] in surv; }
    }
  }

  lemma {:induction false} NoEntries(cfg: Config)
    ensures Survivors([], cfg) == [] && MaxRowDeletion(RowDeletionsOf([])) == None
    ensures RetainMarkers(ActiveList(Distinct(ComplexOf([]))), cfg) == []
  {
    forall c ensures c !in Survivors([], cfg) { SurvivorsAre([], cfg, c); }
    assert ActiveList(Distinct(ComplexOf([]))) == [];
  }

  lemma {:induction false} NewerDataIs(cells: seq<Cell>, keyColumns: set<string>, floor: int, c: Cell)
    ensures c in NewerData(cells, keyColumns, floor) <==> c in cells && (c.key.column in keyColumns || c.ts > floor)
  {
    if cells != [] {
      NewerDataIs(cells[..|cells| - 1], keyColumns, floor, c);
      assert cells == cells[..|cells| - 1] + [cells[|cells| - 1]];
    }
  }

  lemma {:induction false} NewerMarkersIs(ds: seq<ComplexDeletion>, floor: int, d: ComplexDeletion)
    ensures d in NewerMarkers(ds, floor) <==> d in ds && d.mfda > floor
  {
    if ds != [] {
      NewerMarkersIs(ds[..|ds| - 1], floor, d);
      assert ds == ds[..|ds| - 1] + [ds[|ds| - 1]];
    }
  }

  lemma {:induction false} RowTimestampAbove(cells: seq<Cell>, t: int)
    requires cells != [] && forall c :: c in cells ==> c.ts > t
    ensures RowTimestamp(cells) > t
  {
    if |cells| > 1 {
      forall c | c in cells[..|cells| - 1] ensures c.ts > t { }
      RowTimestampAbove(cells[..|cells| - 1], t);
    }
    assert cells[0] in cells;
  }

  lemma {:induction false} ShadowHolds(e: Entry, keyColumns: set<string>, floor: int)
    requires WellBuilt(Some(e))
    ensures var r := Shadow(e, keyColumns, Some(floor));
            && WellBuilt(r)
            && (forall c: Cell :: c.key.column !in keyColumns ==>
                  (HasCell(r, c) <==> HasCell(Some(e), c) && c.ts > floor))
            && (forall d :: HasRowDeletion(r, d) <==> HasRowDeletion(Some(e), d) && d.ts > floor)
            && (forall d :: HasMarker(r, d) <==> HasMarker(Some(e), d) && d.mfda > floor)
  {
    hide NewerData, NewerMarkers, RowTimestamp;
    forall d ensures d in NewerMarkers(e.complex, floor) <==> d in e.complex && d.mfda > floor {
      NewerMarkersIs(e.complex, floor, d);
    }
    if e.data.LiveRow? {
      var cells := e.data.cells;
      forall c ensures c in NewerData(cells, keyColumns, floor)
                  <==> c in cells && (c.key.column in keyColumns || c.ts > floor) {
        NewerDataIs(cells, keyColumns, floor, c);
      }
      if e.rowDeletion.Some? && e.rowDeletion.value.ts > floor {
        RowTimestampAbove(cells, floor);
        assert cells[0] in NewerData(cells, keyColumns, floor);
      }
    }
  }

  lemma {:induction false} ShadowMaybeHolds(e: Option<Entry>, keyColumns: set<string>, floor: Option<int>)
    requires WellBuilt(e)
    ensures var r := ShadowMaybe(e, keyColumns, floor);
            && WellBuilt(r)
            && (forall c: Cell :: c.key.column !in keyColumns ==>
                  (HasCell(r, c) <==> HasCell(e, c) && (floor.Some? ==> c.ts > floor.value)))
            && (forall d :: HasRowDeletion(r, d) <==> HasRowDeletion(e, d) && (floor.Some? ==> d.ts > floor.value))
            && (forall d :: HasMarker(r, d) <==> HasMarker(e, d) && (floor.Some? ==> d.mfda > floor.value))
  {
    hide RowDeletionsIn;
    if e.Some? && floor.Some? {
      hide Shadow;
      ShadowHolds(e.value, keyColumns, floor.value);
    }
  }

  // ----- the merged row, cell by cell -----

  function RangeFloor(v: View, row: Row): Option<int>
    requires Fits(v, row)
  {
    FloorOf(row, v.ranges)
  }

  predicate Above(t: int, floor: Option<int>) { floor.Some? ==> t > floor.value }

  lemma {:induction false} MergedRowHolds(v: View, row: Row, cfg: Config)
    requires Fits(v, row)
    ensures var r := MergedRow(v, row, cfg);
            var f, p := RangeFloor(v, row), PartitionFloor(v);
            && (forall c: Cell :: c.key.column !in row.keyColumns ==>
                  (HasCell(r, c) <==> c in Survivors(v.entries, cfg) && Above(c.ts, f) && Above(c.ts, p)))
            && (forall d :: HasRowDeletion(r, d) <==>
                  KeepRow(MaxRowDeletion(RowDeletionsOf(v.entries)), cfg) == Some(d) &&
                  Above(d.ts, f) && Above(d.ts, p))
            && (forall d :: HasMarker(r, d) <==>
                  d in RetainMarkers(ActiveList(Distinct(ComplexOf(v.entries))), cfg) &&
                  Above(d.mfda, f) && Above(d.mfda, p))
  {
    hide Reconcile, ShadowMaybe, Survivors, MaxRowDeletion, RetainMarkers, ActiveList;
    hide HasCell, HasRowDeletion, HasMarker;
    RT.CoalescedSameFloor(row.schema, v.ranges, row.ck);
    ReconcileHolds(v.entries, row.keyColumns, cfg);
    var e := Reconcile(v.entries, row.keyColumns, cfg);
    ShadowMaybeHolds(e, row.keyColumns, RangeFloor(v, row));
    ShadowMaybeHolds(ShadowMaybe(e, row.keyColumns, RangeFloor(v, row)), row.keyColumns, PartitionFloor(v));
  }

  lemma {:induction false} DeletedIs(v: View, row: Row, c: Cell)
    requires Fits(v, row)
    ensures Deleted(v, row, c) <==>
            GroupDeleted(v.entries, c) || !Above(c.ts, RangeFloor(v, row)) || !Above(c.ts, PartitionFloor(v))
  {
    MaxRowTop(v.deletions);
    RT.FloorIsFloor(row.schema, v.ranges, row.ck);
    var f := RangeFloor(v, row);
    if f.Some? && c.ts <= f.value {
      var i :| 0 <= i < |v.ranges| && Covered(row, v.ranges[i]) && v.ranges[i].mfda == f.value;
      assert c.ts <= v.ranges[i].mfda;
    }
  }

  /** What the merge leaves for a data key, in terms of the winner and the deletions. */
  ghost predicate Leaves(v: View, row: Row, cfg: Config, c: Cell)
    requires Fits(v, row)
  {
    && Winner(CellsOf(v.entries), c.key).Some?
    && var w := Winner(CellsOf(v.entries), c.key).value;
       && !Deleted(v, row, w) && !DropShadows(cfg.dropped, w)
       && c == Expire(w, cfg.now) && !CellPurgeable(c, cfg)
  }

  lemma {:induction false} MergedCell(v: View, row: Row, cfg: Config, c: Cell)
    requires Fits(v, row) && c.key.column !in row.keyColumns
    ensures HasCell(MergedRow(v, row, cfg), c) <==> Leaves(v, row, cfg, c)
  {
    hide MergedRow, Survivors, Winner, CellsOf, GroupDeleted, Deleted, RangeFloor, PartitionFloor;
    MergedRowHolds(v, row, cfg);
    SurvivorsAre(v.entries, cfg, c);
    if Winner(CellsOf(v.entries), c.key).Some? {
      DeletedIs(v, row, Winner(CellsOf(v.entries), c.key).value);
    }
  }

  // ----- reading, by the winner and the deletions -----

  /** The cell a reader should see: the winner, if nothing hides it. */
  ghost function Shown(v: View, row: Row, dropped: map<string, int>, now: int, k: CellKey): Option<Cell>
    requires Fits(v, row)
  {
    var w := Winner(CellsOf(v.entries), k);
    if w.Some? && !IsTombstone(w.value) && !Expired(w.value, Some(now))
       && !Deleted(v, row, w.value) && !DropShadows(dropped, w.value)
    then w else None
  }

  lemma {:induction false} LiveCellIs(cells: seq<Cell>, k: CellKey)
    ensures var r := LiveCell(cells, k);
            && (r.Some? ==> r.value in cells && r.value.key == k && !IsTombstone(r.value))
            && (r.None? ==> forall c :: c in cells && c.key == k ==> IsTombstone(c))
  {
    if cells != [] {
      LiveCellIs(cells[..|cells| - 1], k);
      assert cells == cells[..|cells| - 1] + [cells[|cells| - 1]];
    }
  }

  lemma {:induction false} ReadIsShown(v: View, row: Row, dropped: map<string, int>, now: int, k: CellKey)
    requires Fits(v, row) && k.column !in row.keyColumns
    ensures Read(v, row, dropped, now, k) == Shown(v, row, dropped, now, k)
  {
    hide MergedRow, Winner, CellsOf, Deleted, LiveCell;
    var cfg := ReadConfig(dropped, now);
    var e := MergedRow(v, row, cfg);
    var w := Winner(CellsOf(v.entries), k);
    WinnerTop(CellsOf(v.entries), k);
    if e.Some? && e.value.data.LiveRow? {
      LiveCellIs(e.value.data.cells, k);
      var r := LiveCell(e.value.data.cells, k);
      if r.Some? { MergedCell(v, row, cfg, r.value); }
    }
    if w.Some? { MergedCell(v, row, cfg, Expire(w.value, cfg.now)); }
  }

  // ----- the deletions a compaction keeps -----

  lemma {:induction false} MergedFits(v: View, row: Row, cfg: Config)
    requires Fits(v, row)
    ensures Fits(Merged(v, row, cfg), row)
  {
    hide MergedRow;
    RT.CoalescedSameFloor(row.schema, v.ranges, row.ck);
    var out := Merged(v, row, cfg).ranges;
    forall i | 0 <= i < |out| ensures RT.Fits(out[i], |row.ck|) { assert out[i] in out; }
  }

  lemma {:induction false} OneEntry(e: Entry)
    ensures RowDeletionsOf([e]) == RowDeletionsIn(e) && ComplexOf([e]) == e.complex
    ensures CellsOf([e]) == if e.data.LiveRow? then e.data.cells else []
    ensures RowDeletionsOf([]) == [] && ComplexOf([]) == [] && CellsOf([]) == []
  {
    assert [e][..0] == [];
  }

  lemma {:induction false} MergedEntries(v: View, row: Row, cfg: Config)
    requires Fits(v, row)
    ensures var r, m := MergedRow(v, row, cfg), Merged(v, row, cfg).entries;
            && (forall c :: c in CellsOf(m) <==> HasCell(r, c))
            && (forall d :: d in RowDeletionsOf(m) <==> HasRowDeletion(r, d))
            && (forall d :: d in ComplexOf(m) <==> HasMarker(r, d))
  {
    hide MergedRow, RowDeletionsIn, CellsOf, RowDeletionsOf, ComplexOf;
    var e := MergedRow(v, row, cfg);
    OneEntry(if e.Some? then e.value else Entry(LiveRow([]), [], None));
  }

  lemma {:induction false} ActiveListIs(cds: seq<ComplexDeletion>, d: ComplexDeletion)
    ensures d in ActiveList(cds) <==> ActiveFor(cds, d.column) == Some(d)
  {
    ColumnsActive(cds);
    ColumnActive(cds, d.column);
    if d in ActiveList(cds) {
      var i :| 0 <= i < |ActiveList(cds)| && ActiveList(cds)[i] == d;
      ColumnActive(cds, ColumnsSeen(cds)[i]);
    }
    if ActiveFor(cds, d.column) == Some(d) {
      var i :| 0 <= i < |ColumnsSeen(cds)| && ColumnsSeen(cds)[i] == d.column;
      assert ActiveList(cds)[i] == d;
    }
  }

  /** No new deletion appears. */
  lemma {:induction false} MergedDeletesNoMore(v: View, row: Row, cfg: Config, c: Cell)
    requires Fits(v, row) && Fits(Merged(v, row, cfg), row) && Deleted(Merged(v, row, cfg), row, c)
    ensures Deleted(v, row, c)
  {
    hide MergedRow, RowDeletionsOf, ComplexOf, MaxRowDeletion, RetainMarkers, ActiveList, Distinct;
    var m := Merged(v, row, cfg);
    MergedEntries(v, row, cfg);
    MergedRowHolds(v, row, cfg);
    MaxRowTop(RowDeletionsOf(v.entries));
    MaxRowTop(v.deletions);
    if d :| d in ComplexOf(m.entries) && d.column == c.key.column && c.ts <= d.mfda {
      RetainMarkersMember(ActiveList(Distinct(ComplexOf(v.entries))), cfg, d);
      ActiveListIs(Distinct(ComplexOf(v.entries)), d);
      ActiveTop(Distinct(ComplexOf(v.entries)), d.column);
      DistinctSame(ComplexOf(v.entries), d);
    }
    if i :| 0 <= i < |m.ranges| && Covered(row, m.ranges[i]) && c.ts <= m.ranges[i].mfda {
      assert m.ranges[i] in m.ranges;
      CoalescedBelow(v, row, m.ranges[i]);
      DeletedIs(v, row, c);
    }
  }

  lemma {:induction false} CoalescedBelow(v: View, row: Row, r: RT.Range)
    requires Fits(v, row) && r in RT.Coalesced(row.schema, v.ranges)
    requires RT.Fits(r, |row.ck|) && Covered(row, r)
    ensures RangeFloor(v, row).Some? && r.mfda <= RangeFloor(v, row).value
  {
    hide RT.Coalesced, RT.FloorAt;
    var out := RT.Coalesced(row.schema, v.ranges);
    RT.CoalescedSameFloor(row.schema, v.ranges, row.ck);
    RT.FloorIsFloor(row.schema, out, row.ck);
    var i :| 0 <= i < |out| && out[i] == r;
  }

  /** The deletion is still there, or it was purged and is older than the bound. */
  ghost predicate Accounted(v: View, row: Row, cfg: Config, c: Cell)
    requires Fits(v, row) && Fits(Merged(v, row, cfg), row)
  {
    Deleted(Merged(v, row, cfg), row, c) || (cfg.gcBefore.Some? && c.ts < cfg.maxPurgeable)
  }

  lemma {:induction false} PartitionAccounted(v: View, row: Row, cfg: Config, c: Cell)
    requires Fits(v, row) && Fits(Merged(v, row, cfg), row) && !Above(c.ts, PartitionFloor(v))
    ensures Accounted(v, row, cfg, c)
  {
    hide MergedRow, MaxRowDeletion;
    var d := MaxRowDeletion(v.deletions).value;
    if !PartitionPurgeable(d, cfg) {
      assert d in Merged(v, row, cfg).deletions;
    }
  }

  lemma {:induction false} RangeAccounted(v: View, row: Row, cfg: Config, c: Cell)
    requires Fits(v, row) && Fits(Merged(v, row, cfg), row) && !Above(c.ts, RangeFloor(v, row))
    ensures Accounted(v, row, cfg, c)
  {
    hide MergedRow, MaxRowDeletion, RT.Coalesced, RT.FloorAt;
    var out, m := RT.Coalesced(row.schema, v.ranges), Merged(v, row, cfg);
    RT.CoalescedSameFloor(row.schema, v.ranges, row.ck);
    RT.FloorIsFloor(row.schema, out, row.ck);
    var i :| 0 <= i < |out| && Covered(row, out[i]) && out[i].mfda == RangeFloor(v, row).value;
    if RangeStays(out[i], PartitionFloor(v), cfg) {
      assert out[i] in out;
      var j :| 0 <= j < |m.ranges| && m.ranges[j] == out[i];
      assert Covered(row, m.ranges[j]) && c.ts <= m.ranges[j].mfda;
    } else if !Above(out[i].mfda, PartitionFloor(v)) {
      PartitionAccounted(v, row, cfg, c);
    }
  }

  lemma {:induction false} FloorsAccounted(v: View, row: Row, cfg: Config, c: Cell, t: int)
    requires Fits(v, row) && Fits(Merged(v, row, cfg), row) && c.ts <= t
    requires !(Above(t, RangeFloor(v, row)) && Above(t, PartitionFloor(v)))
    ensures Accounted(v, row, cfg, c)
  {
    hide RangeFloor, PartitionFloor, Accounted;
    if !Above(t, RangeFloor(v, row)) { RangeAccounted(v, row, cfg, c); } else { PartitionAccounted(v, row, cfg, c); }
  }

  lemma {:induction false} GroupAccounted(v: View, row: Row, cfg: Config, c: Cell)
    requires Fits(v, row) && Fits(Merged(v, row, cfg), row) && GroupDeleted(v.entries, c)
    ensures Accounted(v, row, cfg, c)
  {
    hide MergedRow, RowDeletionsOf, ComplexOf, MaxRowDeletion, RetainMarkers, ActiveList, Distinct;
    hide RangeFloor, PartitionFloor;
    var m := Merged(v, row, cfg);
    MergedEntries(v, row, cfg);
    MergedRowHolds(v, row, cfg);
    MaxRowTop(RowDeletionsOf(v.entries));
    if d :| d in RowDeletionsOf(v.entries) && c.ts <= d.ts {
      var top := MaxRowDeletion(RowDeletionsOf(v.entries)).value;
      if !RowPurgeable(top, cfg) {
        if Above(top.ts, RangeFloor(v, row)) && Above(top.ts, PartitionFloor(v)) {
          assert top in RowDeletionsOf(m.entries);
        } else {
          FloorsAccounted(v, row, cfg, c, top.ts);
        }
      }
    } else {
      MarkerAccounted(v, row, cfg, c);
    }
  }

  lemma {:induction false} MarkerAccounted(v: View, row: Row, cfg: Config, c: Cell)
    requires Fits(v, row) && Fits(Merged(v, row, cfg), row) && c.key.path.Some?
    requires exists d :: d in ComplexOf(v.entries) && d.column == c.key.column && c.ts <= d.mfda
    ensures Accounted(v, row, cfg, c)
  {
    hide MergedRow, RowDeletionsOf, ComplexOf, MaxRowDeletion, RetainMarkers, ActiveList, Distinct;
    hide RangeFloor, PartitionFloor;
    var m := Merged(v, row, cfg);
    MergedEntries(v, row, cfg);
    MergedRowHolds(v, row, cfg);
    var d :| d in ComplexOf(v.entries) && d.column == c.key.column && c.ts <= d.mfda;
    var cds := Distinct(ComplexOf(v.entries));
    DistinctSame(ComplexOf(v.entries), d);
    ActiveTop(cds, d.column);
    var top := ActiveFor(cds, d.column).value;
    ActiveListIs(cds, top);
    RetainMarkersMember(ActiveList(cds), cfg, top);
    if !ComplexPurgeable(top, cfg) {
      if Above(top.mfda, RangeFloor(v, row)) && Above(top.mfda, PartitionFloor(v)) {
        assert top in ComplexOf(m.entries);
      } else {
        FloorsAccounted(v, row, cfg, c, top.mfda);
      }
    }
  }

  lemma {:induction false} DeletionsAccounted(v: View, row: Row, cfg: Config, c: Cell)
    requires Fits(v, row) && Fits(Merged(v, row, cfg), row) && Deleted(v, row, c)
    ensures Accounted(v, row, cfg, c)
  {
    hide Deleted, GroupDeleted, RangeFloor, PartitionFloor, Accounted;
    DeletedIs(v, row, c);
    if GroupDeleted(v.entries, c) {
      GroupAccounted(v, row, cfg, c);
    } else {
      FloorsAccounted(v, row, cfg, c, c.ts);
    }
  }

  // ----- transparency -----

  /** Live cells written to the key at one timestamp are the same cell. */
  ghost predicate Agree(cells: seq<Cell>, k: CellKey) {
    forall x, y ::
      x in cells && y in cells && x.key == y.key == k && x.ts == y.ts && !IsTombstone(x) && !IsTombstone(y) ==> x == y
  }

  /** The two views hold the same things, in any order. */
  ghost predicate SameMembers(a: View, b: View) {
    && (forall c :: c in CellsOf(a.entries) <==> c in CellsOf(b.entries))
    && (forall d :: d in RowDeletionsOf(a.entries) <==> d in RowDeletionsOf(b.entries))
    && (forall d :: d in ComplexOf(a.entries) <==> d in ComplexOf(b.entries))
    && (forall r :: r in a.ranges <==> r in b.ranges)
    && (forall d :: d in a.deletions <==> d in b.deletions)
  }

  /** No cell of its key ranks above it. */
  ghost predicate Top(cells: seq<Cell>, x: Cell) {
    x in cells && forall c :: c in cells && c.key == x.key ==> RankLe(c, x)
  }

  /** Nothing but a cell of higher rank keeps it from the reader. */
  ghost predicate Showable(v: View, row: Row, dropped: map<string, int>, now: int, x: Cell)
    requires Fits(v, row)
  {
    !IsTombstone(x) && !Expired(x, Some(now)) && !Deleted(v, row, x) && !DropShadows(dropped, x)
  }

  ghost predicate TiedBy(v: View, row: Row, dropped: map<string, int>, now: int, k: CellKey, x: Cell, y: Cell)
    requires Fits(v, row)
  {
    && x != y && x.key == k && y.key == k && Top(CellsOf(v.entries), x) && Top(CellsOf(v.entries), y)
    && !IsTombstone(y) && Showable(v, row, dropped, now, x)
  }

  /** Two different live cells share the top of the key, and one could be shown. */
  ghost predicate Tied(v: View, row: Row, dropped: map<string, int>, now: int, k: CellKey)
    requires Fits(v, row)
  {
    exists x, y :: TiedBy(v, row, dropped, now, k, x, y)
  }

  lemma {:induction false} AgreeNotTied(v: View, row: Row, dropped: map<string, int>, now: int, k: CellKey)
    requires Fits(v, row) && Agree(CellsOf(v.entries), k)
    ensures !Tied(v, row, dropped, now, k)
  {
    hide CellsOf, Deleted;
  }

  /** A showable cell at the top of its key, where there is no tie, is the winner. */
  lemma {:induction false} TopIsShown(v: View, row: Row, dropped: map<string, int>, now: int, w: Cell)
    requires Fits(v, row) && !Tied(v, row, dropped, now, w.key)
    requires Top(CellsOf(v.entries), w) && Showable(v, row, dropped, now, w)
    ensures Shown(v, row, dropped, now, w.key) == Some(w)
  {
    hide Winner, CellsOf, Deleted;
    WinnerTop(CellsOf(v.entries), w.key);
    var z := Winner(CellsOf(v.entries), w.key).value;
    assert RankLe(w, z) && RankLe(z, w);
    assert !TiedBy(v, row, dropped, now, w.key, w, z);
  }

  /** Reading does not depend on the order of the SSTables where there is no tie. */
  lemma {:induction false} OrderIrrelevant(a: View, b: View, row: Row, dropped: map<string, int>, now: int, k: CellKey)
    requires Fits(a, row) && Fits(b, row) && SameMembers(a, b) && !Tied(a, row, dropped, now, k)
    ensures Shown(a, row, dropped, now, k) == Shown(b, row, dropped, now, k)
  {
    hide CellsOf, RowDeletionsOf, ComplexOf, Deleted, Winner;
    WinnerTop(CellsOf(a.entries), k);
    WinnerTop(CellsOf(b.entries), k);
    var x, y := Winner(CellsOf(a.entries), k), Winner(CellsOf(b.entries), k);
    if x.Some? && y.Some? {
      SameDeleted(a, b, row, x.value);
      SameDeleted(a, b, row, y.value);
      assert RankLe(x.value, y.value) && RankLe(y.value, x.value);
      assert !TiedBy(a, row, dropped, now, k, x.value, y.value) && !TiedBy(a, row, dropped, now, k, y.value, x.value);
    }
  }

  lemma {:induction false} TiedSame(a: View, b: View, row: Row, dropped: map<string, int>, now: int, k: CellKey)
    requires Fits(a, row) && Fits(b, row) && SameMembers(a, b) && Tied(a, row, dropped, now, k)
    ensures Tied(b, row, dropped, now, k)
  {
    hide CellsOf, RowDeletionsOf, ComplexOf, Deleted;
    var x, y :| TiedBy(a, row, dropped, now, k, x, y);
    SameDeleted(a, b, row, x);
    assert TiedBy(b, row, dropped, now, k, x, y);
  }

  lemma {:induction false} SameDeleted(a: View, b: View, row: Row, c: Cell)
    requires Fits(a, row) && Fits(b, row) && SameMembers(a, b)
    ensures Deleted(a, row, c) <==> Deleted(b, row, c)
  {
    hide CellsOf, RowDeletionsOf, ComplexOf;
    if i :| 0 <= i < |a.ranges| && Covered(row, a.ranges[i]) && c.ts <= a.ranges[i].mfda {
      assert a.ranges[i] in b.ranges;
      var j :| 0 <= j < |b.ranges| && b.ranges[j] == a.ranges[i];
      assert Covered(row, b.ranges[j]) && c.ts <= b.ranges[j].mfda;
    }
    if i :| 0 <= i < |b.ranges| && Covered(row, b.ranges[i]) && c.ts <= b.ranges[i].mfda {
      assert b.ranges[i] in a.ranges;
      var j :| 0 <= j < |a.ranges| && a.ranges[j] == b.ranges[i];
      assert Covered(row, a.ranges[j]) && c.ts <= a.ranges[j].mfda;
    }
  }

  lemma {:induction false} ConcatEntries(a: seq<Entry>, b: seq<Entry>)
    ensures CellsOf(a + b) == CellsOf(a) + CellsOf(b)
    ensures RowDeletionsOf(a + b) == RowDeletionsOf(a) + RowDeletionsOf(b)
    ensures ComplexOf(a + b) == ComplexOf(a) + ComplexOf(b)
    decreases |b|
  {
    hide CellsOf, RowDeletionsOf, ComplexOf, RowDeletionsIn;
    if b == [] {
      assert a + b == a;
      OneEntry(Entry(LiveRow([]), [], None));
    } else {
      var init, e := b[..|b| - 1], b[|b| - 1];
      ConcatEntries(a, init);
      assert a + b == (a + init) + [e] && b == init + [e];
      SnocEntry(a + init, e);
      SnocEntry(init, e);
    }
  }

  lemma {:induction false} SnocEntry(a: seq<Entry>, e: Entry)
    ensures CellsOf(a + [e]) == CellsOf(a) + if e.data.LiveRow? then e.data.cells else []
    ensures RowDeletionsOf(a + [e]) == RowDeletionsOf(a) + RowDeletionsIn(e)
    ensures ComplexOf(a + [e]) == ComplexOf(a) + e.complex
  {
    assert (a + [e])[..|a|] == a;
  }

  lemma {:induction false} UnionIs(a: View, b: View, row: Row)
    requires Fits(a, row) && Fits(b, row)
    ensures Fits(Union(a, b), row)
    ensures forall c :: c in CellsOf(Union(a, b).entries) <==> c in CellsOf(a.entries) || c in CellsOf(b.entries)
    ensures forall c :: Deleted(Union(a, b), row, c) <==> Deleted(a, row, c) || Deleted(b, row, c)
  {
    hide CellsOf, RowDeletionsOf, ComplexOf;
    ConcatEntries(a.entries, b.entries);
    forall c ensures Deleted(Union(a, b), row, c) <==> Deleted(a, row, c) || Deleted(b, row, c) {
      UnionDeleted(a, b, row, c);
    }
  }

  lemma {:induction false} UnionDeleted(a: View, b: View, row: Row, c: Cell)
    requires Fits(a, row) && Fits(b, row) && Fits(Union(a, b), row)
    ensures Deleted(Union(a, b), row, c) <==> Deleted(a, row, c) || Deleted(b, row, c)
  {
    hide CellsOf, RowDeletionsOf, ComplexOf, Covered;
    ConcatEntries(a.entries, b.entries);
    var u := Union(a, b);
    if i :| 0 <= i < |u.ranges| && Covered(row, u.ranges[i]) && c.ts <= u.ranges[i].mfda {
      if i < |a.ranges| { assert u.ranges[i] == a.ranges[i]; } else { assert u.ranges[i] == b.ranges[i - |a.ranges|]; }
    }
    if i :| 0 <= i < |a.ranges| && Covered(row, a.ranges[i]) && c.ts <= a.ranges[i].mfda {
      assert u.ranges[i] == a.ranges[i];
    }
    if i :| 0 <= i < |b.ranges| && Covered(row, b.ranges[i]) && c.ts <= b.ranges[i].mfda {
      assert u.ranges[|a.ranges| + i] == b.ranges[i];
    }
  }

  lemma {:induction false} MergedKeyCells(v: View, row: Row, cfg: Config, k: CellKey)
    requires Fits(v, row) && k.column !in row.keyColumns
    ensures forall c ::
              c in CellsOf(Merged(v, row, cfg).entries) && c.key == k <==> c.key == k && Leaves(v, row, cfg, c)
  {
    hide MergedRow, Merged, Leaves, CellsOf;
    MergedEntries(v, row, cfg);
    forall c: Cell | c.key == k ensures HasCell(MergedRow(v, row, cfg), c) <==> Leaves(v, row, cfg, c) {
      MergedCell(v, row, cfg, c);
    }
  }

  predicate Outranks(x: Cell, c: Cell) { RankLe(c, x) && !RankLe(x, c) }

  /** What a view holds keeps the cell from every reader. */
  ghost predicate Hides(v: View, row: Row, c: Cell)
    requires Fits(v, row)
  {
    Deleted(v, row, c) || exists x :: x in CellsOf(v.entries) && x.key == c.key && Outranks(x, c)
  }

  lemma {:induction false} DeletedDownward(v: View, row: Row, x: Cell, w: Cell)
    requires Fits(v, row) && Deleted(v, row, x) && w.key == x.key && w.ts <= x.ts
    ensures Deleted(v, row, w)
  {
    hide RowDeletionsOf, ComplexOf;
    if i :| 0 <= i < |v.ranges| && Covered(row, v.ranges[i]) && x.ts <= v.ranges[i].mfda {
      assert w.ts <= v.ranges[i].mfda;
    }
  }

  /** The views before and after a compaction, in terms of their parts. */
  lemma {:induction false} AroundMerge(inside: View, outside: View, row: Row, cfg: Config, k: CellKey)
    requires Fits(inside, row) && Fits(outside, row) && k.column !in row.keyColumns
    ensures Fits(Union(inside, outside), row)
    ensures Fits(Merged(inside, row, cfg), row) && Fits(Union(Merged(inside, row, cfg), outside), row)
    ensures forall c :: c in CellsOf(Union(inside, outside).entries) <==>
              c in CellsOf(inside.entries) || c in CellsOf(outside.entries)
    ensures forall c: Cell :: c.key == k ==> (c in CellsOf(Union(Merged(inside, row, cfg), outside).entries) <==>
              Leaves(inside, row, cfg, c) || c in CellsOf(outside.entries))
    ensures forall c :: Deleted(Union(inside, outside), row, c) <==> Deleted(inside, row, c) || Deleted(outside, row, c)
    ensures forall c :: Deleted(Union(Merged(inside, row, cfg), outside), row, c) <==>
              Deleted(Merged(inside, row, cfg), row, c) || Deleted(outside, row, c)
  {
    hide CellsOf, Deleted, Merged, Leaves;
    MergedFits(inside, row, cfg);
    UnionIs(inside, outside, row);
    UnionIs(Merged(inside, row, cfg), outside, row);
    MergedKeyCells(inside, row, cfg, k);
  }

  /** What the reader saw is still seen. */
  lemma {:induction false} NothingLost(inside: View, outside: View, row: Row, cfg: Config, now: int, k: CellKey)
    requires Fits(inside, row) && Fits(outside, row) && k.column !in row.keyColumns
    requires cfg.now.Some? ==> cfg.now.value <= now
    requires Fits(Union(inside, outside), row) && !Tied(Union(inside, outside), row, cfg.dropped, now, k)
    requires Shown(Union(inside, outside), row, cfg.dropped, now, k).Some?
    ensures Fits(Merged(inside, row, cfg), row) && Fits(Union(Merged(inside, row, cfg), outside), row)
    ensures Shown(Union(Merged(inside, row, cfg), outside), row, cfg.dropped, now, k)
         == Shown(Union(inside, outside), row, cfg.dropped, now, k)
  {
    hide CellsOf, Deleted, Merged, Winner;
    AroundMerge(inside, outside, row, cfg, k);
    var m := Merged(inside, row, cfg);
    var before, after := Union(inside, outside), Union(m, outside);
    WinnerTop(CellsOf(before.entries), k);
    WinnerTop(CellsOf(inside.entries), k);
    WinnerTop(CellsOf(after.entries), k);
    var w := Winner(CellsOf(before.entries), k).value;
    assert Top(CellsOf(before.entries), w) && Showable(before, row, cfg.dropped, now, w);
    if Deleted(m, row, w) { MergedDeletesNoMore(inside, row, cfg, w); }
    if w in CellsOf(inside.entries) {
      var x := Winner(CellsOf(inside.entries), k).value;
      assert RankLe(x, w) && RankLe(w, x);
      assert !TiedBy(before, row, cfg.dropped, now, k, w, x);
      assert Leaves(inside, row, cfg, w);
    }
    assert w in CellsOf(after.entries);
    var z := Winner(CellsOf(after.entries), k).value;
    assert RankLe(w, z);
    if z !in CellsOf(outside.entries) {
      var x := Winner(CellsOf(inside.entries), k).value;
      assert z == Expire(x, cfg.now) && RankLe(x, w);
      if x.ts == w.ts { assert !TiedBy(before, row, cfg.dropped, now, k, w, x); }
    }
    assert !TiedBy(before, row, cfg.dropped, now, k, w, z);
  }

  /** A cell that a compaction leaves and that is live is the winner of its key. */
  lemma {:induction false} LiveLeaver(inside: View, row: Row, cfg: Config, w: Cell)
    requires Fits(inside, row) && Leaves(inside, row, cfg, w) && !IsTombstone(w)
    ensures !Hides(inside, row, w) && w in CellsOf(inside.entries)
  {
    hide CellsOf, Winner, Deleted;
    WinnerTop(CellsOf(inside.entries), w.key);
  }

  /** Nothing is seen that was not seen before, unless the compaction stopped hiding a
      cell outside it. */
  lemma {:induction false} NothingResurrected(inside: View, outside: View, row: Row, cfg: Config, now: int, k: CellKey)
    requires Fits(inside, row) && Fits(outside, row) && k.column !in row.keyColumns
    requires Fits(Union(inside, outside), row) && !Tied(Union(inside, outside), row, cfg.dropped, now, k)
    requires Fits(Merged(inside, row, cfg), row) && Fits(Union(Merged(inside, row, cfg), outside), row)
    requires var r := Shown(Union(Merged(inside, row, cfg), outside), row, cfg.dropped, now, k);
             r.Some? && (Hides(inside, row, r.value) ==> Hides(Merged(inside, row, cfg), row, r.value))
    ensures Shown(Union(Merged(inside, row, cfg), outside), row, cfg.dropped, now, k)
         == Shown(Union(inside, outside), row, cfg.dropped, now, k)
  {
    hide CellsOf, Deleted, Merged, Winner;
    AroundMerge(inside, outside, row, cfg, k);
    var m := Merged(inside, row, cfg);
    var before, after := Union(inside, outside), Union(m, outside);
    WinnerTop(CellsOf(after.entries), k);
    var w := Winner(CellsOf(after.entries), k).value;
    assert !Hides(m, row, w) by { TopNotHidden(inside, outside, row, cfg, k, w); }
    forall c | c in CellsOf(before.entries) && c.key == k ensures RankLe(c, w) {
      if c in CellsOf(inside.entries) { assert !Outranks(c, w); }
    }
    if Leaves(inside, row, cfg, w) { LiveLeaver(inside, row, cfg, w); }
    TopIsShown(before, row, cfg.dropped, now, w);
  }

  lemma {:induction false} TopNotHidden(inside: View, outside: View, row: Row, cfg: Config, k: CellKey, w: Cell)
    requires Fits(inside, row) && Fits(outside, row) && k.column !in row.keyColumns && w.key == k
    requires Fits(Merged(inside, row, cfg), row) && Fits(Union(Merged(inside, row, cfg), outside), row)
    requires Top(CellsOf(Union(Merged(inside, row, cfg), outside).entries), w)
    requires !Deleted(Union(Merged(inside, row, cfg), outside), row, w)
    ensures !Hides(Merged(inside, row, cfg), row, w)
  {
    hide CellsOf, Deleted, Merged;
    UnionIs(Merged(inside, row, cfg), outside, row);
  }

  /** What the outside would show by itself was hidden by what is compacted, and is not
      hidden by what the compaction leaves. */
  ghost predicate Exposed(inside: View, outside: View, row: Row, cfg: Config, now: int, k: CellKey)
    requires Fits(inside, row) && Fits(outside, row) && Fits(Merged(inside, row, cfg), row)
  {
    var w := Winner(CellsOf(outside.entries), k);
    w.Some? && Showable(outside, row, cfg.dropped, now, w.value) &&
    Hides(inside, row, w.value) && !Hides(Merged(inside, row, cfg), row, w.value)
  }

  /** The winner of two groups is the first group's unless the second's beats it. */
  lemma {:induction false} WinnerConcat(a: seq<Cell>, b: seq<Cell>, k: CellKey)
    ensures var x, y := Winner(a, k), Winner(b, k);
            Winner(a + b, k) == if x.None? then y else if y.Some? && CellWins(y.value, x.value) then y else x
  {
    if b == [] {
      assert a + b == a;
    } else {
      WinnerConcat(a, b[..|b| - 1], k);
      assert (a + b)[..|a + b| - 1] == a + b[..|b| - 1];
    }
  }

  lemma {:induction false} UnionWinner(a: View, b: View, k: CellKey)
    ensures var x, y := Winner(CellsOf(a.entries), k), Winner(CellsOf(b.entries), k);
            Winner(CellsOf(Union(a, b).entries), k)
            == if x.None? then y else if y.Some? && CellWins(y.value, x.value) then y else x
  {
    hide CellsOf, Winner;
    ConcatEntries(a.entries, b.entries);
    WinnerConcat(CellsOf(a.entries), CellsOf(b.entries), k);
  }

  /** An exposed cell appears where it did not before. */
  lemma {:induction false} ExposedAppears(inside: View, outside: View, row: Row, cfg: Config, now: int, k: CellKey)
    requires Fits(inside, row) && Fits(outside, row) && k.column !in row.keyColumns
    requires Fits(Union(inside, outside), row)
    requires Fits(Merged(inside, row, cfg), row) && Fits(Union(Merged(inside, row, cfg), outside), row)
    requires Exposed(inside, outside, row, cfg, now, k)
    ensures var w := Winner(CellsOf(outside.entries), k);
            && Shown(Union(Merged(inside, row, cfg), outside), row, cfg.dropped, now, k) == w
            && Shown(Union(inside, outside), row, cfg.dropped, now, k) != w
  {
    hide CellsOf, Deleted, Merged, Winner;
    AroundMerge(inside, outside, row, cfg, k);
    var m := Merged(inside, row, cfg);
    var before, after := Union(inside, outside), Union(m, outside);
    WinnerTop(CellsOf(outside.entries), k);
    WinnerTop(CellsOf(m.entries), k);
    WinnerTop(CellsOf(before.entries), k);
    UnionWinner(m, outside, k);
    MergedKeyCells(inside, row, cfg, k);
    var w, x := Winner(CellsOf(outside.entries), k).value, Winner(CellsOf(m.entries), k);
    if x.Some? && !CellWins(w, x.value) {
      assert !Outranks(x.value, w);
      assert x.value.ts == w.ts && !IsTombstone(x.value);
      LiveLeaver(inside, row, cfg, x.value);
      EqualRankHidden(inside, row, x.value, w);
    }
  }

  lemma {:induction false} EqualRankHidden(v: View, row: Row, x: Cell, w: Cell)
    requires Fits(v, row) && Hides(v, row, w) && x.key == w.key && x.ts == w.ts && !IsTombstone(x) && !IsTombstone(w)
    ensures Hides(v, row, x)
  {
    hide Deleted, CellsOf;
    if Deleted(v, row, w) {
      DeletedDownward(v, row, w, x);
    } else {
      var y :| y in CellsOf(v.entries) && y.key == w.key && Outranks(y, w);
      assert Outranks(y, x);
    }
  }

  /** Where there is no tie, a compaction leaves a read unchanged exactly when it does
      not expose what the outside would show. */
  lemma {:induction false} TransparentExactly(inside: View, outside: View, row: Row, cfg: Config, now: int, k: CellKey)
    requires Fits(inside, row) && Fits(outside, row) && k.column !in row.keyColumns
    requires cfg.now.Some? ==> cfg.now.value <= now
    requires Fits(Union(inside, outside), row) && !Tied(Union(inside, outside), row, cfg.dropped, now, k)
    ensures Fits(Merged(inside, row, cfg), row) && Fits(Union(Merged(inside, row, cfg), outside), row)
    ensures Read(Union(Merged(inside, row, cfg), outside), row, cfg.dropped, now, k)
         == Read(Union(inside, outside), row, cfg.dropped, now, k)
       <==> !Exposed(inside, outside, row, cfg, now, k)
  {
    hide CellsOf, Deleted, Merged, Winner, Read, Tied;
    AroundMerge(inside, outside, row, cfg, k);
    var m := Merged(inside, row, cfg);
    var before, after := Union(inside, outside), Union(m, outside);
    ReadIsShown(before, row, cfg.dropped, now, k);
    ReadIsShown(after, row, cfg.dropped, now, k);
    if Exposed(inside, outside, row, cfg, now, k) {
      ExposedAppears(inside, outside, row, cfg, now, k);
    } else if Shown(before, row, cfg.dropped, now, k).Some? {
      NothingLost(inside, outside, row, cfg, now, k);
    } else if Shown(after, row, cfg.dropped, now, k).Some? {
      ShownGuarded(inside, outside, row, cfg, now, k);
      NothingResurrected(inside, outside, row, cfg, now, k);
    }
  }

  /** Nothing exposed: what is shown afterwards was not hidden by what is compacted. */
  lemma {:induction false} ShownGuarded(inside: View, outside: View, row: Row, cfg: Config, now: int, k: CellKey)
    requires Fits(inside, row) && Fits(outside, row) && k.column !in row.keyColumns
    requires Fits(Merged(inside, row, cfg), row) && Fits(Union(Merged(inside, row, cfg), outside), row)
    requires !Exposed(inside, outside, row, cfg, now, k)
    requires Shown(Union(Merged(inside, row, cfg), outside), row, cfg.dropped, now, k).Some?
    ensures var r := Shown(Union(Merged(inside, row, cfg), outside), row, cfg.dropped, now, k).value;
            Hides(inside, row, r) ==> Hides(Merged(inside, row, cfg), row, r)
  {
    hide CellsOf, Deleted, Merged, Winner;
    AroundMerge(inside, outside, row, cfg, k);
    MergedKeyCells(inside, row, cfg, k);
    var m := Merged(inside, row, cfg);
    var after := Union(m, outside);
    UnionWinner(m, outside, k);
    WinnerTop(CellsOf(m.entries), k);
    WinnerTop(CellsOf(outside.entries), k);
    WinnerTop(CellsOf(after.entries), k);
    var w := Winner(CellsOf(after.entries), k).value;
    if Winner(CellsOf(outside.entries), k) != Some(w) { LiveLeaver(inside, row, cfg, w); }
  }

  // ----- settings that expose nothing -----

  /** A compaction may purge only below every timestamp outside it, and only ages
      cells that a later reader would find expired too. */
  ghost predicate SafeSettings(outside: View, cfg: Config, now: int) {
    && (cfg.gcBefore.Some? ==> forall c :: c in CellsOf(outside.entries) ==> cfg.maxPurgeable <= c.ts)
    && (cfg.now.Some? ==> cfg.now.value <= now)
  }

  /** A live cell not below the purge bound stays hidden if it was. */
  lemma {:induction false} StaysHidden(inside: View, row: Row, cfg: Config, c: Cell)
    requires Fits(inside, row) && Fits(Merged(inside, row, cfg), row) && c.key.column !in row.keyColumns
    requires cfg.gcBefore.Some? ==> cfg.maxPurgeable <= c.ts
    requires !IsTombstone(c) && !DropShadows(cfg.dropped, c) && Hides(inside, row, c)
    ensures Hides(Merged(inside, row, cfg), row, c)
  {
    hide CellsOf, Deleted, Merged, Winner;
    if Deleted(inside, row, c) {
      DeletionsAccounted(inside, row, cfg, c);
    } else {
      var y :| y in CellsOf(inside.entries) && y.key == c.key && Outranks(y, c);
      WinnerTop(CellsOf(inside.entries), c.key);
      var x := Winner(CellsOf(inside.entries), c.key).value;
      assert RankLe(y, x) && Outranks(x, c);
      if Deleted(inside, row, x) { DeletedDownward(inside, row, x, c); }
      MergedKeyCells(inside, row, cfg, c.key);
      assert Leaves(inside, row, cfg, Expire(x, cfg.now));
    }
  }

  lemma {:induction false} SafeExposesNothing(inside: View, outside: View, row: Row, cfg: Config, now: int, k: CellKey)
    requires Fits(inside, row) && Fits(outside, row) && Fits(Merged(inside, row, cfg), row)
    requires k.column !in row.keyColumns && SafeSettings(outside, cfg, now)
    ensures !Exposed(inside, outside, row, cfg, now, k)
  {
    hide CellsOf, Deleted, Merged, Winner, Hides;
    WinnerTop(CellsOf(outside.entries), k);
    var w := Winner(CellsOf(outside.entries), k);
    if w.Some? && Showable(outside, row, cfg.dropped, now, w.value) && Hides(inside, row, w.value) {
      StaysHidden(inside, row, cfg, w.value);
    }
  }

  /** A tie afterwards was one before. */
  lemma {:induction false} TieWasBefore(inside: View, outside: View, row: Row, cfg: Config, now: int, k: CellKey)
    requires Fits(inside, row) && Fits(outside, row) && k.column !in row.keyColumns && SafeSettings(outside, cfg, now)
    requires Fits(Union(inside, outside), row)
    requires Fits(Merged(inside, row, cfg), row) && Fits(Union(Merged(inside, row, cfg), outside), row)
    requires Tied(Union(Merged(inside, row, cfg), outside), row, cfg.dropped, now, k)
    ensures Tied(Union(inside, outside), row, cfg.dropped, now, k)
  {
    hide CellsOf, Deleted, Merged, Winner;
    var m := Merged(inside, row, cfg);
    var before, after := Union(inside, outside), Union(m, outside);
    var x, y :| TiedBy(after, row, cfg.dropped, now, k, x, y);
    assert RankLe(x, y) && RankLe(y, x);
    TopBefore(inside, outside, row, cfg, now, k, x);
    AroundMerge(inside, outside, row, cfg, k);
    if Leaves(inside, row, cfg, y) { LiveLeaver(inside, row, cfg, y); }
    assert TiedBy(before, row, cfg.dropped, now, k, x, y);
  }

  lemma {:induction false} TopBefore(inside: View, outside: View, row: Row, cfg: Config, now: int, k: CellKey, x: Cell)
    requires Fits(inside, row) && Fits(outside, row) && k.column !in row.keyColumns && SafeSettings(outside, cfg, now)
    requires Fits(Union(inside, outside), row)
    requires Fits(Merged(inside, row, cfg), row) && Fits(Union(Merged(inside, row, cfg), outside), row)
    requires x.key == k && Top(CellsOf(Union(Merged(inside, row, cfg), outside).entries), x)
    requires Showable(Union(Merged(inside, row, cfg), outside), row, cfg.dropped, now, x)
    ensures Top(CellsOf(Union(inside, outside).entries), x)
    ensures Showable(Union(inside, outside), row, cfg.dropped, now, x)
  {
    hide CellsOf, Deleted, Merged, Winner;
    AroundMerge(inside, outside, row, cfg, k);
    var m := Merged(inside, row, cfg);
    TopNotHidden(inside, outside, row, cfg, k, x);
    if Leaves(inside, row, cfg, x) {
      LiveLeaver(inside, row, cfg, x);
    } else if Hides(inside, row, x) {
      StaysHidden(inside, row, cfg, x);
    }
    forall c | c in CellsOf(Union(inside, outside).entries) && c.key == k ensures RankLe(c, x) {
      if c in CellsOf(inside.entries) { assert !Outranks(c, x); }
    }
  }

  /** Compacting some of the SSTables, in any order of the rest, leaves every read of
      every data column unchanged, now and at any later time. */
  lemma {:induction false} CompactionTransparent(inside: View, outside: View, before: View, after: View, row: Row,
      cfg: Config, now: int, k: CellKey)
    requires Fits(inside, row) && Fits(outside, row) && Fits(before, row) && Fits(after, row)
    requires k.column !in row.keyColumns && SafeSettings(outside, cfg, now)
    requires SameMembers(before, Union(inside, outside))
    requires SameMembers(after, Union(Merged(inside, row, cfg), outside))
    requires !Tied(before, row, cfg.dropped, now, k)
    ensures Read(after, row, cfg.dropped, now, k) == Read(before, row, cfg.dropped, now, k)
  {
    hide Read, Merged, Shown, CellsOf, RowDeletionsOf, ComplexOf, Tied, Exposed;
    var u, m := Union(inside, outside), Merged(inside, row, cfg);
    AroundMerge(inside, outside, row, cfg, k);
    if Tied(u, row, cfg.dropped, now, k) { TiedSame(u, before, row, cfg.dropped, now, k); }
    SafeExposesNothing(inside, outside, row, cfg, now, k);
    TransparentExactly(inside, outside, row, cfg, now, k);
    if Tied(Union(m, outside), row, cfg.dropped, now, k) { TieWasBefore(inside, outside, row, cfg, now, k); }
    ReadIsShown(before, row, cfg.dropped, now, k);
    ReadIsShown(after, row, cfg.dropped, now, k);
    ReadIsShown(u, row, cfg.dropped, now, k);
    ReadIsShown(Union(m, outside), row, cfg.dropped, now, k);
    OrderIrrelevant(u, before, row, cfg.dropped, now, k);
    OrderIrrelevant(Union(m, outside), after, row, cfg.dropped, now, k);
  }

  // ----- the hypotheses are needed -----

  function Table(c: Cell): Entry { Entry(LiveRow([c]), [], None) }

  predicate Readable(c: Cell, row: Row, dropped: map<string, int>, now: int) {
    c.key.column !in row.keyColumns && !IsTombstone(c) && !Expired(c, Some(now)) && !DropShadows(dropped, c)
  }

  lemma {:induction false} TwoTables(x: Cell, y: Cell)
    ensures CellsOf([Table(x), Table(y)]) == [x, y]
    ensures RowDeletionsOf([Table(x), Table(y)]) == [] && ComplexOf([Table(x), Table(y)]) == []
  {
    OneEntry(Table(x));
    SnocEntry([Table(x)], Table(y));
    assert [Table(x)] + [Table(y)] == [Table(x), Table(y)];
  }

  /** A cell at the top put first is the winner. */
  lemma {:induction false} FirstTopWins(x: Cell, cells: seq<Cell>)
    requires forall c :: c in cells && c.key == x.key ==> RankLe(c, x)
    ensures Winner([x] + cells, x.key) == Some(x)
  {
    WinnerTop(cells, x.key);
    WinnerConcat([x], cells, x.key);
    assert [x][..0] == [];
    assert Winner([x], x.key) == Some(x);
  }

  function PutFirst(x: Cell, v: View): View { v.(entries := [Table(x)] + v.entries) }

  lemma {:induction false} PutFirstSame(x: Cell, v: View)
    requires x in CellsOf(v.entries)
    ensures SameMembers(v, PutFirst(x, v)) && CellsOf(PutFirst(x, v).entries) == [x] + CellsOf(v.entries)
  {
    hide CellsOf, RowDeletionsOf, ComplexOf;
    OneEntry(Table(x));
    ConcatEntries([Table(x)], v.entries);
  }

  /** Every order of the SSTables reads the same exactly when there is no tie. */
  lemma {:induction false} OrderExactly(v: View, row: Row, dropped: map<string, int>, now: int, k: CellKey)
    requires Fits(v, row) && k.column !in row.keyColumns
    ensures (forall b :: Fits(b, row) && SameMembers(v, b) ==>
               Read(b, row, dropped, now, k) == Read(v, row, dropped, now, k))
       <==> !Tied(v, row, dropped, now, k)
  {
    hide Read, CellsOf, RowDeletionsOf, ComplexOf, Deleted, SameMembers, Winner;
    if Tied(v, row, dropped, now, k) {
      var x, y :| TiedBy(v, row, dropped, now, k, x, y);
      FirstIsRead(v, row, dropped, now, x);
      FirstIsRead(v, row, dropped, now, y);
      assert Read(PutFirst(x, v), row, dropped, now, k) != Read(PutFirst(y, v), row, dropped, now, k);
    } else {
      forall b | Fits(b, row) && SameMembers(v, b)
        ensures Read(b, row, dropped, now, k) == Read(v, row, dropped, now, k)
      {
        ReadIsShown(b, row, dropped, now, k);
        ReadIsShown(v, row, dropped, now, k);
        OrderIrrelevant(v, b, row, dropped, now, k);
      }
    }
  }

  lemma {:induction false} FirstIsRead(v: View, row: Row, dropped: map<string, int>, now: int, x: Cell)
    requires Fits(v, row) && x.key.column !in row.keyColumns && Top(CellsOf(v.entries), x)
    ensures Fits(PutFirst(x, v), row) && SameMembers(v, PutFirst(x, v))
    ensures Read(PutFirst(x, v), row, dropped, now, x.key)
         == if Showable(v, row, dropped, now, x) then Some(x) else None
  {
    hide Read, CellsOf, RowDeletionsOf, ComplexOf, Deleted, Winner, SameMembers;
    PutFirstSame(x, v);
    FirstTopWins(x, CellsOf(v.entries));
    SameDeleted(v, PutFirst(x, v), row, x);
    ReadIsShown(PutFirst(x, v), row, dropped, now, x.key);
  }

  /** With safe settings, every order before and every order after a compaction read the
      same exactly when there is no tie. */
  lemma {:induction false} TransparencyNeedsNoTie(inside: View, outside: View, row: Row, cfg: Config, now: int,
      k: CellKey)
    requires Fits(inside, row) && Fits(outside, row) && k.column !in row.keyColumns && SafeSettings(outside, cfg, now)
    ensures Fits(Union(inside, outside), row)
    ensures (forall before, after ::
               Fits(before, row) && Fits(after, row) && SameMembers(before, Union(inside, outside)) &&
               SameMembers(after, Union(Merged(inside, row, cfg), outside))
               ==> Read(after, row, cfg.dropped, now, k) == Read(before, row, cfg.dropped, now, k))
       <==> !Tied(Union(inside, outside), row, cfg.dropped, now, k)
  {
    hide Read, CellsOf, RowDeletionsOf, ComplexOf, SameMembers, Tied, Merged;
    AroundMerge(inside, outside, row, cfg, k);
    var u, after := Union(inside, outside), Union(Merged(inside, row, cfg), outside);
    if Tied(u, row, cfg.dropped, now, k) {
      OrderExactly(u, row, cfg.dropped, now, k);
      var b :| Fits(b, row) && SameMembers(u, b) &&
               Read(b, row, cfg.dropped, now, k) != Read(u, row, cfg.dropped, now, k);
      SameMembersFlip(u, b);
      SameMembersFlip(u, u);
      SameMembersFlip(after, after);
      assert Read(after, row, cfg.dropped, now, k) != Read(b, row, cfg.dropped, now, k)
          || Read(after, row, cfg.dropped, now, k) != Read(u, row, cfg.dropped, now, k);
    } else {
      forall before, after | Fits(before, row) && Fits(after, row) && SameMembers(before, u) &&
                             SameMembers(after, Union(Merged(inside, row, cfg), outside))
        ensures Read(after, row, cfg.dropped, now, k) == Read(before, row, cfg.dropped, now, k)
      {
        if Tied(before, row, cfg.dropped, now, k) { TiedSame(before, u, row, cfg.dropped, now, k); }
        CompactionTransparent(inside, outside, before, after, row, cfg, now, k);
      }
    }
  }

  lemma {:induction false} SameMembersFlip(a: View, b: View)
    ensures SameMembers(a, a)
    ensures SameMembers(a, b) ==> SameMembers(b, a)
  {
    hide CellsOf, RowDeletionsOf, ComplexOf;
  }

  /** For two SSTables with one readable cell each: the two orders agree exactly when
      they do not hold different cells at one timestamp. */
  lemma {:induction false} PairOrderExactly(x: Cell, y: Cell, row: Row, dropped: map<string, int>, now: int)
    requires x.key == y.key && Readable(x, row, dropped, now) && Readable(y, row, dropped, now)
    ensures Read(View([Table(x), Table(y)], [], []), row, dropped, now, x.key)
         == Read(View([Table(y), Table(x)], [], []), row, dropped, now, x.key)
       <==> (x.ts == y.ts ==> x == y)
  {
    hide Read, CellsOf, RowDeletionsOf, ComplexOf;
    var a, b := View([Table(x), Table(y)], [], []), View([Table(y), Table(x)], [], []);
    TwoTables(x, y);
    TwoTables(y, x);
    ReadIsShown(a, row, dropped, now, x.key);
    ReadIsShown(b, row, dropped, now, x.key);
    PairWinner(x, y);
    PairWinner(y, x);
  }

  lemma {:induction false} PairWinner(x: Cell, y: Cell)
    requires x.key == y.key && !IsTombstone(x) && !IsTombstone(y)
    ensures Winner([x, y], x.key) == Some(if y.ts > x.ts then y else x)
  {
    assert [x][..0] == [];
    assert Winner([x], x.key) == Some(x);
    assert [x, y][..1] == [x] && [x, y][1] == y;
  }

  /** Purging a row deletion that still covers a cell outside the compaction brings
      that cell back. */
  lemma {:induction false} PurgeNeedsBound(c: Cell, d: RowDeletion, row: Row, cfg: Config, now: int)
    requires Readable(c, row, cfg.dropped, now) && c.ts <= d.ts && RowPurgeable(d, cfg)
    ensures var inside := View([Entry(RowTombstone(d), [], None)], [], []);
            var outside := View([Table(c)], [], []);
            && Read(Union(inside, outside), row, cfg.dropped, now, c.key) == None
            && Fits(Union(Merged(inside, row, cfg), outside), row)
            && Read(Union(Merged(inside, row, cfg), outside), row, cfg.dropped, now, c.key) == Some(c)
  {
    hide Merged, Read, CellsOf, RowDeletionsOf, ComplexOf, Winner, Deleted;
    var t := Entry(RowTombstone(d), [], None);
    var inside, outside := View([t], [], []), View([Table(c)], [], []);
    PurgedAway(t, d, row, cfg);
    assert View([], [], []).entries + outside.entries == outside.entries;
    assert Union(Merged(inside, row, cfg), outside) == outside;
    ShownAlone(c, row, cfg.dropped, now);
    ShownUnder(c, d, row, cfg.dropped, now);
  }

  lemma {:induction false} ShownAlone(c: Cell, row: Row, dropped: map<string, int>, now: int)
    requires Readable(c, row, dropped, now)
    ensures Read(View([Table(c)], [], []), row, dropped, now, c.key) == Some(c)
  {
    hide Read, CellsOf, RowDeletionsOf, ComplexOf, Winner;
    OneEntry(Table(c));
    ReadIsShown(View([Table(c)], [], []), row, dropped, now, c.key);
    WinnerTop([c], c.key);
  }

  lemma {:induction false} ShownUnder(c: Cell, d: RowDeletion, row: Row, dropped: map<string, int>, now: int)
    requires Readable(c, row, dropped, now) && c.ts <= d.ts
    ensures Read(Union(View([Entry(RowTombstone(d), [], None)], [], []), View([Table(c)], [], [])),
                 row, dropped, now, c.key) == None
  {
    hide Read, CellsOf, RowDeletionsOf, ComplexOf, Winner;
    var t := Entry(RowTombstone(d), [], None);
    var u := Union(View([t], [], []), View([Table(c)], [], []));
    OneEntry(t);
    OneEntry(Table(c));
    ConcatEntries([t], [Table(c)]);
    ReadIsShown(u, row, dropped, now, c.key);
    WinnerTop(CellsOf(u.entries), c.key);
    assert d in RowDeletionsOf(u.entries);
  }

  lemma {:induction false} PurgedAway(t: Entry, d: RowDeletion, row: Row, cfg: Config)
    requires t == Entry(RowTombstone(d), [], None) && RowPurgeable(d, cfg)
    ensures Merged(View([t], [], []), row, cfg) == View([], [], [])
  {
    hide Reconcile, RT.Coalesced, RT.FloorAt;
    ReconcilePurged(t, d, row.keyColumns, cfg);
    RT.CoalescedSameFloor(row.schema, [], row.ck);
    NoRanges(row.schema);
  }

  lemma {:induction false} ReconcilePurged(t: Entry, d: RowDeletion, keyColumns: set<string>, cfg: Config)
    requires t == Entry(RowTombstone(d), [], None) && RowPurgeable(d, cfg)
    ensures Reconcile([t], keyColumns, cfg) == None
  {
    hide Survivors, Unshadowed, RowDeletionsOf, ComplexOf, CellsOf, MaxRowDeletion, ActiveList, Distinct, RetainMarkers;
    OneEntry(t);
    assert RowDeletionsOf([t]) == [d];
    MaxRowTop([d]);
    if Survivors([t], cfg) != [] {
      SurvivorsAre([t], cfg, Survivors([t], cfg)[0]);
      WinnerTop([], Survivors([t], cfg)[0].key);
    }
    NoEntries(cfg);
    OneEntry(t);
  }

  lemma {:induction false} NoRanges(schema: RT.Schema)
    ensures RT.Coalesced(schema, []) == []
  {
  }
}
