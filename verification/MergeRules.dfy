/** The rules of reconciliation and purging in numbers: which cells, deletions and
    markers a merge keeps, read off the entries and the settings. */
module MergeRules {
  import opened Prelude
  import opened Merge
  import opened Compaction
  import RT = RangeTombstones

  // ----- the winner, the newest deletion and the active marker -----

  /** The winner is the first cell of its key that no other cell of the key beats: by
      timestamp, and at one timestamp a tombstone beats a live cell. */
  lemma {:induction false} WinnerIsFirst(cells: seq<Cell>, k: CellKey)
    ensures var w := Winner(cells, k);
            && (w.None? <==> forall c :: c in cells ==> c.key != k)
            && (w.Some? ==> exists i :: 0 <= i < |cells| && cells[i] == w.value && FirstOfTop(cells, k, i))
  {
    if cells != [] {
      var n := |cells| - 1;
      WinnerIsFirst(cells[..n], k);
      var best := Winner(cells[..n], k);
      assert cells == cells[..n] + [cells[n]];
      if best.Some? {
        var i :| 0 <= i < n && cells[..n][i] == best.value && FirstOfTop(cells[..n], k, i);
        assert cells[i] == best.value;
        if cells[n].key == k && CellWins(cells[n], best.value) {
          assert FirstOfTop(cells, k, n);
        } else {
          assert FirstOfTop(cells, k, i);
        }
      } else if cells[n].key == k {
        assert FirstOfTop(cells, k, n);
      }
    }
  }

  predicate FirstOfTop(cells: seq<Cell>, k: CellKey, i: nat)
    requires i < |cells|
  {
    && cells[i].key == k
    && (forall j :: 0 <= j < i && cells[j].key == k ==> Beats(cells[i], cells[j]))
    && (forall j :: i < j < |cells| && cells[j].key == k ==> !Beats(cells[j], cells[i]))
  }

  predicate Beats(a: Cell, b: Cell) {
    a.ts > b.ts ||
    (a.ts == b.ts && (a.value.CellTombstone? || a.deleted) && b.value.Live? && !b.deleted)
  }

  /** The newest row deletion; of equals the first, with its local deletion time. */
  lemma {:induction false} NewestIsFirst(dels: seq<RowDeletion>)
    requires dels != []
    ensures exists i :: 0 <= i < |dels| && MaxRowDeletion(dels) == Some(dels[i]) && FirstNewest(dels, i)
  {
    var n := |dels| - 1;
    if n == 0 {
      assert FirstNewest(dels, 0);
    } else {
      NewestIsFirst(dels[..n]);
      var i :| 0 <= i < n && MaxRowDeletion(dels[..n]) == Some(dels[..n][i]) && FirstNewest(dels[..n], i);
      if dels[n].ts > dels[i].ts { assert FirstNewest(dels, n); } else { assert FirstNewest(dels, i); }
    }
  }

  predicate FirstNewest(dels: seq<RowDeletion>, i: nat)
    requires i < |dels|
  {
    (forall j :: 0 <= j < i ==> dels[j].ts < dels[i].ts) && (forall j :: i < j < |dels| ==> dels[j].ts <= dels[i].ts)
  }

  /** The active marker of a column; of equals the first. */
  lemma {:induction false} ActiveIsFirst(cds: seq<ComplexDeletion>, column: string)
    ensures var a := ActiveFor(cds, column);
            && (a.None? <==> forall d :: d in cds ==> d.column != column)
            && (a.Some? ==> exists i :: 0 <= i < |cds| && cds[i] == a.value && FirstActive(cds, column, i))
  {
    if cds != [] {
      var n := |cds| - 1;
      ActiveIsFirst(cds[..n], column);
      var best := ActiveFor(cds[..n], column);
      assert cds == cds[..n] + [cds[n]];
      if best.Some? {
        var i :| 0 <= i < n && cds[..n][i] == best.value && FirstActive(cds[..n], column, i);
        assert cds[i] == best.value;
        if cds[n].column == column && cds[n].mfda > cds[i].mfda {
          assert FirstActive(cds, column, n);
        } else {
          assert FirstActive(cds, column, i);
        }
      } else if cds[n].column == column {
        assert FirstActive(cds, column, n);
      }
    }
  }

  predicate FirstActive(cds: seq<ComplexDeletion>, column: string, i: nat)
    requires i < |cds|
  {
    && cds[i].column == column
    && (forall j :: 0 <= j < i && cds[j].column == column ==> cds[j].mfda < cds[i].mfda)
    && (forall j :: i < j < |cds| && cds[j].column == column ==> cds[j].mfda <= cds[i].mfda)
  }

  // ----- expiry -----

  /** A live cell with a time to live becomes a tombstone once its expiry, read as an
      unsigned 32-bit number, has come; the tombstone is dated at the cell's creation
      and keeps its key and timestamp.  No other cell changes. */
  lemma {:induction false} ExpireExactly(c: Cell, now: Option<int>)
    ensures var r := Expire(c, now);
            if now.Some? && c.value.Live? && !c.deleted && c.ttl.Some? && c.ldt.Some?
               && c.ldt.value % 0x1_0000_0000 <= now.value
            then
              var left := c.ldt.value % 0x1_0000_0000 - c.ttl.value;
              var born := if left < 0 then 0 else left;
              r == Cell(c.key, CellTombstone(born), c.ts, None,
                        Some(if born >= 0x8000_0000 then born - 0x1_0000_0000 else born),
                        c.complexElement, c.deleted || c.complexElement)
            else r == c
  {
  }

  // ----- what the grace period keeps -----

  /** The local deletion time of a tombstone, in seconds: its own, or its value's if that
      is not the placeholder 0; read as an unsigned 32-bit number. */
  predicate InGrace(c: Cell, g: int) {
    if c.ldt.Some? then c.ldt.value % 0x1_0000_0000 >= g
    else if c.value.CellTombstone? && c.value.ldt != 0 then c.value.ldt % 0x1_0000_0000 >= g
    else true
  }

  /** Nothing of the entries covers the cell, and its column was not dropped after it. */
  ghost predicate Uncovered(entries: seq<Entry>, dropped: map<string, int>, x: Cell) {
    && (forall d :: d in RowDeletionsOf(entries) ==> d.ts < x.ts)
    && (x.key.path.Some? ==> forall d :: d in ComplexOf(entries) && d.column == x.key.column ==> d.mfda < x.ts)
    && (x.key.column in dropped ==> dropped[x.key.column] < x.ts)
  }

  /** Reconciliation keeps the aged winner of a data key exactly when nothing covers it
      and it is live, or purging is off, or it is in its grace, or it is not below the
      overlap bound. */
  lemma {:induction false} WinnerKeptExactly(entries: seq<Entry>, keyColumns: set<string>, cfg: Config, x: Cell)
    requires Winner(CellsOf(entries), x.key) == Some(x) && x.key.column !in keyColumns
    ensures var w, r := Expire(x, cfg.now), Reconcile(entries, keyColumns, cfg);
            (r.Some? && r.value.data.LiveRow? && w in r.value.data.cells) <==>
            && Uncovered(entries, cfg.dropped, x)
            && ((w.value.Live? && !w.deleted) || cfg.gcBefore.None? || InGrace(w, cfg.gcBefore.value)
                || w.ts >= cfg.maxPurgeable)
  {
    hide Reconcile, Survivors, Winner, CellsOf, RowDeletionsOf, ComplexOf;
    ReconcileHolds(entries, keyColumns, cfg);
    SurvivorsAre(entries, cfg, Expire(x, cfg.now));
  }

  /** Of a data key nothing but the aged winner is ever kept. */
  lemma {:induction false} OnlyWinnersKept(entries: seq<Entry>, keyColumns: set<string>, cfg: Config, c: Cell)
    requires c.key.column !in keyColumns
    requires var r := Reconcile(entries, keyColumns, cfg);
             r.Some? && r.value.data.LiveRow? && c in r.value.data.cells
    ensures exists x :: Winner(CellsOf(entries), c.key) == Some(x) && c == Expire(x, cfg.now)
  {
    hide Reconcile, Survivors, Winner, CellsOf, RowDeletionsOf, ComplexOf;
    ReconcileHolds(entries, keyColumns, cfg);
    SurvivorsAre(entries, cfg, c);
  }

  /** The newest row deletion is kept exactly when purging is off, its local deletion
      time is the placeholder 0 or in its grace, or it is not below the bound; no other
      row deletion is. */
  lemma {:induction false} RowDeletionKeptExactly(entries: seq<Entry>, keyColumns: set<string>, cfg: Config,
      d: RowDeletion)
    ensures HasRowDeletion(Reconcile(entries, keyColumns, cfg), d) <==>
            && MaxRowDeletion(RowDeletionsOf(entries)) == Some(d)
            && (|| cfg.gcBefore.None? || d.ldt == 0 || d.ldt % 0x1_0000_0000 >= cfg.gcBefore.value
                || d.ts >= cfg.maxPurgeable)
  {
    hide Reconcile, Survivors, MaxRowDeletion, RowDeletionsOf;
    ReconcileHolds(entries, keyColumns, cfg);
  }

  /** The active marker of a column is kept exactly when purging is off, it is in its
      grace, or it is not below the bound; no other marker is. */
  lemma {:induction false} MarkerKeptExactly(entries: seq<Entry>, keyColumns: set<string>, cfg: Config,
      d: ComplexDeletion)
    ensures HasMarker(Reconcile(entries, keyColumns, cfg), d) <==>
            && ActiveFor(Distinct(ComplexOf(entries)), d.column) == Some(d)
            && (cfg.gcBefore.None? || d.ldt % 0x1_0000_0000 >= cfg.gcBefore.value || d.mfda >= cfg.maxPurgeable)
  {
    hide Reconcile, Survivors, ComplexOf, Distinct, ActiveList, ActiveFor, RetainMarkers;
    ReconcileHolds(entries, keyColumns, cfg);
    RetainMarkersMember(ActiveList(Distinct(ComplexOf(entries))), cfg, d);
    ActiveListIs(Distinct(ComplexOf(entries)), d);
  }

  /** A coalesced range is kept exactly when it is newer than the partition deletion and
      purging is off, it is in its grace, or it is not below the bound. */
  lemma {:induction false} RangeKeptExactly(v: View, row: Row, cfg: Config, r: RT.Range)
    requires Fits(v, row)
    ensures r in Merged(v, row, cfg).ranges <==>
            && r in RT.Coalesced(row.schema, v.ranges)
            && (forall d :: d in v.deletions ==> d.ts < r.mfda)
            && (cfg.gcBefore.None? || r.ldt % 0x1_0000_0000 >= cfg.gcBefore.value || r.mfda >= cfg.maxPurgeable)
  {
    hide MergedRow, RT.Coalesced, MaxRowDeletion;
    MaxRowTop(v.deletions);
  }

  /** The newest partition deletion is kept exactly when purging is off, it is in its
      grace, or it is not below the bound; no other is. */
  lemma {:induction false} PartitionKeptExactly(v: View, row: Row, cfg: Config, d: RowDeletion)
    requires Fits(v, row)
    ensures d in Merged(v, row, cfg).deletions <==>
            && MaxRowDeletion(v.deletions) == Some(d)
            && (cfg.gcBefore.None? || d.ldt % 0x1_0000_0000 >= cfg.gcBefore.value || d.ts >= cfg.maxPurgeable)
  {
    hide MergedRow, RT.Coalesced, MaxRowDeletion;
  }

  // ----- rows without data -----

  /** A row whose data was all dropped or purged is not emitted as a live row; one that
      never had data keeps its key cells. */
  lemma {:induction false} NoPhantomRow(surviving: seq<Cell>, rowDel: Option<RowDeletion>,
      complex: seq<ComplexDeletion>, hadDataBefore: bool, keyColumns: set<string>)
    requires forall c :: c in surviving ==> c.key.column in keyColumns
    ensures var r := BuildEntry(surviving, rowDel, complex, hadDataBefore, keyColumns);
            if hadDataBefore || surviving == []
            then (r.None? || r.value.data.RowTombstone? || r.value.data.cells == []) &&
                 (r.None? <==> rowDel.None? && complex == [])
            else r == Some(Entry(LiveRow(surviving), complex, rowDel))
  {
  }

  /** Shadowing keeps the key cells of a row with a cell newer than the floor, and leaves
      no cell of a row without one. */
  lemma {:induction false} ShadowKeyCells(e: Entry, keyColumns: set<string>, floor: int)
    requires e.data.LiveRow? && e.data.cells != []
    ensures var r := Shadow(e, keyColumns, Some(floor));
            if exists c :: c in e.data.cells && c.ts > floor
            then r.Some? && r.value.data.LiveRow? && forall c :: c in r.value.data.cells <==>
                   c in e.data.cells && (c.key.column in keyColumns || c.ts > floor)
            else r.None? || r.value.data.RowTombstone? || r.value.data.cells == []
  {
    hide NewerData, NewerMarkers, RowTimestamp;
    var cells := e.data.cells;
    RowTimestampIs(cells);
    forall c ensures c in NewerData(cells, keyColumns, floor)
                <==> c in cells && (c.key.column in keyColumns || c.ts > floor) {
      NewerDataIs(cells, keyColumns, floor, c);
    }
  }

  lemma {:induction false} RowTimestampIs(cells: seq<Cell>)
    requires cells != []
    ensures exists c :: c in cells && c.ts == RowTimestamp(cells)
    ensures forall c :: c in cells ==> c.ts <= RowTimestamp(cells)
  {
    if |cells| > 1 {
      RowTimestampIs(cells[..|cells| - 1]);
      assert cells == cells[..|cells| - 1] + [cells[|cells| - 1]];
    } else {
      assert cells[0] in cells;
    }
  }
}
