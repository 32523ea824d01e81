/** The clustering-group reconciliation kernel of compaction
    (`cqlite-core/src/storage/write_engine/merge/reconcile.rs`): all versions of one
    row, from several SSTables, become at most one merged entry.

    `ReconcileState` is the source's accumulator with its steps in their fixed order;
    `Reconcile` is the same result as a function of the input entries. */
module Merge {

  import opened Prelude

  // ----- data model -----

  const TWO32: int := 0x1_0000_0000
  const TWO31: int := 0x8000_0000

  /** `i64::from(ldt as u32)`: an on-disk GC-clock second count is unsigned. */
  function Widen(ldt: int): nat { ldt % TWO32 }

  /** `u as i32` for an unsigned 32-bit `u`. */
  function Narrow(u: nat): int { if u % TWO32 >= TWO31 then u % TWO32 - TWO32 else u % TWO32 }

  datatype CellKey = CellKey(column: string, path: Option<seq<nat>>)

  datatype Value = Live(bytes: seq<nat>) | CellTombstone(ldt: int)

  datatype Cell = Cell(
    key: CellKey,
    value: Value,
    ts: int,                 // write timestamp, or markedForDeleteAt of a tombstone
    ttl: Option<nat>,
    ldt: Option<int>,        // wrapped 32-bit local deletion time, if surfaced
    complexElement: bool,
    deleted: bool)

  datatype RowDeletion = RowDeletion(ts: int, ldt: int)

  datatype ComplexDeletion = ComplexDeletion(column: string, mfda: int, ldt: int)

  datatype RowData = LiveRow(cells: seq<Cell>) | RowTombstone(del: RowDeletion)

  datatype Entry = Entry(data: RowData, complex: seq<ComplexDeletion>, rowDeletion: Option<RowDeletion>)

  /** One merge's settings: dropped columns with their drop times, the effective
      gc cutoff, the overlap bound, and the expiry instant. */
  datatype Config = Config(dropped: map<string, int>, gcBefore: Option<int>, maxPurgeable: int, now: Option<int>)

  // ----- the shared rules (`reconcile_rules.rs`) -----

  predicate IsTombstone(c: Cell) { c.value.CellTombstone? || c.deleted }

  /** `candidate` replaces the current winner. */
  predicate CellWins(candidate: Cell, existing: Cell) {
    if candidate.ts != existing.ts then candidate.ts > existing.ts
    else IsTombstone(candidate) && !IsTombstone(existing)
  }

  predicate Supersedes(candidate: ComplexDeletion, active: ComplexDeletion) { candidate.mfda > active.mfda }

  function EffectiveLdt(c: Cell): Option<int> {
    if c.ldt.Some? then c.ldt
    else if c.value.CellTombstone? && c.value.ldt != 0 then Some(c.value.ldt)
    else None
  }

  /** An expiring cell whose expiry instant has come. */
  predicate Expired(c: Cell, now: Option<int>) {
    now.Some? && !IsTombstone(c) && c.ttl.Some? && c.ldt.Some? && Widen(c.ldt.value) <= now.value
  }

  /** `localDeletionTime - ttl`, saturating: the cell's creation second. */
  function CreationSecond(c: Cell): nat
    requires c.ttl.Some? && c.ldt.Some?
  {
    if Widen(c.ldt.value) < c.ttl.value then 0 else Widen(c.ldt.value) - c.ttl.value
  }

  /** An expired cell becomes a tombstone at its own timestamp and path. */
  function Expire(c: Cell, now: Option<int>): (r: Cell)
    ensures r.key == c.key && r.ts == c.ts
  {
    if Expired(c, now) then
      c.(value := CellTombstone(CreationSecond(c)), ttl := None, ldt := Some(Narrow(CreationSecond(c))),
         deleted := c.deleted || c.complexElement)
    else c
  }

  predicate CellPurgeable(c: Cell, cfg: Config) {
    cfg.gcBefore.Some? && IsTombstone(c) && EffectiveLdt(c).Some? &&
    Widen(EffectiveLdt(c).value) < cfg.gcBefore.value && c.ts < cfg.maxPurgeable
  }

  predicate RowPurgeable(d: RowDeletion, cfg: Config) {
    cfg.gcBefore.Some? && d.ldt != 0 && Widen(d.ldt) < cfg.gcBefore.value && d.ts < cfg.maxPurgeable
  }

  predicate ComplexPurgeable(d: ComplexDeletion, cfg: Config) {
    cfg.gcBefore.Some? && Widen(d.ldt) < cfg.gcBefore.value && d.mfda < cfg.maxPurgeable
  }

  // ----- sequences -----

  /** A condition on cells. */
  datatype Test =
    | NotRowShadowed(rd: Option<RowDeletion>)
    | NotDropped(dropped: map<string, int>)
    | NotPurged(cfg: Config)
  {
    predicate Holds(c: Cell) {
      match this
      case NotRowShadowed(rd) => !RowShadows(rd, c)
      case NotDropped(dropped) => !DropShadows(dropped, c)
      case NotPurged(cfg) => !CellPurgeable(c, cfg)
    }
  }

  function Retain(s: seq<Cell>, t: Test): seq<Cell> {
    if s == [] then []
    else
      var last := s[|s| - 1];
      Retain(s[..|s| - 1], t) + if t.Holds(last) then [last] else []
  }

  lemma {:induction false} RetainMember(s: seq<Cell>, t: Test, c: Cell)
    ensures c in Retain(s, t) <==> c in s && t.Holds(c)
  {
    if s != [] {
      RetainMember(s[..|s| - 1], t, c);
      assert s == s[..|s| - 1] + [s[|s| - 1]];
    }
  }

  function RetainMarkers(s: seq<ComplexDeletion>, cfg: Config): seq<ComplexDeletion> {
    if s == [] then []
    else
      var last := s[|s| - 1];
      RetainMarkers(s[..|s| - 1], cfg) + if ComplexPurgeable(last, cfg) then [] else [last]
  }

  lemma {:induction false} RetainMarkersMember(s: seq<ComplexDeletion>, cfg: Config, d: ComplexDeletion)
    ensures d in RetainMarkers(s, cfg) <==> d in s && !ComplexPurgeable(d, cfg)
  {
    if s != [] {
      RetainMarkersMember(s[..|s| - 1], cfg, d);
      assert s == s[..|s| - 1] + [s[|s| - 1]];
    }
  }

  function RetainKeys(keys: seq<CellKey>, w: map<CellKey, Cell>,
      active: map<string, ComplexDeletion>): (r: seq<CellKey>)
    ensures forall k :: k in r <==> k in keys && k in w && !ComplexShadows(active, w[k])
  {
    if keys == [] then []
    else
      var last := keys[|keys| - 1];
      assert keys == keys[..|keys| - 1] + [last];
      RetainKeys(keys[..|keys| - 1], w, active) +
      if last in w && !ComplexShadows(active, w[last]) then [last] else []
  }

  function ExpireAll(s: seq<Cell>, now: Option<int>): (r: seq<Cell>)
    ensures |r| == |s|
    ensures forall i :: 0 <= i < |s| ==> r[i] == Expire(s[i], now)
  {
    seq(|s|, i requires 0 <= i < |s| => Expire(s[i], now))
  }

  // ----- what a group of entries says -----

  function CellsOf(entries: seq<Entry>): seq<Cell> {
    if entries == [] then []
    else
      var e := entries[|entries| - 1];
      CellsOf(entries[..|entries| - 1]) + if e.data.LiveRow? then e.data.cells else []
  }

  function RowDeletionsIn(e: Entry): seq<RowDeletion> {
    (if e.rowDeletion.Some? then [e.rowDeletion.value] else []) +
    (if e.data.RowTombstone? then [e.data.del] else [])
  }

  function RowDeletionsOf(entries: seq<Entry>): seq<RowDeletion> {
    if entries == [] then []
    else RowDeletionsOf(entries[..|entries| - 1]) + RowDeletionsIn(entries[|entries| - 1])
  }

  function ComplexOf(entries: seq<Entry>): seq<ComplexDeletion> {
    if entries == [] then []
    else ComplexOf(entries[..|entries| - 1]) + entries[|entries| - 1].complex
  }

  /** The greatest row deletion; the first of equals keeps its local deletion time. */
  function MaxRowDeletion(dels: seq<RowDeletion>): Option<RowDeletion> {
    if dels == [] then None
    else FoldRowDeletion(MaxRowDeletion(dels[..|dels| - 1]), dels[|dels| - 1])
  }

  function FoldRowDeletion(best: Option<RowDeletion>, d: RowDeletion): Option<RowDeletion> {
    if best.None? || d.ts > best.value.ts then Some(d) else best
  }

  /** The winning cell for a key: the first among the greatest. */
  function Winner(cells: seq<Cell>, k: CellKey): Option<Cell> {
    if cells == [] then None
    else
      var best, c := Winner(cells[..|cells| - 1], k), cells[|cells| - 1];
      if c.key == k && (best.None? || CellWins(c, best.value)) then Some(c) else best
  }

  function FirstSeen(cells: seq<Cell>): seq<CellKey> {
    if cells == [] then []
    else
      var keys, k := FirstSeen(cells[..|cells| - 1]), cells[|cells| - 1].key;
      if k in keys then keys else keys + [k]
  }

  function Distinct(cds: seq<ComplexDeletion>): seq<ComplexDeletion> {
    if cds == [] then []
    else
      var seen, cd := Distinct(cds[..|cds| - 1]), cds[|cds| - 1];
      if cd in seen then seen else seen + [cd]
  }

  /** The active deletion of a column: the first among the greatest. */
  function ActiveFor(cds: seq<ComplexDeletion>, column: string): Option<ComplexDeletion> {
    if cds == [] then None
    else
      var best, cd := ActiveFor(cds[..|cds| - 1], column), cds[|cds| - 1];
      if cd.column == column && (best.None? || Supersedes(cd, best.value)) then Some(cd) else best
  }

  function ColumnsSeen(cds: seq<ComplexDeletion>): seq<string> {
    if cds == [] then []
    else
      var cols, c := ColumnsSeen(cds[..|cds| - 1]), cds[|cds| - 1].column;
      if c in cols then cols else cols + [c]
  }

  predicate ComplexShadows(active: map<string, ComplexDeletion>, c: Cell) {
    c.key.path.Some? && c.key.column in active && c.ts <= active[c.key.column].mfda
  }

  predicate RowShadows(rowDel: Option<RowDeletion>, c: Cell) {
    rowDel.Some? && c.ts <= rowDel.value.ts
  }

  predicate DropShadows(dropped: map<string, int>, c: Cell) {
    c.key.column in dropped && c.ts <= dropped[c.key.column]
  }

  predicate HasData(cells: seq<Cell>, keyColumns: set<string>) {
    exists c :: c in cells && c.key.column !in keyColumns
  }

  // ----- the accumulator and its steps -----

  class ReconcileState {
    const keyColumns: set<string>
    var started: bool
    var rowDel: Option<RowDeletion>
    var order: seq<CellKey>
    var winners: map<CellKey, Cell>
    var complex: seq<ComplexDeletion>
    var afterRowDel: seq<Cell>
    var surviving: seq<Cell>
    var hadDataBefore: bool
    // purge tally
    var purgedCells: nat
    var purgedRows: nat
    var purgedComplex: nat

    constructor (keyColumns: set<string>)
      ensures this.keyColumns == keyColumns && !started
      ensures rowDel == None && order == [] && winners == map[] && complex == []
      ensures afterRowDel == [] && surviving == [] && !hadDataBefore
      ensures purgedCells == purgedRows == purgedComplex == 0
    {
      this.keyColumns := keyColumns;
      started, rowDel, order, winners, complex := false, None, [], map[], [];
      afterRowDel, surviving, hadDataBefore := [], [], false;
      purgedCells, purgedRows, purgedComplex := 0, 0, 0;
    }

    /** Step 1. */
    method FoldRowDeletions(rows: seq<Entry>)
      requires !started && rowDel == None && complex == []
      modifies this`started, this`rowDel, this`complex
      ensures started == (rows != [])
      ensures rowDel == MaxRowDeletion(RowDeletionsOf(rows))
      ensures complex == Distinct(ComplexOf(rows))
    {
      var i := 0;
      while i < |rows|
        invariant 0 <= i <= |rows|
        invariant started == (i > 0)
        invariant rowDel == MaxRowDeletion(RowDeletionsOf(rows[..i]))
        invariant complex == Distinct(ComplexOf(rows[..i]))
      {
        assert rows[..i + 1][..i] == rows[..i];
        started := true;
        AddComplex(ComplexOf(rows[..i]), rows[i].complex);
        AddRowDeletions(RowDeletionsOf(rows[..i]), rows[i]);
        i := i + 1;
      }
      assert rows[..i] == rows;
    }

    method AddComplex(ghost before: seq<ComplexDeletion>, cds: seq<ComplexDeletion>)
      requires complex == Distinct(before)
      modifies this`complex
      ensures complex == Distinct(before + cds)
    {
      var j := 0;
      assert before + cds[..0] == before;
      while j < |cds|
        invariant 0 <= j <= |cds|
        invariant complex == Distinct(before + cds[..j])
      {
        assert before + cds[..j + 1] == (before + cds[..j]) + [cds[j]];
        DistinctSnoc(before + cds[..j], cds[j]);
        if cds[j] !in complex {
          complex := complex + [cds[j]];
        }
        j := j + 1;
      }
      assert cds[..j] == cds;
    }

    method AddRowDeletions(ghost before: seq<RowDeletion>, entry: Entry)
      requires rowDel == MaxRowDeletion(before)
      modifies this`rowDel
      ensures rowDel == MaxRowDeletion(before + RowDeletionsIn(entry))
    {
      ghost var dels := before;
      if entry.rowDeletion.Some? {
        MaxSnoc(dels, entry.rowDeletion.value);
        rowDel := FoldRowDeletion(rowDel, entry.rowDeletion.value);
        dels := dels + [entry.rowDeletion.value];
      }
      if entry.data.RowTombstone? {
        MaxSnoc(dels, entry.data.del);
        rowDel := FoldRowDeletion(rowDel, entry.data.del);
        dels := dels + [entry.data.del];
      }
      assert dels == before + RowDeletionsIn(entry);
    }

    /** Step 2. */
    method ResolveCellWinners(rows: seq<Entry>)
      requires order == [] && winners == map[]
      modifies this`order, this`winners
      ensures order == FirstSeen(CellsOf(rows))
      ensures Tracks(winners, CellsOf(rows))
    {
      var i := 0;
      while i < |rows|
        invariant 0 <= i <= |rows|
        invariant order == FirstSeen(CellsOf(rows[..i]))
        invariant Tracks(winners, CellsOf(rows[..i]))
      {
        assert rows[..i + 1][..i] == rows[..i];
        if rows[i].data.LiveRow? {
          AddCells(CellsOf(rows[..i]), rows[i].data.cells);
        } else {
          assert CellsOf(rows[..i]) + [] == CellsOf(rows[..i]);
        }
        i := i + 1;
      }
      assert rows[..i] == rows;
    }

    method AddCells(ghost before: seq<Cell>, cells: seq<Cell>)
      requires order == FirstSeen(before) && Tracks(winners, before)
      modifies this`order, this`winners
      ensures order == FirstSeen(before + cells) && Tracks(winners, before + cells)
    {
      hide Winner, FirstSeen;
      var j := 0;
      assert before + cells[..0] == before;
      while j < |cells|
        invariant 0 <= j <= |cells|
        invariant order == FirstSeen(before + cells[..j])
        invariant Tracks(winners, before + cells[..j])
      {
        var cell := cells[j];
        assert before + cells[..j + 1] == (before + cells[..j]) + [cell];
        WinnerSnoc(before + cells[..j], cell);
        if cell.key !in winners {
          order := order + [cell.key];
          winners := winners[cell.key := cell];
        } else if CellWins(cell, winners[cell.key]) {
          winners := winners[cell.key := cell];
        }
        j := j + 1;
      }
      assert cells[..j] == cells;
    }

    /** Step 2b: one active deletion per column, then drop the elements it covers. */
    method ApplyComplexDeletions()
      requires forall k :: k in order ==> k in winners
      modifies this`order, this`winners, this`complex
      ensures complex == ActiveList(old(complex))
      ensures order == RetainKeys(old(order), old(winners), ActiveMap(old(complex)))
      ensures forall k :: k in order ==> k in winners && winners[k] == old(winners)[k]
    {
      hide ActiveList, ActiveMap, ColumnsSeen, ActiveFor;
      var active, activeOrder := ActivePerColumn();
      order := RetainKeys(order, winners, active);
      winners := map k | k in winners && !ComplexShadows(active, winners[k]) :: winners[k];
      RebuildComplex(active, activeOrder);
    }

    /** The superseding deletion of each column, and the columns in first-seen order. */
    method ActivePerColumn() returns (active: map<string, ComplexDeletion>, activeOrder: seq<string>)
      ensures active == ActiveMap(complex) && activeOrder == ColumnsSeen(complex)
    {
      active, activeOrder := map[], [];
      var i := 0;
      while i < |complex|
        invariant 0 <= i <= |complex|
        invariant activeOrder == ColumnsSeen(complex[..i])
        invariant TracksActive(active, complex[..i])
      {
        var cd := complex[i];
        assert complex[..i + 1] == complex[..i] + [cd];
        ActiveSnoc(complex[..i], cd);
        if cd.column !in active {
          activeOrder := activeOrder + [cd.column];
          active := active[cd.column := cd];
        } else if Supersedes(cd, active[cd.column]) {
          active := active[cd.column := cd];
        }
        i := i + 1;
      }
      assert complex[..i] == complex;
      ActiveMapIs(active, complex);
    }

    /** The list again, from the columns in their order. */
    method RebuildComplex(active: map<string, ComplexDeletion>, activeOrder: seq<string>)
      requires active == ActiveMap(complex) && activeOrder == ColumnsSeen(complex)
      modifies this`complex
      ensures complex == ActiveList(old(complex))
    {
      ghost var all := ActiveList(complex);
      ColumnsActive(complex);
      var rebuilt: seq<ComplexDeletion> := [];
      for j := 0 to |activeOrder|
        invariant rebuilt == all[..j] && complex == old(complex)
      {
        assert activeOrder[j] in activeOrder;
        rebuilt := rebuilt + [active[activeOrder[j]]];
      }
      assert all[..|activeOrder|] == all;
      complex := rebuilt;
    }

    /** Step 3. */
    method ShadowByRowDeletion()
      requires forall k :: k in order ==> k in winners
      modifies this`afterRowDel, this`order
      ensures afterRowDel == Retain(Collect(old(order), winners), NotRowShadowed(rowDel))
      ensures forall c :: c in afterRowDel <==>
                c in Collect(old(order), winners) && (rowDel.Some? ==> c.ts > rowDel.value.ts)
    {
      var cells, kept := Collect(order, winners), [];
      for i := 0 to |cells|
        invariant kept == Retain(cells[..i], NotRowShadowed(rowDel))
      {
        assert cells[..i + 1][..i] == cells[..i];
        if rowDel.None? || cells[i].ts > rowDel.value.ts { kept := kept + [cells[i]]; }
      }
      assert cells[..|cells|] == cells;
      forall c ensures c in kept <==> c in cells && NotRowShadowed(rowDel).Holds(c) {
        RetainMember(cells, NotRowShadowed(rowDel), c);
      }
      afterRowDel := kept;
      order := [];
    }

    /** Step 3b. */
    method FilterDroppedColumns(dropped: map<string, int>)
      modifies this`surviving, this`hadDataBefore, this`afterRowDel
      ensures hadDataBefore == HasData(old(afterRowDel), keyColumns)
      ensures surviving == Retain(old(afterRowDel), NotDropped(dropped))
      ensures forall c :: c in surviving <==>
                c in old(afterRowDel) && (c.key.column in dropped ==> c.ts > dropped[c.key.column])
    {
      hadDataBefore := HasData(afterRowDel, keyColumns);
      var kept: seq<Cell> := [];
      for i := 0 to |afterRowDel|
        invariant kept == Retain(afterRowDel[..i], NotDropped(dropped)) && afterRowDel == old(afterRowDel)
      {
        var c := afterRowDel[i];
        assert afterRowDel[..i + 1][..i] == afterRowDel[..i];
        if c.key.column !in dropped || c.ts > dropped[c.key.column] { kept := kept + [c]; }
      }
      assert afterRowDel[..|afterRowDel|] == afterRowDel;
      forall c ensures c in kept <==> c in afterRowDel && NotDropped(dropped).Holds(c) {
        RetainMember(afterRowDel, NotDropped(dropped), c);
      }
      surviving := kept;
      afterRowDel := [];
    }

    /** Step 3b': expiry, in place. */
    method ExpireTtlCells(now: Option<int>)
      modifies this`surviving
      ensures surviving == ExpireAll(old(surviving), now)
    {
      ghost var before := surviving;
      if now.None? {
        assert surviving == ExpireAll(before, now);
        return;
      }
      var i := 0;
      while i < |surviving|
        invariant 0 <= i <= |surviving| == |before|
        invariant forall j :: 0 <= j < i ==> surviving[j] == Expire(before[j], now)
        invariant forall j :: i <= j < |before| ==> surviving[j] == before[j]
      {
        surviving := surviving[i := Expire(surviving[i], now)];
        i := i + 1;
      }
    }

    /** Step 3c: purge what is past its grace and shadows nothing outside. */
    method PurgeGcGrace(cfg: Config)
      modifies this`surviving, this`rowDel, this`complex, this`purgedCells, this`purgedRows, this`purgedComplex
      ensures surviving == Retain(old(surviving), NotPurged(cfg))
      ensures complex == RetainMarkers(old(complex), cfg)
      ensures rowDel == KeepRow(old(rowDel), cfg)
      // every marker is either still there or counted
      ensures |surviving| + purgedCells == old(|surviving| + purgedCells)
      ensures |complex| + purgedComplex == old(|complex| + purgedComplex)
      ensures purgedRows == old(purgedRows) + (if rowDel != old(rowDel) then 1 else 0)
    {
      if cfg.gcBefore.None? {
        NoCellPurged(surviving, cfg);
        NoMarkerPurged(complex, cfg);
        return;
      }
      PurgeCells(cfg);
      if rowDel.Some? && RowPurgeable(rowDel.value, cfg) {
        rowDel := None;
        purgedRows := purgedRows + 1;
      }
      PurgeMarkers(cfg);
    }

    method PurgeCells(cfg: Config)
      modifies this`surviving, this`purgedCells
      ensures surviving == Retain(old(surviving), NotPurged(cfg))
      ensures |surviving| + purgedCells == old(|surviving| + purgedCells)
    {
      var kept: seq<Cell> := [];
      var i := 0;
      while i < |surviving|
        invariant 0 <= i <= |surviving| && surviving == old(surviving)
        invariant kept == Retain(surviving[..i], NotPurged(cfg))
        invariant |kept| + purgedCells == i + old(purgedCells)
      {
        assert surviving[..i + 1][..i] == surviving[..i];
        if CellPurgeable(surviving[i], cfg) {
          purgedCells := purgedCells + 1;
        } else {
          kept := kept + [surviving[i]];
        }
        i := i + 1;
      }
      assert surviving[..i] == surviving;
      surviving := kept;
    }

    method PurgeMarkers(cfg: Config)
      modifies this`complex, this`purgedComplex
      ensures complex == RetainMarkers(old(complex), cfg)
      ensures |complex| + purgedComplex == old(|complex| + purgedComplex)
    {
      var markers: seq<ComplexDeletion> := [];
      var i := 0;
      while i < |complex|
        invariant 0 <= i <= |complex| && complex == old(complex)
        invariant markers == RetainMarkers(complex[..i], cfg)
        invariant |markers| + purgedComplex == i + old(purgedComplex)
      {
        assert complex[..i + 1][..i] == complex[..i];
        if ComplexPurgeable(complex[i], cfg) {
          purgedComplex := purgedComplex + 1;
        } else {
          markers := markers + [complex[i]];
        }
        i := i + 1;
      }
      assert complex[..i] == complex;
      complex := markers;
    }

    /** Step 4. */
    method Build() returns (r: Option<Entry>)
      ensures r == if started then BuildEntry(surviving, rowDel, complex, hadDataBefore, keyColumns) else None
      // nothing that survived is lost: data cells, the row deletion, the markers
      ensures started ==> forall c: Cell :: c.key.column !in keyColumns ==>
                (c in surviving <==> r.Some? && r.value.data.LiveRow? && c in r.value.data.cells)
      ensures started ==>
                rowDel == if r.None? then None
                          else if r.value.data.RowTombstone? then Some(r.value.data.del) else r.value.rowDeletion
      ensures started ==> complex == if r.None? then [] else r.value.complex
    {
      if !started { return None; }
      var purgedToEmpty := hadDataBefore && !HasData(surviving, keyColumns);
      if surviving != [] && !purgedToEmpty {
        return Some(Entry(LiveRow(surviving), complex, rowDel));
      } else if rowDel.Some? {
        return Some(Entry(RowTombstone(rowDel.value), complex, None));
      } else if complex != [] {
        return Some(Entry(LiveRow([]), complex, None));
      } else {
        return None;
      }
    }
  }

  // ----- the result as a function of the entries -----

  function Collect(keys: seq<CellKey>, winners: map<CellKey, Cell>): seq<Cell>
    requires forall k :: k in keys ==> k in winners
  {
    seq(|keys|, i requires 0 <= i < |keys| => winners[keys[i]])
  }

  function WinnerMap(cells: seq<Cell>): map<CellKey, Cell> {
    map k | k in FirstSeen(cells) && Winner(cells, k).Some? :: Winner(cells, k).value
  }

  function ActiveMap(cds: seq<ComplexDeletion>): map<string, ComplexDeletion> {
    map col | col in ColumnsSeen(cds) && ActiveFor(cds, col).Some? :: ActiveFor(cds, col).value
  }

  function ActiveList(cds: seq<ComplexDeletion>): seq<ComplexDeletion> {
    ColumnsActive(cds);
    seq(|ColumnsSeen(cds)|, i requires 0 <= i < |ColumnsSeen(cds)| => ActiveFor(cds, ColumnsSeen(cds)[i]).value)
  }

  function KeepRow(rowDel: Option<RowDeletion>, cfg: Config): Option<RowDeletion> {
    if rowDel.Some? && RowPurgeable(rowDel.value, cfg) then None else rowDel
  }

  function BuildEntry(surviving: seq<Cell>, rowDel: Option<RowDeletion>, complex: seq<ComplexDeletion>,
      hadDataBefore: bool, keyColumns: set<string>): Option<Entry>
  {
    if surviving != [] && !(hadDataBefore && !HasData(surviving, keyColumns)) then
      Some(Entry(LiveRow(surviving), complex, rowDel))
    else if rowDel.Some? then Some(Entry(RowTombstone(rowDel.value), complex, None))
    else if complex != [] then Some(Entry(LiveRow([]), complex, None))
    else None
  }

  /** Cells left after the deletions of the group itself. */
  function Unshadowed(entries: seq<Entry>): seq<Cell> {
    var cells := CellsOf(entries);
    var w := WinnerMap(cells);
    var active := ActiveMap(Distinct(ComplexOf(entries)));
    var rd := MaxRowDeletion(RowDeletionsOf(entries));
    Retain(Collect(RetainKeys(FirstSeen(cells), w, active), w), NotRowShadowed(rd))
  }

  function Survivors(entries: seq<Entry>, cfg: Config): seq<Cell> {
    Retain(ExpireAll(Retain(Unshadowed(entries), NotDropped(cfg.dropped)), cfg.now), NotPurged(cfg))
  }

  function Reconcile(entries: seq<Entry>, keyColumns: set<string>, cfg: Config): Option<Entry> {
    if entries == [] then None
    else
      BuildEntry(Survivors(entries, cfg),
                 KeepRow(MaxRowDeletion(RowDeletionsOf(entries)), cfg),
                 RetainMarkers(ActiveList(Distinct(ComplexOf(entries))), cfg),
                 HasData(Unshadowed(entries), keyColumns), keyColumns)
  }

  /** `reconcile_cluster_with_overlap_counted`: the steps in their order. */
  method ReconcileCluster(rows: seq<Entry>, keyColumns: set<string>, cfg: Config) returns (r: Option<Entry>)
    ensures r == Reconcile(rows, keyColumns, cfg)
  {
    hide MaxRowDeletion, RowDeletionsOf, CellsOf, ComplexOf, Distinct, Winner, FirstSeen, Retain, RetainKeys;
    hide RetainMarkers, ActiveList, ActiveMap, WinnerMap, BuildEntry, ExpireAll, KeepRow;
    var state := new ReconcileState(keyColumns);
    state.FoldRowDeletions(rows);
    state.ResolveCellWinners(rows);
    if !state.started { return None; }
    var cells := CellsOf(rows);
    TracksIsWinnerMap(state.winners, cells);
    FirstSeenTracked(cells);
    ghost var w := state.winners;
    state.ApplyComplexDeletions();
    ghost var keys := state.order;
    state.ShadowByRowDeletion();
    CollectAgree(keys, state.winners, w);
    state.FilterDroppedColumns(cfg.dropped);
    state.ExpireTtlCells(cfg.now);
    state.PurgeGcGrace(cfg);
    r := state.Build();
  }

  // ----- bookkeeping lemmas -----

  ghost predicate Tracks(w: map<CellKey, Cell>, cells: seq<Cell>) {
    forall k :: (k in w <==> Winner(cells, k).Some?) && (k in w ==> w[k] == Winner(cells, k).value)
  }

  ghost predicate TracksActive(a: map<string, ComplexDeletion>, cds: seq<ComplexDeletion>) {
    forall col :: (col in a <==> ActiveFor(cds, col).Some?) && (col in a ==> a[col] == ActiveFor(cds, col).value)
  }

  lemma {:induction false} DistinctSnoc(cds: seq<ComplexDeletion>, cd: ComplexDeletion)
    ensures Distinct(cds + [cd]) == if cd in Distinct(cds) then Distinct(cds) else Distinct(cds) + [cd]
  {
    assert (cds + [cd])[..|cds|] == cds;
  }

  lemma {:induction false} MaxSnoc(dels: seq<RowDeletion>, d: RowDeletion)
    ensures MaxRowDeletion(dels + [d]) == FoldRowDeletion(MaxRowDeletion(dels), d)
  {
    assert (dels + [d])[..|dels|] == dels;
  }

  lemma {:induction false} FirstSeenWinner(cells: seq<Cell>, k: CellKey)
    ensures k in FirstSeen(cells) <==> Winner(cells, k).Some?
    ensures Winner(cells, k).Some? ==> Winner(cells, k).value.key == k
  {
    if cells != [] { FirstSeenWinner(cells[..|cells| - 1], k); }
  }

  lemma {:induction false} WinnerSnoc(cells: seq<Cell>, c: Cell)
    ensures forall k :: Winner(cells + [c], k) ==
              if c.key == k && (Winner(cells, k).None? || CellWins(c, Winner(cells, k).value)) then Some(c)
              else Winner(cells, k)
    ensures FirstSeen(cells + [c]) ==
              if Winner(cells, c.key).Some? then FirstSeen(cells) else FirstSeen(cells) + [c.key]
  {
    assert (cells + [c])[..|cells|] == cells;
    FirstSeenWinner(cells, c.key);
  }

  lemma {:induction false} ColumnActive(cds: seq<ComplexDeletion>, col: string)
    ensures col in ColumnsSeen(cds) <==> ActiveFor(cds, col).Some?
    ensures ActiveFor(cds, col).Some? ==> ActiveFor(cds, col).value.column == col
  {
    if cds != [] { ColumnActive(cds[..|cds| - 1], col); }
  }

  lemma {:induction false} ColumnsActive(cds: seq<ComplexDeletion>)
    ensures forall i :: 0 <= i < |ColumnsSeen(cds)| ==> ActiveFor(cds, ColumnsSeen(cds)[i]).Some?
  {
    forall i | 0 <= i < |ColumnsSeen(cds)| ensures ActiveFor(cds, ColumnsSeen(cds)[i]).Some? {
      ColumnActive(cds, ColumnsSeen(cds)[i]);
    }
  }

  lemma {:induction false} ActiveSnoc(cds: seq<ComplexDeletion>, cd: ComplexDeletion)
    ensures forall col :: ActiveFor(cds + [cd], col) ==
              if cd.column == col && (ActiveFor(cds, col).None? || Supersedes(cd, ActiveFor(cds, col).value))
              then Some(cd) else ActiveFor(cds, col)
    ensures ColumnsSeen(cds + [cd]) ==
              if ActiveFor(cds, cd.column).Some? then ColumnsSeen(cds) else ColumnsSeen(cds) + [cd.column]
  {
    assert (cds + [cd])[..|cds|] == cds;
    ColumnActive(cds, cd.column);
  }

  lemma {:induction false} ActiveMapIs(a: map<string, ComplexDeletion>, cds: seq<ComplexDeletion>)
    requires TracksActive(a, cds)
    ensures a == ActiveMap(cds)
  {
    forall col ensures col in ActiveMap(cds) <==> ActiveFor(cds, col).Some? {
      ColumnActive(cds, col);
    }
  }

  lemma {:induction false} TracksIsWinnerMap(w: map<CellKey, Cell>, cells: seq<Cell>)
    requires Tracks(w, cells)
    ensures w == WinnerMap(cells)
  {
    forall k ensures k in WinnerMap(cells) <==> Winner(cells, k).Some? {
      FirstSeenWinner(cells, k);
    }
  }

  lemma {:induction false} FirstSeenTracked(cells: seq<Cell>)
    ensures forall k :: k in FirstSeen(cells) ==> k in WinnerMap(cells)
  {
    forall k | k in FirstSeen(cells) ensures k in WinnerMap(cells) { FirstSeenWinner(cells, k); }
  }

  lemma {:induction false} CollectAgree(keys: seq<CellKey>, w: map<CellKey, Cell>, v: map<CellKey, Cell>)
    requires forall k :: k in keys ==> k in w && k in v && w[k] == v[k]
    ensures Collect(keys, w) == Collect(keys, v)
  {
    forall i | 0 <= i < |keys| ensures w[keys[i]] == v[keys[i]] { assert keys[i] in keys; }
  }

  lemma {:induction false} NoCellPurged(s: seq<Cell>, cfg: Config)
    requires cfg.gcBefore.None?
    ensures Retain(s, NotPurged(cfg)) == s
  {
    if s != [] {
      NoCellPurged(s[..|s| - 1], cfg);
      assert s == s[..|s| - 1] + [s[|s| - 1]];
    }
  }

  lemma {:induction false} NoMarkerPurged(ds: seq<ComplexDeletion>, cfg: Config)
    requires cfg.gcBefore.None?
    ensures RetainMarkers(ds, cfg) == ds
  {
    if ds != [] {
      NoMarkerPurged(ds[..|ds| - 1], cfg);
      assert ds == ds[..|ds| - 1] + [ds[|ds| - 1]];
    }
  }
}
