/** Where a compaction's purge settings come from
    (`cqlite-core/src/storage/write_engine/merge/mod.rs`), and that they are safe. */
module Purging {
  import opened Prelude
  import opened Merge
  import opened Compaction
  import RT = RangeTombstones

  const I64_MAX: int := 0x7FFF_FFFF_FFFF_FFFF
  const I64_MIN: int := -0x8000_0000_0000_0000

  /** What `Statistics.db` says of an SSTable outside the compaction. */
  datatype Stats = Unknown | Known(minTimestamp: int)

  /** The least of the minimum timestamps, if there is an SSTable and all are known. */
  function MaxPurgeable(outside: seq<Stats>): Option<int> {
    if outside == [] || (exists i :: 0 <= i < |outside| && outside[i].Unknown?) then None
    else Some(LeastTimestamp(outside))
  }

  function LeastTimestamp(outside: seq<Stats>): int {
    if outside == [] then I64_MAX
    else
      var least, last := LeastTimestamp(outside[..|outside| - 1]), outside[|outside| - 1];
      if last.Known? && last.minTimestamp < least then last.minTimestamp else least
  }

  /** `compute_max_purgeable_timestamp`: gives up at the first SSTable it cannot read. */
  method ComputeMaxPurgeable(outside: seq<Stats>) returns (bound: Option<int>)
    ensures bound == MaxPurgeable(outside)
    ensures bound.Some? <==> outside != [] && forall i :: 0 <= i < |outside| ==> outside[i].Known?
    ensures bound.Some? ==> forall i :: 0 <= i < |outside| ==> bound.value <= outside[i].minTimestamp
    ensures bound.Some? ==> bound.value == I64_MAX || Known(bound.value) in outside
  {
    if outside == [] { return None; }
    var least := I64_MAX;
    var i := 0;
    while i < |outside|
      invariant 0 <= i <= |outside| && least == LeastTimestamp(outside[..i])
      invariant forall j :: 0 <= j < i ==> outside[j].Known? && least <= outside[j].minTimestamp
      invariant least == I64_MAX || Known(least) in outside[..i]
    {
      assert outside[..i + 1][..i] == outside[..i];
      if outside[i].Unknown? { return None; }
      if outside[i].minTimestamp < least { least := outside[i].minTimestamp; }
      i := i + 1;
    }
    assert outside[..i] == outside;
    return Some(least);
  }

  lemma {:induction false} LeastIsLeast(outside: seq<Stats>, i: nat)
    requires i < |outside| && outside[i].Known?
    ensures LeastTimestamp(outside) <= outside[i].minTimestamp
  {
    if i < |outside| - 1 { LeastIsLeast(outside[..|outside| - 1], i); }
  }

  /** A merge's own settings. */
  datatype Settings = Settings(
    purgeSafe: bool, gcBefore: Option<int>, bound: Option<int>, dropped: map<string, int>, now: Option<int>)

  /** `effective_gc_settings`: everything in a full compaction, below the bound in a
      partial one, nothing without a bound. */
  function Effective(s: Settings): Config {
    if s.purgeSafe then Config(s.dropped, s.gcBefore, I64_MAX, s.now)
    else if s.bound.Some? then Config(s.dropped, s.gcBefore, s.bound.value, s.now)
    else Config(s.dropped, None, I64_MIN, s.now)
  }

  /** Every cell outside belongs to an SSTable whose statistics, if they can be read,
      are not above its timestamp. */
  ghost predicate Describes(stats: seq<Stats>, outside: View) {
    forall c :: c in CellsOf(outside.entries) ==> exists i :: 0 <= i < |stats| && Below(stats[i], c.ts)
  }

  predicate Below(s: Stats, ts: int) { s.Known? ==> s.minTimestamp <= ts }

  /** What `maintenance_step` sets when a merge starts: the compaction counts as full
      when no SSTable on disk is left out of it, and otherwise has the bound of those
      that are.  Nothing else is looked at. */
  function Derive(stats: seq<Stats>, gcBefore: Option<int>, dropped: map<string, int>, now: Option<int>): Settings {
    Settings(stats == [], gcBefore, if stats == [] then None else MaxPurgeable(stats), dropped, now)
  }

  lemma {:induction false} LeastAttained(outside: seq<Stats>)
    ensures LeastTimestamp(outside) == I64_MAX || Known(LeastTimestamp(outside)) in outside
  {
    if outside != [] {
      var n := |outside| - 1;
      LeastAttained(outside[..n]);
      assert outside == outside[..n] + [outside[n]];
    }
  }

  /** What a merge purges: below any time in a full compaction, nothing when the
      statistics of an SSTable left out cannot be read, and otherwise below the least of
      their minimum timestamps.  The dropped columns and the clock are as given. */
  lemma {:induction false} DerivedExactly(stats: seq<Stats>, gcBefore: Option<int>, dropped: map<string, int>,
      now: Option<int>)
    ensures var cfg := Effective(Derive(stats, gcBefore, dropped, now));
            && cfg.dropped == dropped && cfg.now == now
            && (stats == [] ==> cfg.gcBefore == gcBefore && cfg.maxPurgeable == I64_MAX)
            && (Unknown in stats ==> cfg.gcBefore.None?)
            && (stats != [] && Unknown !in stats ==>
                  && cfg.gcBefore == gcBefore
                  && (forall i :: 0 <= i < |stats| ==> cfg.maxPurgeable <= stats[i].minTimestamp)
                  && (cfg.maxPurgeable == I64_MAX || Known(cfg.maxPurgeable) in stats))
  {
    if stats != [] && Unknown !in stats {
      forall i | 0 <= i < |stats| ensures stats[i].Known? && LeastTimestamp(stats) <= stats[i].minTimestamp {
        assert stats[i] in stats;
        LeastIsLeast(stats, i);
      }
      LeastAttained(stats);
    }
  }

  /** The derived settings are safe for the SSTables that were on disk. */
  lemma {:induction false} DerivedSafe(stats: seq<Stats>, outside: View, gcBefore: Option<int>,
      dropped: map<string, int>, mergeNow: Option<int>, now: int)
    requires Describes(stats, outside) && (mergeNow.Some? ==> mergeNow.value <= now)
    ensures SafeSettings(outside, Effective(Derive(stats, gcBefore, dropped, mergeNow)), now)
  {
    hide CellsOf;
    var cfg := Effective(Derive(stats, gcBefore, dropped, mergeNow));
    if cfg.gcBefore.Some? {
      forall c | c in CellsOf(outside.entries) ensures cfg.maxPurgeable <= c.ts {
        var i :| 0 <= i < |stats| && Below(stats[i], c.ts);
        assert stats[i].Known?;
        LeastIsLeast(stats, i);
      }
    }
  }

  /** If nothing else exists, compacting any SSTables with the derived settings leaves
      every read of every data column unchanged. */
  lemma {:induction false} DerivedTransparent(inside: View, outside: View, before: View, after: View, row: Row,
      stats: seq<Stats>, gcBefore: Option<int>, dropped: map<string, int>, mergeNow: Option<int>, now: int,
      k: CellKey)
    requires Fits(inside, row) && Fits(outside, row) && Fits(before, row) && Fits(after, row)
    requires k.column !in row.keyColumns
    requires Describes(stats, outside) && (mergeNow.Some? ==> mergeNow.value <= now)
    requires SameMembers(before, Union(inside, outside))
    requires var cfg := Effective(Derive(stats, gcBefore, dropped, mergeNow));
             SameMembers(after, Union(Merged(inside, row, cfg), outside))
    requires !Tied(before, row, dropped, now, k)
    ensures Read(after, row, dropped, now, k) == Read(before, row, dropped, now, k)
  {
    hide Read, Merged, CellsOf, SameMembers, Tied, Describes, SafeSettings;
    DerivedSafe(stats, outside, gcBefore, dropped, mergeNow, now);
    var cfg := Effective(Derive(stats, gcBefore, dropped, mergeNow));
    assert cfg.dropped == dropped;
    CompactionTransparent(inside, outside, before, after, row, cfg, now, k);
  }

  // ----- what a compaction leaves to hide a cell -----

  /** A deletion of the inputs that covers the cell is neither purged nor subsumed. */
  ghost predicate KeptDeletion(v: View, row: Row, cfg: Config, c: Cell)
    requires Fits(v, row)
  {
    var rows, parts := MaxRowDeletion(RowDeletionsOf(v.entries)), MaxRowDeletion(v.deletions);
    var f, p := RangeFloor(v, row), PartitionFloor(v);
    || (rows.Some? && c.ts <= rows.value.ts && !RowPurgeable(rows.value, cfg)
        && Above(rows.value.ts, f) && Above(rows.value.ts, p))
    || (c.key.path.Some? && KeptMarker(v, cfg, c, f, p))
    || KeptRange(v, row, cfg, c, p)
    || (parts.Some? && c.ts <= parts.value.ts && !PartitionPurgeable(parts.value, cfg))
  }

  ghost predicate KeptMarker(v: View, cfg: Config, c: Cell, f: Option<int>, p: Option<int>) {
    var d := ActiveFor(Distinct(ComplexOf(v.entries)), c.key.column);
    && d.Some? && c.ts <= d.value.mfda && !ComplexPurgeable(d.value, cfg)
    && Above(d.value.mfda, f) && Above(d.value.mfda, p)
  }

  ghost predicate KeptRange(v: View, row: Row, cfg: Config, c: Cell, p: Option<int>)
    requires Fits(v, row)
  {
    exists r :: r in RT.Coalesced(row.schema, v.ranges) && RT.Fits(r, |row.ck|) && Covered(row, r)
             && RangeStays(r, p, cfg) && c.ts <= r.mfda
  }

  lemma {:induction false} MergedMarkers(v: View, row: Row, cfg: Config, c: Cell)
    requires Fits(v, row)
    ensures (exists d :: d in ComplexOf(Merged(v, row, cfg).entries) && d.column == c.key.column && c.ts <= d.mfda)
       <==> KeptMarker(v, cfg, c, RangeFloor(v, row), PartitionFloor(v))
  {
    hide MergedRow, RowDeletionsOf, ComplexOf, MaxRowDeletion, RetainMarkers, ActiveList, Distinct, ActiveFor;
    hide RangeFloor, PartitionFloor, Merged, CellsOf, Survivors;
    MergedEntries(v, row, cfg);
    MergedRowHolds(v, row, cfg);
    var all := Distinct(ComplexOf(v.entries));
    forall d: ComplexDeletion
      ensures d in RetainMarkers(ActiveList(all), cfg) <==>
              ActiveFor(all, d.column) == Some(d) && !ComplexPurgeable(d, cfg)
    {
      RetainMarkersMember(ActiveList(all), cfg, d);
      ActiveListIs(all, d);
    }
    ActiveTop(all, c.key.column);
  }

  lemma {:induction false} MergedRanges(v: View, row: Row, cfg: Config, c: Cell)
    requires Fits(v, row) && Fits(Merged(v, row, cfg), row)
    ensures (exists i :: 0 <= i < |Merged(v, row, cfg).ranges| && Covered(row, Merged(v, row, cfg).ranges[i])
                      && c.ts <= Merged(v, row, cfg).ranges[i].mfda)
       <==> KeptRange(v, row, cfg, c, PartitionFloor(v))
  {
    hide MergedRow, RT.Coalesced, Covered, PartitionFloor, RangeStays;
    var out, m := RT.Coalesced(row.schema, v.ranges), Merged(v, row, cfg);
    if i :| 0 <= i < |m.ranges| && Covered(row, m.ranges[i]) && c.ts <= m.ranges[i].mfda {
      assert m.ranges[i] in m.ranges;
    }
    if KeptRange(v, row, cfg, c, PartitionFloor(v)) {
      var r :| r in out && RT.Fits(r, |row.ck|) && Covered(row, r)
               && RangeStays(r, PartitionFloor(v), cfg) && c.ts <= r.mfda;
      assert r in m.ranges;
      var i :| 0 <= i < |m.ranges| && m.ranges[i] == r;
      assert Covered(row, m.ranges[i]);
    }
  }

  /** The output deletes a cell exactly when one of the inputs' greatest deletions covers
      it and is kept. */
  lemma {:induction false} MergedDeletedExactly(v: View, row: Row, cfg: Config, c: Cell)
    requires Fits(v, row) && Fits(Merged(v, row, cfg), row)
    ensures Deleted(Merged(v, row, cfg), row, c) <==> KeptDeletion(v, row, cfg, c)
  {
    hide MergedRow, RowDeletionsOf, ComplexOf, MaxRowDeletion, Survivors, KeptMarker, KeptRange, RangeFloor, Covered;
    MergedEntries(v, row, cfg);
    MergedRowHolds(v, row, cfg);
    MergedMarkers(v, row, cfg, c);
    MergedRanges(v, row, cfg, c);
    var rows := MaxRowDeletion(RowDeletionsOf(v.entries));
    var m := Merged(v, row, cfg);
    assert (exists d :: d in RowDeletionsOf(m.entries) && c.ts <= d.ts) <==>
           (rows.Some? && c.ts <= rows.value.ts && !RowPurgeable(rows.value, cfg)
            && Above(rows.value.ts, RangeFloor(v, row)) && Above(rows.value.ts, PartitionFloor(v))) by {
      if rows.Some? && !RowPurgeable(rows.value, cfg) { assert KeepRow(rows, cfg) == Some(rows.value); }
    }
  }

  /** The winner of the cell's key outranks it and is neither covered, dropped nor, once
      aged, purged. */
  ghost predicate KeptWinner(v: View, row: Row, cfg: Config, c: Cell)
    requires Fits(v, row)
  {
    var x := Winner(CellsOf(v.entries), c.key);
    x.Some? && Leaves(v, row, cfg, Expire(x.value, cfg.now)) && Outranks(Expire(x.value, cfg.now), c)
  }

  /** What the output hides, read off the inputs. */
  lemma {:induction false} MergedHidesExactly(v: View, row: Row, cfg: Config, c: Cell)
    requires Fits(v, row) && Fits(Merged(v, row, cfg), row) && c.key.column !in row.keyColumns
    ensures Hides(Merged(v, row, cfg), row, c) <==> KeptDeletion(v, row, cfg, c) || KeptWinner(v, row, cfg, c)
  {
    hide Merged, CellsOf, Winner, Deleted, KeptDeletion;
    MergedDeletedExactly(v, row, cfg, c);
    MergedKeyCells(v, row, cfg, c.key);
    WinnerTop(CellsOf(v.entries), c.key);
  }

  // ----- the memtable, and what is flushed while the merge is paused -----

  /** A late cell would be shown, was hidden by what is compacted, lies below the bound,
      and no longer has anything to hide it. */
  ghost predicate LateExposed(inside: View, outside: View, late: View, row: Row, cfg: Config, now: int, k: CellKey)
    requires Fits(inside, row) && Fits(outside, row) && Fits(late, row) && Fits(Union(outside, late), row)
  {
    var w := Winner(CellsOf(Union(outside, late).entries), k);
    && w.Some? && w.value in CellsOf(late.entries) && cfg.gcBefore.Some? && w.value.ts < cfg.maxPurgeable
    && Showable(Union(outside, late), row, cfg.dropped, now, w.value)
    && Hides(inside, row, w.value) && !KeptDeletion(inside, row, cfg, w.value) && !KeptWinner(inside, row, cfg, w.value)
  }

  /** With cells that the settings were not derived from, in the memtable or flushed
      since, a compaction leaves a read unchanged exactly when none of them is exposed. */
  lemma {:induction false} LateExactly(inside: View, outside: View, late: View, row: Row, stats: seq<Stats>,
      gcBefore: Option<int>, dropped: map<string, int>, mergeNow: Option<int>, now: int, k: CellKey)
    requires Fits(inside, row) && Fits(outside, row) && Fits(late, row) && k.column !in row.keyColumns
    requires Describes(stats, outside) && (mergeNow.Some? ==> mergeNow.value <= now)
    requires Fits(Union(outside, late), row) && Fits(Union(inside, Union(outside, late)), row)
    requires !Tied(Union(inside, Union(outside, late)), row, dropped, now, k)
    ensures var cfg := Effective(Derive(stats, gcBefore, dropped, mergeNow));
            && Fits(Union(Merged(inside, row, cfg), Union(outside, late)), row)
            && (Read(Union(Merged(inside, row, cfg), Union(outside, late)), row, dropped, now, k)
                == Read(Union(inside, Union(outside, late)), row, dropped, now, k)
                <==> !LateExposed(inside, outside, late, row, cfg, now, k))
  {
    hide Read, Merged, CellsOf, Tied, Deleted, Winner, Hides, KeptDeletion, KeptWinner, Describes;
    var cfg, rest := Effective(Derive(stats, gcBefore, dropped, mergeNow)), Union(outside, late);
    assert cfg.dropped == dropped && cfg.now == mergeNow;
    TransparentExactly(inside, rest, row, cfg, now, k);
    DerivedSafe(stats, outside, gcBefore, dropped, mergeNow, now);
    UnionIs(outside, late, row);
    WinnerTop(CellsOf(rest.entries), k);
    var w := Winner(CellsOf(rest.entries), k);
    if w.Some? {
      MergedHidesExactly(inside, row, cfg, w.value);
      if Showable(rest, row, dropped, now, w.value) && Hides(inside, row, w.value)
         && (cfg.gcBefore.Some? ==> cfg.maxPurgeable <= w.value.ts) {
        StaysHidden(inside, row, cfg, w.value);
      }
    }
  }

  /** A full compaction purges a deletion that still covers a cell in the memtable, and
      the cell comes back. */
  lemma {:induction false} FullCompactionResurrects(c: Cell, d: RowDeletion, row: Row, gcBefore: int,
      dropped: map<string, int>, mergeNow: Option<int>, now: int)
    requires Readable(c, row, dropped, now) && c.ts <= d.ts
    requires RowPurgeable(d, Effective(Derive([], Some(gcBefore), dropped, mergeNow)))
    ensures var inside, late := View([Entry(RowTombstone(d), [], None)], [], []), View([Table(c)], [], []);
            var cfg := Effective(Derive([], Some(gcBefore), dropped, mergeNow));
            && Read(Union(inside, late), row, dropped, now, c.key) == None
            && Fits(Union(Merged(inside, row, cfg), late), row)
            && Read(Union(Merged(inside, row, cfg), late), row, dropped, now, c.key) == Some(c)
  {
    hide Read, Merged;
    PurgeNeedsBound(c, d, row, Effective(Derive([], Some(gcBefore), dropped, mergeNow)), now);
  }

  /** For one row deletion and one late cell: the cell's read is unchanged exactly when
      the cell is newer than the deletion or the deletion is not purged. */
  lemma {:induction false} LateRowDeletionExactly(c: Cell, d: RowDeletion, row: Row, cfg: Config, now: int)
    requires Readable(c, row, cfg.dropped, now) && (cfg.now.Some? ==> cfg.now.value <= now)
    ensures var inside, late := View([Entry(RowTombstone(d), [], None)], [], []), View([Table(c)], [], []);
            && Fits(Union(Merged(inside, row, cfg), late), row)
            && (Read(Union(Merged(inside, row, cfg), late), row, cfg.dropped, now, c.key)
                == Read(Union(inside, late), row, cfg.dropped, now, c.key)
                <==> c.ts > d.ts || !RowPurgeable(d, cfg))
  {
    hide Read, Merged, CellsOf, RowDeletionsOf, ComplexOf, Winner;
    var t := Entry(RowTombstone(d), [], None);
    var inside, late := View([t], [], []), View([Table(c)], [], []);
    if c.ts <= d.ts && RowPurgeable(d, cfg) {
      PurgeNeedsBound(c, d, row, cfg, now);
    } else {
      OneEntry(t);
      OneEntry(Table(c));
      ConcatEntries([t], [Table(c)]);
      assert CellsOf(Union(inside, late).entries) == [c];
      assert !Tied(Union(inside, late), row, cfg.dropped, now, c.key);
      TransparentExactly(inside, late, row, cfg, now, c.key);
      LoneDeletion(c, d, row, cfg);
      WinnerTop([c], c.key);
    }
  }

  lemma {:induction false} LoneDeletion(c: Cell, d: RowDeletion, row: Row, cfg: Config)
    requires c.key.column !in row.keyColumns && (c.ts > d.ts || !RowPurgeable(d, cfg))
    ensures var inside := View([Entry(RowTombstone(d), [], None)], [], []);
            && Fits(Merged(inside, row, cfg), row)
            && (Hides(inside, row, c) ==> Hides(Merged(inside, row, cfg), row, c))
  {
    hide Merged, CellsOf, RowDeletionsOf, ComplexOf, MaxRowDeletion, RT.FloorAt;
    var t := Entry(RowTombstone(d), [], None);
    var inside := View([t], [], []);
    OneEntry(t);
    MergedFits(inside, row, cfg);
    MaxRowTop([d]);
    assert RowDeletionsOf([t]) == [d];
    MaxRowTop([]);
    RT.FloorIsFloor(row.schema, [], row.ck);
    MergedHidesExactly(inside, row, cfg, c);
  }
}
