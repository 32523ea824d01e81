/** The order of the SSTables proper: the versions of a row permuted, each kept whole. */
module Reordering {
  import opened Prelude
  import opened Merge
  import opened Compaction
  import opened Sorting

  /** A version of a row holds at most one cell per key. */
  predicate OneCellPerKey(e: Entry) {
    e.data.LiveRow? ==>
      forall i, j :: 0 <= i < j < |e.data.cells| ==> e.data.cells[i].key != e.data.cells[j].key
  }

  ghost predicate Reordered(a: View, b: View) {
    multiset(a.entries) == multiset(b.entries) && a.ranges == b.ranges && a.deletions == b.deletions
  }

  lemma {:induction false} CellsMember(entries: seq<Entry>, c: Cell)
    ensures c in CellsOf(entries) <==> exists e :: e in entries && e.data.LiveRow? && c in e.data.cells
  {
    if entries != [] {
      CellsMember(entries[..|entries| - 1], c);
      assert entries == entries[..|entries| - 1] + [entries[|entries| - 1]];
    }
  }

  lemma {:induction false} RowDeletionsMember(entries: seq<Entry>, d: RowDeletion)
    ensures d in RowDeletionsOf(entries) <==> exists e :: e in entries && d in RowDeletionsIn(e)
  {
    hide RowDeletionsIn;
    if entries != [] {
      RowDeletionsMember(entries[..|entries| - 1], d);
      assert entries == entries[..|entries| - 1] + [entries[|entries| - 1]];
    }
  }

  lemma {:induction false} ComplexMember(entries: seq<Entry>, d: ComplexDeletion)
    ensures d in ComplexOf(entries) <==> exists e :: e in entries && d in e.complex
  {
    if entries != [] {
      ComplexMember(entries[..|entries| - 1], d);
      assert entries == entries[..|entries| - 1] + [entries[|entries| - 1]];
    }
  }

  lemma {:induction false} ReorderedSame(a: View, b: View)
    requires Reordered(a, b)
    ensures SameMembers(a, b)
  {
    hide CellsOf, RowDeletionsOf, ComplexOf, RowDeletionsIn;
    forall e ensures e in a.entries <==> e in b.entries {
      assert e in multiset(a.entries) <==> e in multiset(b.entries);
    }
    forall c ensures c in CellsOf(a.entries) <==> c in CellsOf(b.entries) {
      CellsMember(a.entries, c);
      CellsMember(b.entries, c);
    }
    forall d ensures d in RowDeletionsOf(a.entries) <==> d in RowDeletionsOf(b.entries) {
      RowDeletionsMember(a.entries, d);
      RowDeletionsMember(b.entries, d);
    }
    forall d ensures d in ComplexOf(a.entries) <==> d in ComplexOf(b.entries) {
      ComplexMember(a.entries, d);
      ComplexMember(b.entries, d);
    }
  }

  function MovedFirst(v: View, i: nat): View
    requires i < |v.entries|
  {
    v.(entries := [v.entries[i]] + (v.entries[..i] + v.entries[i + 1..]))
  }

  lemma {:induction false} OnlyOfKey(cells: seq<Cell>, x: Cell)
    requires x in cells && forall i, j :: 0 <= i < j < |cells| ==> cells[i].key != cells[j].key
    ensures Winner(cells, x.key) == Some(x)
  {
    hide Winner;
    WinnerTop(cells, x.key);
    var w := Winner(cells, x.key).value;
    var i :| 0 <= i < |cells| && cells[i] == x;
    var j :| 0 <= j < |cells| && cells[j] == w;
  }

  lemma {:induction false} MovedReordered(v: View, i: nat)
    requires i < |v.entries|
    ensures Reordered(v, MovedFirst(v, i))
  {
    MultisetWithout(v.entries, i);
  }

  lemma {:induction false} MovedWinner(v: View, i: nat, x: Cell)
    requires i < |v.entries| && v.entries[i].data.LiveRow? && x in v.entries[i].data.cells
    requires OneCellPerKey(v.entries[i]) && Top(CellsOf(v.entries), x)
    ensures Winner(CellsOf(MovedFirst(v, i).entries), x.key) == Some(x)
  {
    hide CellsOf, Winner, OneCellPerKey;
    var e, rest := v.entries[i], v.entries[..i] + v.entries[i + 1..];
    OneEntry(e);
    ConcatEntries([e], rest);
    KeyedWinner(e, x);
    WinnerConcat(e.data.cells, CellsOf(rest), x.key);
    WinnerTop(CellsOf(rest), x.key);
    MovedReordered(v, i);
    ReorderedSame(v, MovedFirst(v, i));
    SameCells(v, MovedFirst(v, i));
    var w := Winner(CellsOf(rest), x.key);
    if w.Some? { assert w.value in CellsOf(MovedFirst(v, i).entries); }
  }

  /** The version that holds a cell at the top, moved first, makes it the winner. */
  lemma {:induction false} MovedFirstWins(v: View, row: Row, dropped: map<string, int>, now: int, x: Cell)
    requires Fits(v, row) && x.key.column !in row.keyColumns && Top(CellsOf(v.entries), x)
    requires forall e :: e in v.entries ==> OneCellPerKey(e)
    ensures exists b :: Reordered(v, b) && Fits(b, row) &&
              Read(b, row, dropped, now, x.key) == if Showable(v, row, dropped, now, x) then Some(x) else None
  {
    hide Read, CellsOf, Deleted, Winner, SameMembers, OneCellPerKey, Reordered;
    CellsMember(v.entries, x);
    var e :| e in v.entries && e.data.LiveRow? && x in e.data.cells;
    var i :| 0 <= i < |v.entries| && v.entries[i] == e;
    var b := MovedFirst(v, i);
    MovedReordered(v, i);
    ReorderedSame(v, b);
    MovedWinner(v, i, x);
    SameDeleted(v, b, row, x);
    ReadIsShown(b, row, dropped, now, x.key);
  }

  lemma {:induction false} KeyedWinner(e: Entry, x: Cell)
    requires OneCellPerKey(e) && e.data.LiveRow? && x in e.data.cells
    ensures Winner(e.data.cells, x.key) == Some(x)
  {
    OnlyOfKey(e.data.cells, x);
  }

  lemma {:induction false} SameCells(a: View, b: View)
    requires SameMembers(a, b)
    ensures forall c :: c in CellsOf(a.entries) <==> c in CellsOf(b.entries)
  {
    hide CellsOf, RowDeletionsOf, ComplexOf;
  }

  /** Every permutation of the versions reads the same exactly when there is no tie. */
  lemma {:induction false} ReorderExactly(v: View, row: Row, dropped: map<string, int>, now: int, k: CellKey)
    requires Fits(v, row) && k.column !in row.keyColumns && forall e :: e in v.entries ==> OneCellPerKey(e)
    ensures (forall b :: Fits(b, row) && Reordered(v, b) ==>
               Read(b, row, dropped, now, k) == Read(v, row, dropped, now, k))
       <==> !Tied(v, row, dropped, now, k)
  {
    hide Read, CellsOf, Deleted, SameMembers, Winner, OneCellPerKey, Reordered;
    if Tied(v, row, dropped, now, k) {
      var x, y :| TiedBy(v, row, dropped, now, k, x, y);
      MovedFirstWins(v, row, dropped, now, x);
      MovedFirstWins(v, row, dropped, now, y);
    } else {
      forall b | Fits(b, row) && Reordered(v, b)
        ensures Read(b, row, dropped, now, k) == Read(v, row, dropped, now, k)
      {
        ReorderedSame(v, b);
        OrderExactly(v, row, dropped, now, k);
      }
    }
  }
}
