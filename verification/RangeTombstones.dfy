/** Range tombstones in a compaction: the union of the ranges of several SSTables is
    cut into disjoint segments, each carrying the newest deletion that covers it
    (`cqlite-core/src/storage/write_engine/merge/mod.rs`, `RangeCut`, `cut_cmp`,
    `coalesce_partition_range_tombstones`, `apply_range_shadowing`). */
module RangeTombstones {

  import opened Prelude

  // ----- the clustering axis -----

  /** One clustering component; a null sorts first in either direction. */
  datatype Component = Null | Val(v: int)

  /** Per clustering column: is it DESC? */
  type Schema = seq<bool>

  function Desc(schema: Schema): bool { schema != [] && schema[0] }
  function Next(schema: Schema): Schema { if schema == [] then [] else schema[1..] }

  function CmpComponent(desc: bool, a: Component, b: Component): int {
    match (a, b)
    case (Null, Null) => 0
    case (Null, Val(_)) => -1
    case (Val(_), Null) => 1
    case (Val(x), Val(y)) => if x == y then 0 else if (x < y) != desc then -1 else 1
  }

  /** `ClusteringKey::compare` on prefixes of equal length. */
  function CmpKey(schema: Schema, a: seq<Component>, b: seq<Component>): int
    requires |a| == |b|
  {
    if a == [] then 0
    else
      var c := CmpComponent(Desc(schema), a[0], b[0]);
      if c != 0 then c else CmpKey(Next(schema), a[1..], b[1..])
  }

  /** Just before (`after == false`) or just after a prefix and all its extensions. */
  datatype Cut = Bottom | At(key: seq<Component>, after: bool) | Top

  function Sign(after: bool): int { if after then 1 else -1 }

  /** `cut_cmp`: compare the common prefix, then let the shorter prefix's flag decide. */
  function CutCmp(schema: Schema, a: Cut, b: Cut): int {
    match (a, b)
    case (Bottom, Bottom) => 0
    case (Bottom, _) => -1
    case (_, Bottom) => 1
    case (Top, Top) => 0
    case (Top, _) => 1
    case (_, Top) => -1
    case (At(ka, aa), At(kb, ab)) =>
      var l := if |ka| < |kb| then |ka| else |kb|;
      var ord := CmpKey(schema, ka[..l], kb[..l]);
      if ord != 0 then ord
      else if |ka| == |kb| then (if aa == ab then 0 else if ab then -1 else 1)
      else if |ka| < |kb| then Sign(aa)
      else -Sign(ab)
  }

  predicate Le(schema: Schema, a: Cut, b: Cut) { CutCmp(schema, a, b) <= 0 }
  predicate Lt(schema: Schema, a: Cut, b: Cut) { CutCmp(schema, a, b) < 0 }

  // ----- cuts are totally ordered -----

  /** The same order, read component by component. */
  function Walk(schema: Schema, a: seq<Component>, aa: bool, b: seq<Component>, ab: bool): int {
    if a == [] && b == [] then (if aa == ab then 0 else if ab then -1 else 1)
    else if a == [] then Sign(aa)
    else if b == [] then -Sign(ab)
    else
      var c := CmpComponent(Desc(schema), a[0], b[0]);
      if c != 0 then c else Walk(Next(schema), a[1..], aa, b[1..], ab)
  }

  lemma {:induction false} CutCmpWalks(schema: Schema, a: seq<Component>, aa: bool, b: seq<Component>, ab: bool)
    ensures CutCmp(schema, At(a, aa), At(b, ab)) == Walk(schema, a, aa, b, ab)
  {
    if a != [] && b != [] {
      var l := if |a| < |b| then |a| else |b|;
      assert a[..l][1..] == a[1..][..l - 1] && b[..l][1..] == b[1..][..l - 1];
      CutCmpWalks(Next(schema), a[1..], aa, b[1..], ab);
    }
  }

  lemma {:induction false} WalkOrder(schema: Schema, a: seq<Component>, aa: bool, b: seq<Component>, ab: bool,
      c: seq<Component>, ac: bool)
    ensures Walk(schema, a, aa, b, ab) == -Walk(schema, b, ab, a, aa)
    ensures Walk(schema, a, aa, b, ab) == 0 <==> a == b && aa == ab
    ensures Walk(schema, a, aa, b, ab) <= 0 && Walk(schema, b, ab, c, ac) <= 0 ==> Walk(schema, a, aa, c, ac) <= 0
    decreases |a|
  {
    if a != [] && b != [] {
      var c' := if c == [] then [] else c[1..];
      WalkOrder(Next(schema), a[1..], aa, b[1..], ab, c', ac);
      assert a == b <==> a[0] == b[0] && a[1..] == b[1..];
    }
  }

  lemma {:induction false} CutOrder(schema: Schema, a: Cut, b: Cut, c: Cut)
    ensures CutCmp(schema, a, b) == -CutCmp(schema, b, a)
    ensures CutCmp(schema, a, b) == 0 <==> a == b
    ensures Le(schema, a, b) && Le(schema, b, c) ==> Le(schema, a, c)
  {
    if a.At? && b.At? {
      CutCmpWalks(schema, a.key, a.after, b.key, b.after);
      CutCmpWalks(schema, b.key, b.after, a.key, a.after);
      var ck, ac := if c.At? then c.key else [], c.At? && c.after;
      WalkOrder(schema, a.key, a.after, b.key, b.after, ck, ac);
      if c.At? {
        CutCmpWalks(schema, b.key, b.after, c.key, c.after);
        CutCmpWalks(schema, a.key, a.after, c.key, c.after);
      }
    }
  }

  // ----- ranges and the rows they cover -----

  datatype Bound = Inclusive(key: seq<Component>) | Exclusive(key: seq<Component>) | BottomBound | TopBound

  datatype Range = Range(start: Bound, end: Bound, mfda: int, ldt: int)

  function StartCut(b: Bound): Cut {
    match b
    case Inclusive(k) => At(k, false)
    case Exclusive(k) => At(k, true)
    case BottomBound => Bottom
    case TopBound => Top
  }

  function EndCut(b: Bound): Cut {
    match b
    case Inclusive(k) => At(k, true)
    case Exclusive(k) => At(k, false)
    case BottomBound => Bottom
    case TopBound => Top
  }

  function StartBound(c: Cut): (b: Bound)
    ensures StartCut(b) == c
  {
    match c
    case Bottom => BottomBound
    case At(k, after) => if after then Exclusive(k) else Inclusive(k)
    case Top => TopBound
  }

  function EndBound(c: Cut): (b: Bound)
    ensures EndCut(b) == c
  {
    match c
    case Bottom => BottomBound
    case At(k, after) => if after then Inclusive(k) else Exclusive(k)
    case Top => TopBound
  }

  predicate BoundFits(b: Bound, arity: nat) {
    (b.Inclusive? ==> |b.key| <= arity) && (b.Exclusive? ==> |b.key| <= arity)
  }

  predicate CutFits(c: Cut, arity: nat) { c.At? ==> |c.key| <= arity }

  predicate Fits(r: Range, arity: nat) { BoundFits(r.start, arity) && BoundFits(r.end, arity) }

  /** `range_tombstone_covers_ck`: each bound against the row's key cut to its length. */
  predicate Covers(schema: Schema, r: Range, ck: seq<Component>)
    requires Fits(r, |ck|)
  {
    (match r.start
     case Inclusive(k) => CmpKey(schema, ck[..|k|], k) >= 0
     case Exclusive(k) => CmpKey(schema, ck[..|k|], k) > 0
     case BottomBound => true
     case TopBound => false) &&
    !EndBefore(schema, r, ck)
  }

  /** `range_end_before_ck`: the row lies beyond the end of the range. */
  predicate EndBefore(schema: Schema, r: Range, ck: seq<Component>)
    requires BoundFits(r.end, |ck|)
  {
    match r.end
    case Inclusive(k) => CmpKey(schema, ck[..|k|], k) > 0
    case Exclusive(k) => CmpKey(schema, ck[..|k|], k) >= 0
    case TopBound => false
    case BottomBound => true
  }

  /** The cut lies before the row. */
  predicate Before(schema: Schema, c: Cut, ck: seq<Component>)
    requires CutFits(c, |ck|)
  {
    match c
    case Bottom => true
    case At(k, after) => if after then CmpKey(schema, ck[..|k|], k) > 0 else CmpKey(schema, ck[..|k|], k) >= 0
    case Top => false
  }

  lemma {:induction false} CoversByCuts(schema: Schema, r: Range, ck: seq<Component>)
    requires Fits(r, |ck|)
    ensures Covers(schema, r, ck) <==> Before(schema, StartCut(r.start), ck) && !Before(schema, EndCut(r.end), ck)
    ensures EndBefore(schema, r, ck) <==> Before(schema, EndCut(r.end), ck)
  {
  }

  lemma {:induction false} BeforeHead(schema: Schema, k: seq<Component>, after: bool, ck: seq<Component>)
    requires 0 < |k| <= |ck|
    ensures CmpComponent(Desc(schema), ck[0], k[0]) != 0 ==>
              (Before(schema, At(k, after), ck) <==> CmpComponent(Desc(schema), ck[0], k[0]) > 0)
    ensures CmpComponent(Desc(schema), ck[0], k[0]) == 0 ==>
              (Before(schema, At(k, after), ck) <==> Before(Next(schema), At(k[1..], after), ck[1..]))
  {
    assert ck[..|k|][1..] == ck[1..][..|k| - 1];
  }

  /** Cuts below a cut that is before the row are before the row. */
  lemma {:induction false} BeforeDownward(schema: Schema, a: Cut, b: Cut, ck: seq<Component>)
    requires CutFits(a, |ck|) && CutFits(b, |ck|)
    requires Le(schema, a, b) && Before(schema, b, ck)
    ensures Before(schema, a, ck)
    decreases |ck|
  {
    if a.At? && b.At? {
      CutCmpWalks(schema, a.key, a.after, b.key, b.after);
      if a.key != [] && b.key != [] {
        BeforeHead(schema, a.key, a.after, ck);
        BeforeHead(schema, b.key, b.after, ck);
        if CmpComponent(Desc(schema), ck[0], a.key[0]) == 0 && CmpComponent(Desc(schema), ck[0], b.key[0]) == 0 {
          CutCmpWalks(Next(schema), a.key[1..], a.after, b.key[1..], b.after);
          BeforeDownward(Next(schema), At(a.key[1..], a.after), At(b.key[1..], b.after), ck[1..]);
        }
      }
    }
  }

  predicate AllFit(rs: seq<Range>, arity: nat) {
    forall i :: 0 <= i < |rs| ==> Fits(rs[i], arity)
  }

  function Max(a: Option<int>, b: int): Option<int> {
    if a.None? || a.value < b then Some(b) else a
  }

  /** The newest deletion covering a row: the linear scan. */
  function FloorAt(schema: Schema, rs: seq<Range>, ck: seq<Component>): Option<int>
    requires AllFit(rs, |ck|)
  {
    if rs == [] then None
    else
      var r := rs[|rs| - 1];
      var f := FloorAt(schema, rs[..|rs| - 1], ck);
      if Covers(schema, r, ck) then Max(f, r.mfda) else f
  }

  ghost predicate IsFloor(schema: Schema, rs: seq<Range>, ck: seq<Component>, f: Option<int>)
    requires AllFit(rs, |ck|)
  {
    && (f.None? ==> forall i :: 0 <= i < |rs| ==> !Covers(schema, rs[i], ck))
    && (f.Some? ==> exists i :: 0 <= i < |rs| && Covers(schema, rs[i], ck) && rs[i].mfda == f.value)
    && (f.Some? ==> forall i :: 0 <= i < |rs| && Covers(schema, rs[i], ck) ==> rs[i].mfda <= f.value)
  }

  lemma {:induction false} FloorIsFloor(schema: Schema, rs: seq<Range>, ck: seq<Component>)
    requires AllFit(rs, |ck|)
    ensures IsFloor(schema, rs, ck, FloorAt(schema, rs, ck))
  {
    if rs != [] {
      var init, r := rs[..|rs| - 1], rs[|rs| - 1];
      FloorIsFloor(schema, init, ck);
      var g := FloorAt(schema, init, ck);
      var f := FloorAt(schema, rs, ck);
      if f.Some? && f == g {
        var i :| 0 <= i < |init| && Covers(schema, init[i], ck) && init[i].mfda == g.value;
        assert rs[i] == init[i];
      }
      forall i | 0 <= i < |rs| && Covers(schema, rs[i], ck) ensures f.Some? && rs[i].mfda <= f.value {
        if i < |init| { assert init[i] == rs[i]; }
      }
    }
  }

  lemma {:induction false} FloorUnique(schema: Schema, rs: seq<Range>, ck: seq<Component>, f: Option<int>)
    requires AllFit(rs, |ck|) && IsFloor(schema, rs, ck, f)
    ensures FloorAt(schema, rs, ck) == f
  {
    FloorIsFloor(schema, rs, ck);
  }

  // ----- coalescing -----

  /** A piece of the axis between two cuts, and the deletion over it. */
  datatype Seg = Seg(lo: Cut, hi: Cut, mfda: int, ldt: int)

  function ToSeg(r: Range): Seg { Seg(StartCut(r.start), EndCut(r.end), r.mfda, r.ldt) }

  function ToRange(s: Seg): Range { Range(StartBound(s.lo), EndBound(s.hi), s.mfda, s.ldt) }

  /** `sort_by` and `dedup_by`. */
  function InsertCut(schema: Schema, c: Cut, cuts: seq<Cut>): seq<Cut> {
    if cuts == [] then [c]
    else if CutCmp(schema, c, cuts[0]) < 0 then [c] + cuts
    else if CutCmp(schema, c, cuts[0]) == 0 then cuts
    else [cuts[0]] + InsertCut(schema, c, cuts[1..])
  }

  function CutsOf(schema: Schema, items: seq<Seg>): seq<Cut> {
    if items == [] then []
    else InsertCut(schema, items[0].lo, InsertCut(schema, items[0].hi, CutsOf(schema, items[1..])))
  }

  predicate Spans(schema: Schema, item: Seg, lo: Cut, hi: Cut) {
    Le(schema, item.lo, lo) && Le(schema, hi, item.hi)
  }

  /** The newest deletion spanning a gap; the greater local time among equals. */
  function BestOver(schema: Schema, items: seq<Seg>, lo: Cut, hi: Cut): Option<Seg> {
    if items == [] then None
    else
      FoldBest(schema, BestOver(schema, items[..|items| - 1], lo, hi), items[|items| - 1], lo, hi)
  }

  function FoldBest(schema: Schema, best: Option<Seg>, item: Seg, lo: Cut, hi: Cut): Option<Seg> {
    if !Spans(schema, item, lo, hi) then best
    else if best.Some? && (best.value.mfda > item.mfda || (best.value.mfda == item.mfda && best.value.ldt >= item.ldt))
    then best
    else Some(Seg(lo, hi, item.mfda, item.ldt))
  }

  function Segments(schema: Schema, items: seq<Seg>, cuts: seq<Cut>): seq<Seg> {
    if |cuts| < 2 then []
    else
      var best := BestOver(schema, items, cuts[|cuts| - 2], cuts[|cuts| - 1]);
      Segments(schema, items, cuts[..|cuts| - 1]) + if best.Some? then [best.value] else []
  }

  function PushSeg(schema: Schema, merged: seq<Seg>, seg: Seg): seq<Seg> {
    if merged != [] && Joins(schema, merged[|merged| - 1], seg) then
      merged[..|merged| - 1] + [merged[|merged| - 1].(hi := seg.hi)]
    else merged + [seg]
  }

  /** Touching segments with the same deletion. */
  predicate Joins(schema: Schema, a: Seg, b: Seg) {
    a.mfda == b.mfda && a.ldt == b.ldt && CutCmp(schema, a.hi, b.lo) == 0
  }

  function MergeAdjacent(schema: Schema, segs: seq<Seg>): seq<Seg> {
    if segs == [] then []
    else PushSeg(schema, MergeAdjacent(schema, segs[..|segs| - 1]), segs[|segs| - 1])
  }

  function ToSegs(rs: seq<Range>): (r: seq<Seg>)
    ensures |r| == |rs| && forall i :: 0 <= i < |rs| ==> r[i] == ToSeg(rs[i])
  {
    seq(|rs|, i requires 0 <= i < |rs| => ToSeg(rs[i]))
  }

  function ToRanges(segs: seq<Seg>): (r: seq<Range>)
    ensures |r| == |segs| && forall i :: 0 <= i < |segs| ==> r[i] == ToRange(segs[i])
  {
    seq(|segs|, i requires 0 <= i < |segs| => ToRange(segs[i]))
  }

  function Coalesced(schema: Schema, rs: seq<Range>): seq<Range> {
    if |rs| <= 1 then rs
    else
      var items := ToSegs(rs);
      ToRanges(MergeAdjacent(schema, Segments(schema, items, CutsOf(schema, items))))
  }

  method BestInGap(schema: Schema, items: seq<Seg>, lo: Cut, hi: Cut) returns (best: Option<Seg>)
    ensures best == BestOver(schema, items, lo, hi)
  {
    hide FoldBest;
    best := None;
    var j := 0;
    while j < |items|
      invariant 0 <= j <= |items|
      invariant best == BestOver(schema, items[..j], lo, hi)
    {
      assert items[..j + 1][..j] == items[..j];
      best := FoldBest(schema, best, items[j], lo, hi);
      j := j + 1;
    }
    assert items[..j] == items;
  }

  /** `coalesce_partition_range_tombstones`. */
  method Coalesce(schema: Schema, ranges: seq<Range>) returns (out: seq<Range>)
    ensures out == Coalesced(schema, ranges)
  {
    if |ranges| <= 1 { return ranges; }
    hide FoldBest, PushSeg, CutsOf, CutCmp;
    var items := ToSegs(ranges);
    var cuts := CutsOf(schema, items);
    var segs: seq<Seg> := [];
    var w := 1;
    while w < |cuts|
      invariant 1 <= w && (cuts == [] || w <= |cuts|)
      invariant segs == Segments(schema, items, if cuts == [] then [] else cuts[..w])
    {
      var best := BestInGap(schema, items, cuts[w - 1], cuts[w]);
      assert cuts[..w + 1][..w] == cuts[..w];
      if best.Some? {
        segs := segs + [best.value];
      }
      w := w + 1;
    }
    assert cuts != [] ==> cuts[..w] == cuts;
    var merged: seq<Seg> := [];
    var i := 0;
    while i < |segs|
      invariant 0 <= i <= |segs|
      invariant merged == MergeAdjacent(schema, segs[..i])
    {
      assert segs[..i + 1][..i] == segs[..i];
      merged := PushSeg(schema, merged, segs[i]);
      i := i + 1;
    }
    assert segs[..i] == segs;
    out := ToRanges(merged);
  }

  // ----- sorted cuts -----

  predicate Sorted(schema: Schema, cuts: seq<Cut>) {
    forall i, j :: 0 <= i < j < |cuts| ==> Lt(schema, cuts[i], cuts[j])
  }

  lemma {:induction false} InsertSorted(schema: Schema, c: Cut, cuts: seq<Cut>)
    requires Sorted(schema, cuts)
    ensures Sorted(schema, InsertCut(schema, c, cuts))
    ensures forall x :: x in InsertCut(schema, c, cuts) <==> x == c || x in cuts
  {
    if cuts != [] {
      CutOrder(schema, c, cuts[0], c);
      if CutCmp(schema, c, cuts[0]) < 0 {
        forall j | 0 <= j < |cuts| ensures Lt(schema, c, cuts[j]) {
          CutOrder(schema, c, cuts[0], cuts[j]);
          CutOrder(schema, c, cuts[j], cuts[0]);
          if j > 0 { assert Lt(schema, cuts[0], cuts[j]); CutOrder(schema, cuts[0], cuts[j], c); }
        }
      } else if CutCmp(schema, c, cuts[0]) > 0 {
        InsertSorted(schema, c, cuts[1..]);
        var rest := InsertCut(schema, c, cuts[1..]);
        forall j | 0 <= j < |rest| ensures Lt(schema, cuts[0], rest[j]) {
          assert rest[j] in rest;
          if rest[j] != c {
            var m :| 0 <= m < |cuts[1..]| && cuts[1..][m] == rest[j];
            assert Lt(schema, cuts[0], cuts[m + 1]);
          }
        }
      }
    }
  }

  lemma {:induction false} CutsSorted(schema: Schema, items: seq<Seg>)
    ensures Sorted(schema, CutsOf(schema, items))
  {
    hide InsertCut, CutCmp, Sorted;
    if items == [] {
      assert Sorted(schema, []) by { NoCuts(schema); }
    } else {
      CutsSorted(schema, items[1..]);
      var rest := CutsOf(schema, items[1..]);
      InsertSorted(schema, items[0].hi, rest);
      InsertSorted(schema, items[0].lo, InsertCut(schema, items[0].hi, rest));
    }
  }

  lemma {:induction false} NoCuts(schema: Schema)
    ensures Sorted(schema, [])
  {
  }

  lemma {:induction false} CutMember(schema: Schema, items: seq<Seg>, c: Cut)
    ensures c in CutsOf(schema, items) <==> exists i :: 0 <= i < |items| && (c == items[i].lo || c == items[i].hi)
  {
    hide InsertCut, CutCmp, Sorted;
    if items != [] {
      CutMember(schema, items[1..], c);
      var rest := CutsOf(schema, items[1..]);
      CutsSorted(schema, items[1..]);
      InsertSorted(schema, items[0].hi, rest);
      InsertSorted(schema, items[0].lo, InsertCut(schema, items[0].hi, rest));
      if c in rest {
        var m :| 0 <= m < |items[1..]| && (c == items[1..][m].lo || c == items[1..][m].hi);
        assert items[m + 1] == items[1..][m];
      }
      if i :| 0 <= i < |items| && (c == items[i].lo || c == items[i].hi) {
        if i > 0 { assert items[1..][i - 1] == items[i]; }
      }
    }
  }

  // ----- what the segments say about a row -----

  predicate Holds(schema: Schema, s: Seg, ck: seq<Component>)
    requires CutFits(s.lo, |ck|) && CutFits(s.hi, |ck|)
  {
    Before(schema, s.lo, ck) && !Before(schema, s.hi, ck)
  }

  predicate SegsFit(segs: seq<Seg>, arity: nat) {
    forall i :: 0 <= i < |segs| ==> CutFits(segs[i].lo, arity) && CutFits(segs[i].hi, arity)
  }

  predicate CutsFit(cuts: seq<Cut>, arity: nat) { forall i :: 0 <= i < |cuts| ==> CutFits(cuts[i], arity) }

  /** The deletion over a row, if any: every segment holding the row says `f`. */
  ghost predicate SegFloor(schema: Schema, segs: seq<Seg>, ck: seq<Component>, f: Option<int>)
    requires SegsFit(segs, |ck|)
  {
    && (forall i :: 0 <= i < |segs| && Holds(schema, segs[i], ck) ==> f == Some(segs[i].mfda))
    && (f.Some? ==> exists i :: 0 <= i < |segs| && Holds(schema, segs[i], ck))
  }

  lemma {:induction false} BestIsNewest(schema: Schema, items: seq<Seg>, lo: Cut, hi: Cut)
    ensures var b := BestOver(schema, items, lo, hi);
            && (b.None? ==> forall i :: 0 <= i < |items| ==> !Spans(schema, items[i], lo, hi))
            && (b.Some? ==> b.value.lo == lo && b.value.hi == hi)
            && (b.Some? ==>
                  exists i :: 0 <= i < |items| && Spans(schema, items[i], lo, hi) && items[i].mfda == b.value.mfda)
            && (b.Some? ==>
                  forall i :: 0 <= i < |items| && Spans(schema, items[i], lo, hi) ==> items[i].mfda <= b.value.mfda)
  {
    if items != [] {
      var init, item := items[..|items| - 1], items[|items| - 1];
      BestIsNewest(schema, init, lo, hi);
      var a, b := BestOver(schema, init, lo, hi), BestOver(schema, items, lo, hi);
      if b.Some? && b == a {
        var i :| 0 <= i < |init| && Spans(schema, init[i], lo, hi) && init[i].mfda == a.value.mfda;
        assert items[i] == init[i];
      }
      forall i | 0 <= i < |items| && Spans(schema, items[i], lo, hi) ensures b.Some? && items[i].mfda <= b.value.mfda {
        if i < |init| { assert items[i] == init[i]; }
      }
    }
  }

  lemma {:induction false} SegmentAt(schema: Schema, items: seq<Seg>, cuts: seq<Cut>, s: Seg)
    ensures s in Segments(schema, items, cuts) <==>
            exists i :: 0 < i < |cuts| && BestOver(schema, items, cuts[i - 1], cuts[i]) == Some(s)
    decreases |cuts|
  {
    hide BestOver;
    if |cuts| >= 2 {
      var init, n := cuts[..|cuts| - 1], |cuts| - 1;
      SegmentAt(schema, items, init, s);
      if s in Segments(schema, items, init) {
        var i :| 0 < i < |init| && BestOver(schema, items, init[i - 1], init[i]) == Some(s);
        assert BestOver(schema, items, cuts[i - 1], cuts[i]) == Some(s);
      }
      if i :| 0 < i < |cuts| && BestOver(schema, items, cuts[i - 1], cuts[i]) == Some(s) {
        if i < n { assert BestOver(schema, items, init[i - 1], init[i]) == Some(s); }
      }
      assert BestOver(schema, items, cuts[n - 1], cuts[n]) == Some(s) ==> s in Segments(schema, items, cuts);
    }
  }

  /** A row is in exactly one gap between two cuts around it. */
  lemma {:induction false} FindGap(schema: Schema, cuts: seq<Cut>, ck: seq<Component>, a: nat, b: nat) returns (i: nat)
    requires CutsFit(cuts, |ck|) && a < b < |cuts|
    requires Before(schema, cuts[a], ck) && !Before(schema, cuts[b], ck)
    ensures a < i <= b && Before(schema, cuts[i - 1], ck) && !Before(schema, cuts[i], ck)
    decreases b - a
  {
    if !Before(schema, cuts[a + 1], ck) {
      i := a + 1;
    } else {
      i := FindGap(schema, cuts, ck, a + 1, b);
    }
  }

  lemma {:induction false} GapUnique(schema: Schema, cuts: seq<Cut>, ck: seq<Component>, i: nat, j: nat)
    requires Sorted(schema, cuts) && CutsFit(cuts, |ck|)
    requires 0 < i < |cuts| && Before(schema, cuts[i - 1], ck) && !Before(schema, cuts[i], ck)
    requires 0 < j < |cuts| && Before(schema, cuts[j - 1], ck) && !Before(schema, cuts[j], ck)
    ensures i == j
  {
    if i < j {
      LeAt(schema, cuts, i, j - 1);
      BeforeDownward(schema, cuts[i], cuts[j - 1], ck);
    } else if j < i {
      LeAt(schema, cuts, j, i - 1);
      BeforeDownward(schema, cuts[j], cuts[i - 1], ck);
    }
  }

  lemma {:induction false} LeAt(schema: Schema, cuts: seq<Cut>, i: nat, j: nat)
    requires Sorted(schema, cuts) && i <= j < |cuts|
    ensures Le(schema, cuts[i], cuts[j])
  {
    CutOrder(schema, cuts[i], cuts[j], cuts[j]);
  }

  /** An item covers a row in a gap exactly when it spans the gap. */
  lemma {:induction false} SpansGap(schema: Schema, cuts: seq<Cut>, item: Seg, ck: seq<Component>, i: nat)
    requires Sorted(schema, cuts) && CutsFit(cuts, |ck|) && item.lo in cuts && item.hi in cuts
    requires CutFits(item.lo, |ck|) && CutFits(item.hi, |ck|)
    requires 0 < i < |cuts| && Before(schema, cuts[i - 1], ck) && !Before(schema, cuts[i], ck)
    ensures Holds(schema, item, ck) <==> Spans(schema, item, cuts[i - 1], cuts[i])
  {
    hide CutCmp, Before;
    if Spans(schema, item, cuts[i - 1], cuts[i]) {
      BeforeDownward(schema, item.lo, cuts[i - 1], ck);
      if Before(schema, item.hi, ck) { BeforeDownward(schema, cuts[i], item.hi, ck); }
    } else if Holds(schema, item, ck) {
      var a :| 0 <= a < |cuts| && cuts[a] == item.lo;
      var b :| 0 <= b < |cuts| && cuts[b] == item.hi;
      if b <= a { LeAt(schema, cuts, b, a); BeforeDownward(schema, cuts[b], cuts[a], ck); }
      var g := FindGap(schema, cuts, ck, a, b);
      GapUnique(schema, cuts, ck, i, g);
      LeAt(schema, cuts, a, i - 1);
      LeAt(schema, cuts, i, b);
    }
  }

  lemma {:induction false} SegmentsFit(schema: Schema, items: seq<Seg>, cuts: seq<Cut>, arity: nat)
    requires CutsFit(cuts, arity)
    ensures SegsFit(Segments(schema, items, cuts), arity)
  {
    var segs := Segments(schema, items, cuts);
    forall n | 0 <= n < |segs| ensures CutFits(segs[n].lo, arity) && CutFits(segs[n].hi, arity) {
      SegmentAt(schema, items, cuts, segs[n]);
      var i :| 0 < i < |cuts| && BestOver(schema, items, cuts[i - 1], cuts[i]) == Some(segs[n]);
      BestIsNewest(schema, items, cuts[i - 1], cuts[i]);
    }
  }

  /** The newest item holding the row, if any. */
  ghost predicate ItemFloor(schema: Schema, items: seq<Seg>, ck: seq<Component>, f: Option<int>)
    requires SegsFit(items, |ck|)
  {
    && (f.None? ==> forall i :: 0 <= i < |items| ==> !Holds(schema, items[i], ck))
    && (f.Some? ==> exists i :: 0 <= i < |items| && Holds(schema, items[i], ck) && items[i].mfda == f.value)
    && (f.Some? ==> forall i :: 0 <= i < |items| && Holds(schema, items[i], ck) ==> items[i].mfda <= f.value)
  }

  lemma {:induction false} SegmentHolds(schema: Schema, items: seq<Seg>, cuts: seq<Cut>, ck: seq<Component>, s: Seg,
      f: Option<int>)
    requires Sorted(schema, cuts) && CutsFit(cuts, |ck|) && SegsFit(items, |ck|)
    requires forall i :: 0 <= i < |items| ==> items[i].lo in cuts && items[i].hi in cuts
    requires ItemFloor(schema, items, ck, f)
    requires s in Segments(schema, items, cuts) && CutFits(s.lo, |ck|) && CutFits(s.hi, |ck|) && Holds(schema, s, ck)
    ensures f == Some(s.mfda)
  {
    hide CutCmp, Segments, BestOver, Before, Sorted;
    SegmentAt(schema, items, cuts, s);
    var i :| 0 < i < |cuts| && BestOver(schema, items, cuts[i - 1], cuts[i]) == Some(s);
    BestIsNewest(schema, items, cuts[i - 1], cuts[i]);
    forall m | 0 <= m < |items| ensures Holds(schema, items[m], ck) <==> Spans(schema, items[m], cuts[i - 1], cuts[i]) {
      SpansGap(schema, cuts, items[m], ck, i);
    }
  }

  lemma {:induction false} SegmentsCover(schema: Schema, items: seq<Seg>, cuts: seq<Cut>, ck: seq<Component>,
      f: Option<int>)
    requires Sorted(schema, cuts) && CutsFit(cuts, |ck|) && SegsFit(items, |ck|)
    requires forall i :: 0 <= i < |items| ==> items[i].lo in cuts && items[i].hi in cuts
    requires ItemFloor(schema, items, ck, f)
    ensures SegsFit(Segments(schema, items, cuts), |ck|)
    ensures SegFloor(schema, Segments(schema, items, cuts), ck, f)
  {
    hide CutCmp, Segments, BestOver, Sorted;
    SegmentsFit(schema, items, cuts, |ck|);
    var segs := Segments(schema, items, cuts);
    forall n | 0 <= n < |segs| && Holds(schema, segs[n], ck) ensures f == Some(segs[n].mfda) {
      SegmentHolds(schema, items, cuts, ck, segs[n], f);
    }
    if f.Some? {
      var m :| 0 <= m < |items| && Holds(schema, items[m], ck) && items[m].mfda == f.value;
      var a :| 0 <= a < |cuts| && cuts[a] == items[m].lo;
      var b :| 0 <= b < |cuts| && cuts[b] == items[m].hi;
      if b <= a { LeAt(schema, cuts, b, a); BeforeDownward(schema, cuts[b], cuts[a], ck); }
      var g := FindGap(schema, cuts, ck, a, b);
      SpansGap(schema, cuts, items[m], ck, g);
      BestIsNewest(schema, items, cuts[g - 1], cuts[g]);
      var s := BestOver(schema, items, cuts[g - 1], cuts[g]).value;
      SegmentAt(schema, items, cuts, s);
      var n :| 0 <= n < |segs| && segs[n] == s;
      assert Holds(schema, segs[n], ck);
    }
  }

  // ----- segments are in order; merging keeps that and loses nothing -----

  predicate Ordered(schema: Schema, segs: seq<Seg>) {
    (forall i :: 0 <= i < |segs| ==> Lt(schema, segs[i].lo, segs[i].hi)) &&
    (forall i, j :: 0 <= i < j < |segs| ==> Le(schema, segs[i].hi, segs[j].lo))
  }

  lemma {:induction false} SegmentsOrdered(schema: Schema, items: seq<Seg>, cuts: seq<Cut>)
    requires Sorted(schema, cuts)
    ensures Ordered(schema, Segments(schema, items, cuts))
    ensures forall i :: 0 <= i < |Segments(schema, items, cuts)| ==>
              cuts != [] && Le(schema, Segments(schema, items, cuts)[i].hi, cuts[|cuts| - 1])
    decreases |cuts|
  {
    if |cuts| >= 2 {
      var n := |cuts| - 1;
      var init := cuts[..n];
      SegmentsOrdered(schema, items, init);
      BestIsNewest(schema, items, cuts[n - 1], cuts[n]);
      CutOrder(schema, cuts[n], cuts[n], cuts[n]);
      var before, segs := Segments(schema, items, init), Segments(schema, items, cuts);
      forall i | 0 <= i < |segs| ensures Le(schema, segs[i].hi, cuts[n]) {
        if i < |before| {
          CutOrder(schema, segs[i].hi, cuts[n - 1], cuts[n]);
        }
      }
    }
  }

  lemma {:induction false} PushOrdered(schema: Schema, merged: seq<Seg>, seg: Seg)
    requires Ordered(schema, merged) && Lt(schema, seg.lo, seg.hi)
    requires forall i :: 0 <= i < |merged| ==> Le(schema, merged[i].hi, seg.lo)
    ensures Ordered(schema, PushSeg(schema, merged, seg))
    ensures forall i :: 0 <= i < |PushSeg(schema, merged, seg)| ==>
              Le(schema, PushSeg(schema, merged, seg)[i].hi, seg.hi)
  {
    forall i | 0 <= i < |merged| ensures Le(schema, merged[i].hi, seg.hi) {
      CutOrder(schema, merged[i].hi, seg.lo, seg.hi);
    }
    CutOrder(schema, seg.hi, seg.hi, seg.hi);
    if merged != [] && Joins(schema, merged[|merged| - 1], seg) {
      var last := merged[|merged| - 1];
      CutOrder(schema, last.lo, last.hi, seg.hi);
      CutOrder(schema, last.hi, last.lo, last.hi);
      CutOrder(schema, seg.hi, last.lo, last.hi);
      CutOrder(schema, last.hi, seg.lo, seg.hi);
      CutOrder(schema, seg.hi, seg.lo, seg.lo);
      assert Lt(schema, last.lo, seg.hi);
    }
  }

  /** Two touching segments hold what their union holds. */
  lemma {:induction false} UnionHolds(schema: Schema, a: Seg, b: Seg, ck: seq<Component>)
    requires CutFits(a.lo, |ck|) && CutFits(a.hi, |ck|) && CutFits(b.lo, |ck|) && CutFits(b.hi, |ck|)
    requires Joins(schema, a, b) && Le(schema, a.lo, a.hi) && Le(schema, b.lo, b.hi)
    ensures Holds(schema, a.(hi := b.hi), ck) <==> Holds(schema, a, ck) || Holds(schema, b, ck)
  {
    CutOrder(schema, a.hi, b.lo, b.lo);
    if Before(schema, b.hi, ck) { BeforeDownward(schema, b.lo, b.hi, ck); }
    if Before(schema, a.hi, ck) { BeforeDownward(schema, a.lo, a.hi, ck); }
  }

  lemma {:induction false} PushHolds(schema: Schema, merged: seq<Seg>, seg: Seg, ck: seq<Component>)
    requires SegsFit(merged, |ck|) && CutFits(seg.lo, |ck|) && CutFits(seg.hi, |ck|)
    requires forall i :: 0 <= i < |merged| ==> Le(schema, merged[i].lo, merged[i].hi)
    requires Le(schema, seg.lo, seg.hi)
    ensures var p := PushSeg(schema, merged, seg); SegsFit(p, |ck|)
    ensures forall f :: SegFloor(schema, merged + [seg], ck, f) ==>
              SegFloor(schema, PushSeg(schema, merged, seg), ck, f)
  {
    if merged != [] && Joins(schema, merged[|merged| - 1], seg) {
      var n := |merged| - 1;
      UnionHolds(schema, merged[n], seg, ck);
      var p, q := PushSeg(schema, merged, seg), merged + [seg];
      forall f | SegFloor(schema, q, ck, f) ensures SegFloor(schema, p, ck, f) {
        forall i | 0 <= i < |p| && Holds(schema, p[i], ck) ensures f == Some(p[i].mfda) {
          if i < n { assert p[i] == q[i]; } else { assert q[n] == merged[n] && q[n + 1] == seg; }
        }
        if f.Some? {
          var i :| 0 <= i < |q| && Holds(schema, q[i], ck);
          if i < n { assert p[i] == q[i]; } else { assert Holds(schema, p[n], ck); }
        }
      }
    }
  }

  predicate Maximal(schema: Schema, segs: seq<Seg>) {
    forall i :: 0 < i < |segs| ==> !Joins(schema, segs[i - 1], segs[i])
  }

  lemma {:induction false} MergeKeeps(schema: Schema, segs: seq<Seg>)
    requires Ordered(schema, segs)
    ensures Ordered(schema, MergeAdjacent(schema, segs)) && Maximal(schema, MergeAdjacent(schema, segs))
    ensures segs != [] ==> forall i :: 0 <= i < |MergeAdjacent(schema, segs)| ==>
              Le(schema, MergeAdjacent(schema, segs)[i].hi, segs[|segs| - 1].hi)
  {
    if segs != [] {
      var n := |segs| - 1;
      var init, seg := segs[..n], segs[n];
      MergeKeeps(schema, init);
      hide CutCmp;
      var merged := MergeAdjacent(schema, init);
      forall i | 0 <= i < |merged| ensures Le(schema, merged[i].hi, seg.lo) {
        CutOrder(schema, merged[i].hi, init[n - 1].hi, seg.lo);
      }
      PushOrdered(schema, merged, seg);
    }
  }

  lemma {:induction false} MergeHolds(schema: Schema, segs: seq<Seg>, ck: seq<Component>, f: Option<int>)
    requires Ordered(schema, segs) && SegsFit(segs, |ck|) && SegFloor(schema, segs, ck, f)
    ensures SegsFit(MergeAdjacent(schema, segs), |ck|)
    ensures SegFloor(schema, MergeAdjacent(schema, segs), ck, f)
  {
    hide CutCmp, Before, PushSeg;
    if segs != [] {
      var n := |segs| - 1;
      var init, seg := segs[..n], segs[n];
      assert segs == init + [seg];
      var g := SplitFloor(schema, init, seg, ck, f);
      MergeHolds(schema, init, ck, g);
      MergeKeeps(schema, init);
      hide CutCmp;
      var merged := MergeAdjacent(schema, init);
      RejoinFloor(schema, merged, seg, ck, f, g);
      PushHolds(schema, merged, seg, ck);
    }
  }

  /** The floor of all but the last segment. */
  lemma {:induction false} SplitFloor(schema: Schema, init: seq<Seg>, seg: Seg, ck: seq<Component>,
      f: Option<int>) returns (g: Option<int>)
    requires SegsFit(init + [seg], |ck|) && SegFloor(schema, init + [seg], ck, f)
    ensures SegsFit(init, |ck|) && CutFits(seg.lo, |ck|) && CutFits(seg.hi, |ck|)
    ensures SegFloor(schema, init, ck, g)
    ensures Holds(schema, seg, ck) ==> f == Some(seg.mfda)
    ensures if g.Some? then f == g else Holds(schema, seg, ck) || f.None?
  {
    hide CutCmp, Before, Holds;
    var segs, n := init + [seg], |init|;
    assert segs[n] == seg;
    forall i | 0 <= i < |init| ensures segs[i] == init[i] { }
    g := if exists i :: 0 <= i < |init| && Holds(schema, init[i], ck) then f else None;
  }

  lemma {:induction false} RejoinFloor(schema: Schema, merged: seq<Seg>, seg: Seg, ck: seq<Component>,
      f: Option<int>, g: Option<int>)
    requires SegsFit(merged, |ck|) && CutFits(seg.lo, |ck|) && CutFits(seg.hi, |ck|)
    requires SegFloor(schema, merged, ck, g)
    requires Holds(schema, seg, ck) ==> f == Some(seg.mfda)
    requires if g.Some? then f == g else Holds(schema, seg, ck) || f.None?
    ensures SegFloor(schema, merged + [seg], ck, f)
  {
    hide CutCmp, Before, Holds;
    var q := merged + [seg];
    forall i | 0 <= i < |q| && Holds(schema, q[i], ck) ensures f == Some(q[i].mfda) {
      if i < |merged| { assert q[i] == merged[i]; }
    }
    if f.Some? {
      if Holds(schema, seg, ck) {
        assert q[|merged|] == seg;
      } else {
        var i :| 0 <= i < |merged| && Holds(schema, merged[i], ck);
        assert q[i] == merged[i];
      }
    }
  }

  // ----- the two results -----

  /** Disjoint, in order, and no two neighbours that could have been one. */
  predicate Canonical(schema: Schema, rs: seq<Range>) {
    Ordered(schema, ToSegs(rs)) && Maximal(schema, ToSegs(rs))
  }

  /** Two or more ranges become a canonical sequence. */
  lemma {:induction false} CoalescedCanonical(schema: Schema, rs: seq<Range>)
    requires |rs| >= 2
    ensures Canonical(schema, Coalesced(schema, rs))
  {
    var items := ToSegs(rs);
    var cuts := CutsOf(schema, items);
    CutsSorted(schema, items);
    SegmentsOrdered(schema, items, cuts);
    var segs := Segments(schema, items, cuts);
    MergeKeeps(schema, segs);
    assert ToSegs(Coalesced(schema, rs)) == MergeAdjacent(schema, segs);
  }

  lemma {:induction false} ItemsFloor(schema: Schema, rs: seq<Range>, ck: seq<Component>)
    requires AllFit(rs, |ck|)
    ensures SegsFit(ToSegs(rs), |ck|)
    ensures ItemFloor(schema, ToSegs(rs), ck, FloorAt(schema, rs, ck))
  {
    FloorIsFloor(schema, rs, ck);
    var items, f := ToSegs(rs), FloorAt(schema, rs, ck);
    forall i | 0 <= i < |rs| ensures Holds(schema, items[i], ck) <==> Covers(schema, rs[i], ck) {
      CoversByCuts(schema, rs[i], ck);
    }
    if f.Some? {
      var i :| 0 <= i < |rs| && Covers(schema, rs[i], ck) && rs[i].mfda == f.value;
      assert Holds(schema, items[i], ck) && items[i].mfda == f.value;
    }
  }

  /** Every row keeps exactly the deletion it had. */
  lemma {:induction false} CoalescedSameFloor(schema: Schema, rs: seq<Range>, ck: seq<Component>)
    requires AllFit(rs, |ck|)
    ensures AllFit(Coalesced(schema, rs), |ck|)
    ensures FloorAt(schema, Coalesced(schema, rs), ck) == FloorAt(schema, rs, ck)
  {
    if |rs| > 1 {
      var items, f := ToSegs(rs), FloorAt(schema, rs, ck);
      var cuts := CutsOf(schema, items);
      ItemsFloor(schema, rs, ck);
      CutsSorted(schema, items);
      forall i | 0 <= i < |items| ensures items[i].lo in cuts && items[i].hi in cuts {
        CutMember(schema, items, items[i].lo);
        CutMember(schema, items, items[i].hi);
      }
      forall i | 0 <= i < |cuts| ensures CutFits(cuts[i], |ck|) {
        CutMember(schema, items, cuts[i]);
        var m :| 0 <= m < |items| && (cuts[i] == items[m].lo || cuts[i] == items[m].hi);
      }
      SegmentsCover(schema, items, cuts, ck, f);
      SegmentsOrdered(schema, items, cuts);
      MergeHolds(schema, Segments(schema, items, cuts), ck, f);
      RangesFloor(schema, MergeAdjacent(schema, Segments(schema, items, cuts)), ck, f);
    }
  }

  lemma {:induction false} RangesFloor(schema: Schema, segs: seq<Seg>, ck: seq<Component>, f: Option<int>)
    requires SegsFit(segs, |ck|) && SegFloor(schema, segs, ck, f)
    ensures AllFit(ToRanges(segs), |ck|) && FloorAt(schema, ToRanges(segs), ck) == f
  {
    var rs := ToRanges(segs);
    forall i | 0 <= i < |rs| ensures Fits(rs[i], |ck|) && (Covers(schema, rs[i], ck) <==> Holds(schema, segs[i], ck)) {
      CoversByCuts(schema, rs[i], ck);
    }
    if f.Some? {
      var i :| 0 <= i < |segs| && Holds(schema, segs[i], ck);
      assert Covers(schema, rs[i], ck) && rs[i].mfda == f.value;
    }
    FloorUnique(schema, rs, ck, f);
  }

  // ----- the binary search -----

  /** `apply_range_shadowing`'s search over canonical ranges finds what the scan finds. */
  method FindFloor(schema: Schema, rs: seq<Range>, ck: seq<Component>) returns (f: Option<int>)
    requires AllFit(rs, |ck|)
    requires |rs| <= 1 || Ordered(schema, ToSegs(rs))
    ensures f == FloorAt(schema, rs, ck)
  {
    var lo, hi := 0, |rs|;
    while lo < hi
      invariant 0 <= lo <= hi <= |rs|
      invariant forall i :: 0 <= i < lo ==> EndBefore(schema, rs[i], ck)
      invariant forall i :: hi <= i < |rs| ==> !EndBefore(schema, rs[i], ck)
    {
      var mid := (lo + hi) / 2;
      if EndBefore(schema, rs[mid], ck) {
        EndsMonotone(schema, rs, ck);
        lo := mid + 1;
      } else {
        EndsMonotone(schema, rs, ck);
        hi := mid;
      }
    }
    f := if lo < |rs| && Covers(schema, rs[lo], ck) then Some(rs[lo].mfda) else None;
    LaterNotCovering(schema, rs, ck, lo);
    assert f.Some? ==> Covers(schema, rs[lo], ck) && rs[lo].mfda == f.value;
    FloorUnique(schema, rs, ck, f);
  }

  lemma {:induction false} EndsMonotone(schema: Schema, rs: seq<Range>, ck: seq<Component>)
    requires AllFit(rs, |ck|)
    requires |rs| <= 1 || Ordered(schema, ToSegs(rs))
    ensures forall i, j :: 0 <= i <= j < |rs| && EndBefore(schema, rs[j], ck) ==> EndBefore(schema, rs[i], ck)
  {
    var segs := ToSegs(rs);
    forall i, j | 0 <= i <= j < |rs| && EndBefore(schema, rs[j], ck) ensures EndBefore(schema, rs[i], ck) {
      if i < j {
        CoversByCuts(schema, rs[i], ck);
        CoversByCuts(schema, rs[j], ck);
        assert Le(schema, segs[i].hi, segs[j].lo) && Lt(schema, segs[j].lo, segs[j].hi);
        CutOrder(schema, segs[i].hi, segs[j].lo, segs[j].hi);
        BeforeDownward(schema, segs[i].hi, segs[j].hi, ck);
      }
    }
  }

  lemma {:induction false} LaterNotCovering(schema: Schema, rs: seq<Range>, ck: seq<Component>, k: nat)
    requires AllFit(rs, |ck|) && k <= |rs|
    requires |rs| <= 1 || Ordered(schema, ToSegs(rs))
    requires k < |rs| ==> !EndBefore(schema, rs[k], ck)
    ensures forall j :: k < j < |rs| ==> !Covers(schema, rs[j], ck)
  {
    var segs := ToSegs(rs);
    forall j | k < j < |rs| ensures !Covers(schema, rs[j], ck) {
      CoversByCuts(schema, rs[k], ck);
      CoversByCuts(schema, rs[j], ck);
      assert Le(schema, segs[k].hi, segs[j].lo);
      if Before(schema, segs[j].lo, ck) { BeforeDownward(schema, segs[k].hi, segs[j].lo, ck); }
    }
  }
}
