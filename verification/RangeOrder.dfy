/** Which order the clustering axis has, and which rows a range covers, in integers
    (`ClusteringKey::compare`, `range_tombstone_covers_ck`). */
module RangeOrder {
  import opened Prelude
  import opened RangeTombstones

  predicate DescAt(schema: Schema, i: nat) { i < |schema| && schema[i] }

  /** Component a of a column sorts before b: null first in either direction, values
      reversed in a descending column. */
  predicate Precedes(desc: bool, a: Component, b: Component) {
    if b.Null? then false
    else if a.Null? then true
    else if desc then a.v > b.v
    else a.v < b.v
  }

  /** a sorts before b: at the first component that differs. */
  predicate Smaller(schema: Schema, a: seq<Component>, b: seq<Component>)
    requires |a| == |b|
  {
    exists i :: 0 <= i < |a| && SmallerAt(schema, a, b, i)
  }

  predicate SmallerAt(schema: Schema, a: seq<Component>, b: seq<Component>, i: nat)
    requires i < |a| == |b|
  {
    a[..i] == b[..i] && Precedes(DescAt(schema, i), a[i], b[i])
  }

  lemma {:induction false} CmpKeyExactly(schema: Schema, a: seq<Component>, b: seq<Component>)
    requires |a| == |b|
    ensures CmpKey(schema, a, b) < 0 <==> Smaller(schema, a, b)
    ensures CmpKey(schema, a, b) > 0 <==> Smaller(schema, b, a)
    ensures CmpKey(schema, a, b) == 0 <==> a == b
  {
    if a != [] {
      CmpKeyExactly(Next(schema), a[1..], b[1..]);
      assert a == [a[0]] + a[1..] && b == [b[0]] + b[1..];
      SmallerStep(schema, a, b);
      SmallerStep(schema, b, a);
    }
  }

  lemma {:induction false} SmallerStep(schema: Schema, a: seq<Component>, b: seq<Component>)
    requires |a| == |b| && a != []
    ensures Smaller(schema, a, b) <==>
            Precedes(DescAt(schema, 0), a[0], b[0]) || (a[0] == b[0] && Smaller(Next(schema), a[1..], b[1..]))
  {
    hide SmallerAt;
    var s, t := a[1..], b[1..];
    SmallerFirst(schema, a, b);
    forall i | 0 <= i < |s|
      ensures SmallerAt(schema, a, b, i + 1) <==> a[0] == b[0] && SmallerAt(Next(schema), s, t, i)
    {
      SmallerNext(schema, a, b, i);
    }
    if Smaller(schema, a, b) {
      var i :| 0 <= i < |a| && SmallerAt(schema, a, b, i);
      if i > 0 { assert SmallerAt(schema, a, b, (i - 1) + 1) && SmallerAt(Next(schema), s, t, i - 1); }
    }
    if a[0] == b[0] && Smaller(Next(schema), s, t) {
      var i :| 0 <= i < |s| && SmallerAt(Next(schema), s, t, i);
      assert SmallerAt(schema, a, b, i + 1);
    }
  }

  lemma {:induction false} SmallerFirst(schema: Schema, a: seq<Component>, b: seq<Component>)
    requires |a| == |b| && a != []
    ensures SmallerAt(schema, a, b, 0) <==> Precedes(DescAt(schema, 0), a[0], b[0])
  {
    assert a[..0] == b[..0];
  }

  lemma {:induction false} SmallerNext(schema: Schema, a: seq<Component>, b: seq<Component>, i: nat)
    requires |a| == |b| && i + 1 < |a|
    ensures SmallerAt(schema, a, b, i + 1) <==> a[0] == b[0] && SmallerAt(Next(schema), a[1..], b[1..], i)
  {
    var s, t := a[1..], b[1..];
    assert a[..i + 1] == [a[0]] + s[..i] && b[..i + 1] == [b[0]] + t[..i];
    if a[..i + 1] == b[..i + 1] {
      assert a[0] == a[..i + 1][0] == b[..i + 1][0] == b[0];
      assert s[..i] == a[..i + 1][1..] && t[..i] == b[..i + 1][1..];
    }
  }

  /** A range over one column covers the integers between its ends, whichever way the
      column is sorted. */
  lemma {:induction false} CoversInterval(desc: bool, a: int, b: int, x: int, startIn: bool, endIn: bool,
      m: int, l: int)
    ensures var start := if startIn then Inclusive([Val(a)]) else Exclusive([Val(a)]);
            var end := if endIn then Inclusive([Val(b)]) else Exclusive([Val(b)]);
            Covers([desc], Range(start, end, m, l), [Val(x)]) <==>
            && (if desc then x < a || (startIn && x == a) else x > a || (startIn && x == a))
            && (if desc then x > b || (endIn && x == b) else x < b || (endIn && x == b))
  {
    hide CmpKey;
    assert [Val(x)][..1] == [Val(x)];
    CmpOne(desc, x, a);
    CmpOne(desc, x, b);
  }

  lemma {:induction false} CmpOne(desc: bool, x: int, a: int)
    ensures CmpKey([desc], [Val(x)], [Val(a)]) < 0 <==> if desc then x > a else x < a
    ensures CmpKey([desc], [Val(x)], [Val(a)]) == 0 <==> x == a
  {
    assert [Val(x)][1..] == [] && [Val(a)][1..] == [];
    assert CmpKey(Next([desc]), [], []) == 0;
  }

  /** A range covers a row exactly when its key, cut to the length of each bound, is not
      before the start and not past the end, and differs from an exclusive bound. */
  lemma {:induction false} CoversExactly(schema: Schema, r: Range, ck: seq<Component>)
    requires Fits(r, |ck|)
    ensures Covers(schema, r, ck) <==>
            && !r.start.TopBound? && !r.end.BottomBound?
            && (r.start.Inclusive? ==> !Smaller(schema, ck[..|r.start.key|], r.start.key))
            && (r.start.Exclusive? ==> Smaller(schema, r.start.key, ck[..|r.start.key|]))
            && (r.end.Inclusive? ==> !Smaller(schema, r.end.key, ck[..|r.end.key|]))
            && (r.end.Exclusive? ==> Smaller(schema, ck[..|r.end.key|], r.end.key))
  {
    hide CmpKey, Smaller;
    if r.start.Inclusive? || r.start.Exclusive? { CmpKeyExactly(schema, ck[..|r.start.key|], r.start.key); }
    if r.end.Inclusive? || r.end.Exclusive? { CmpKeyExactly(schema, ck[..|r.end.key|], r.end.key); }
  }

  /** The range of the newest deletion over a gap has the greatest local deletion time
      among the ranges that are as new and span the gap. */
  lemma {:induction false} BestExactly(schema: Schema, items: seq<Seg>, lo: Cut, hi: Cut)
    ensures var b := BestOver(schema, items, lo, hi);
            && (b.None? <==> forall i :: 0 <= i < |items| ==> !Spans(schema, items[i], lo, hi))
            && (b.Some? ==> exists i :: 0 <= i < |items| && Spans(schema, items[i], lo, hi)
                              && items[i].mfda == b.value.mfda && items[i].ldt == b.value.ldt)
            && (b.Some? ==> forall i :: 0 <= i < |items| && Spans(schema, items[i], lo, hi) ==>
                              items[i].mfda < b.value.mfda
                              || (items[i].mfda == b.value.mfda && items[i].ldt <= b.value.ldt))
            && (b.Some? ==> b.value.lo == lo && b.value.hi == hi)
  {
    hide Spans;
    if items != [] {
      var n := |items| - 1;
      BestExactly(schema, items[..n], lo, hi);
      assert forall i :: 0 <= i < n ==> items[..n][i] == items[i];
      var b := BestOver(schema, items[..n], lo, hi);
      if b.Some? {
        var i :| 0 <= i < n && Spans(schema, items[..n][i], lo, hi)
                 && items[..n][i].mfda == b.value.mfda && items[..n][i].ldt == b.value.ldt;
        assert items[i] == items[..n][i];
      }
    }
  }

  // ----- the local deletion time of a coalesced range -----

  /** Some item over the row has this deletion, and none has a newer one, or an equally
      new one with a later local deletion time. */
  ghost predicate NewestOver(schema: Schema, items: seq<Seg>, ck: seq<Component>, mfda: int, ldt: int)
    requires SegsFit(items, |ck|)
  {
    && (exists i :: 0 <= i < |items| && Holds(schema, items[i], ck) && items[i].mfda == mfda && items[i].ldt == ldt)
    && (forall i :: 0 <= i < |items| && Holds(schema, items[i], ck) ==>
          items[i].mfda < mfda || (items[i].mfda == mfda && items[i].ldt <= ldt))
  }

  ghost predicate AllNewest(schema: Schema, items: seq<Seg>, segs: seq<Seg>, ck: seq<Component>)
    requires SegsFit(items, |ck|) && SegsFit(segs, |ck|)
  {
    forall i :: 0 <= i < |segs| && Holds(schema, segs[i], ck) ==>
      NewestOver(schema, items, ck, segs[i].mfda, segs[i].ldt)
  }

  lemma {:induction false} SegmentsNewest(schema: Schema, items: seq<Seg>, cuts: seq<Cut>, ck: seq<Component>)
    requires Sorted(schema, cuts) && CutsFit(cuts, |ck|) && SegsFit(items, |ck|)
    requires forall i :: 0 <= i < |items| ==> items[i].lo in cuts && items[i].hi in cuts
    ensures SegsFit(Segments(schema, items, cuts), |ck|)
    ensures AllNewest(schema, items, Segments(schema, items, cuts), ck)
  {
    hide CutCmp, Segments, BestOver, Before, Sorted;
    SegmentsFit(schema, items, cuts, |ck|);
    var segs := Segments(schema, items, cuts);
    forall n | 0 <= n < |segs| && Holds(schema, segs[n], ck)
      ensures NewestOver(schema, items, ck, segs[n].mfda, segs[n].ldt)
    {
      SegmentAt(schema, items, cuts, segs[n]);
      var i :| 0 < i < |cuts| && BestOver(schema, items, cuts[i - 1], cuts[i]) == Some(segs[n]);
      BestExactly(schema, items, cuts[i - 1], cuts[i]);
      forall m | 0 <= m < |items|
        ensures Holds(schema, items[m], ck) <==> Spans(schema, items[m], cuts[i - 1], cuts[i])
      {
        SpansGap(schema, cuts, items[m], ck, i);
      }
    }
  }

  lemma {:induction false} PushNewest(schema: Schema, items: seq<Seg>, merged: seq<Seg>, seg: Seg, ck: seq<Component>)
    requires SegsFit(items, |ck|) && SegsFit(merged, |ck|) && CutFits(seg.lo, |ck|) && CutFits(seg.hi, |ck|)
    requires forall i :: 0 <= i < |merged| ==> Le(schema, merged[i].lo, merged[i].hi)
    requires Le(schema, seg.lo, seg.hi) && AllNewest(schema, items, merged, ck)
    requires Holds(schema, seg, ck) ==> NewestOver(schema, items, ck, seg.mfda, seg.ldt)
    ensures SegsFit(PushSeg(schema, merged, seg), |ck|) && AllNewest(schema, items, PushSeg(schema, merged, seg), ck)
  {
    hide CutCmp, Before, NewestOver;
    if merged != [] && Joins(schema, merged[|merged| - 1], seg) {
      UnionHolds(schema, merged[|merged| - 1], seg, ck);
    }
  }

  lemma {:induction false} MergeNewest(schema: Schema, items: seq<Seg>, segs: seq<Seg>, ck: seq<Component>)
    requires SegsFit(items, |ck|) && SegsFit(segs, |ck|) && Ordered(schema, segs) && AllNewest(schema, items, segs, ck)
    ensures SegsFit(MergeAdjacent(schema, segs), |ck|)
    ensures AllNewest(schema, items, MergeAdjacent(schema, segs), ck)
  {
    hide CutCmp, Holds, NewestOver, PushSeg;
    if segs != [] {
      var n := |segs| - 1;
      var init := segs[..n];
      MergeNewest(schema, items, init, ck);
      MergeKeeps(schema, init);
      PushNewest(schema, items, MergeAdjacent(schema, init), segs[n], ck);
    }
  }

  /** A coalesced range carries, over every row it covers, the newest deletion of the
      inputs that cover the row, and of the equally new the latest local deletion time. */
  lemma {:induction false} CoalescedNewest(schema: Schema, rs: seq<Range>, ck: seq<Component>, n: nat)
    requires AllFit(rs, |ck|) && n < |Coalesced(schema, rs)| && AllFit(Coalesced(schema, rs), |ck|)
    requires Covers(schema, Coalesced(schema, rs)[n], ck)
    ensures var r := Coalesced(schema, rs)[n];
            && (exists i :: 0 <= i < |rs| && Covers(schema, rs[i], ck) && rs[i].mfda == r.mfda && rs[i].ldt == r.ldt)
            && (forall i :: 0 <= i < |rs| && Covers(schema, rs[i], ck) ==>
                  rs[i].mfda < r.mfda || (rs[i].mfda == r.mfda && rs[i].ldt <= r.ldt))
  {
    hide CutCmp, Before, Covers, Segments, MergeAdjacent, CutsOf;
    if |rs| > 1 {
      var items := ToSegs(rs);
      var cuts := CutsOf(schema, items);
      var r := Coalesced(schema, rs)[n];
      CutsSorted(schema, items);
      forall i | 0 <= i < |items| ensures items[i].lo in cuts && items[i].hi in cuts {
        CutMember(schema, items, items[i].lo);
        CutMember(schema, items, items[i].hi);
      }
      forall i | 0 <= i < |cuts| ensures CutFits(cuts[i], |ck|) { CutMember(schema, items, cuts[i]); }
      forall i | 0 <= i < |rs| ensures Covers(schema, rs[i], ck) <==> Holds(schema, items[i], ck) {
        CoversByCuts(schema, rs[i], ck);
      }
      var segs := Segments(schema, items, cuts);
      SegmentsNewest(schema, items, cuts, ck);
      SegmentsOrdered(schema, items, cuts);
      MergeNewest(schema, items, segs, ck);
      CoversByCuts(schema, r, ck);
      assert Holds(schema, MergeAdjacent(schema, segs)[n], ck);
      var i :| 0 <= i < |items| && Holds(schema, items[i], ck) && items[i].mfda == r.mfda && items[i].ldt == r.ldt;
      assert Covers(schema, rs[i], ck);
    }
  }
}
