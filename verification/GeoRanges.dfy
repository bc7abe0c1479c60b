/**
 The score ranges GEORADIUS scans instead of a whole sorted set
 (`geoRadiusScoreRanges` in internal/command/geo.go).
 */
module GeoRanges {
  import opened Order
  import opened Morton
  import opened GeoCells
  import opened Sorting

  /** The codes from `lo` on to before `hi`. */
  datatype Span = Span(lo: nat, hi: nat) {
    predicate Has(b: nat) {
      lo <= b < hi
    }
  }

  ghost predicate Hits(spans: seq<Span>, b: nat) {
    exists i | 0 <= i < |spans| :: spans[i].Has(b)
  }

  ghost predicate ByStart(spans: seq<Span>) {
    forall i, j | 0 <= i < j < |spans| :: spans[i].lo <= spans[j].lo
  }

  /** Ascending, with a gap between any two. */
  ghost predicate Separate(spans: seq<Span>) {
    && (forall i | 0 <= i < |spans| :: spans[i].lo < spans[i].hi)
    && (forall i, j | 0 <= i < j < |spans| :: spans[i].hi < spans[j].lo)
  }

  ghost predicate Bounded(spans: seq<Span>, limit: nat) {
    forall i | 0 <= i < |spans| :: spans[i].lo < spans[i].hi <= limit
  }

  // ----- cells -----

  /** A stored code lies in the given cell, counted by latitude and longitude. */
  predicate InCell(b: nat, lat: nat, lon: nat, k: nat) {
    Shr(Evens(b), k) == lat && Shr(Odds(b), k) == lon
  }

  /** The codes of a cell, `k` bits short of full depth. */
  function CellSpan(lat: nat, lon: nat, k: nat): Span {
    var start := ShlPairs(Weave(lat, lon), k);
    Span(start, start + ShlPairs(1, k))
  }

  lemma {:induction false} ShlPairsNext(m: nat, k: nat)
    ensures ShlPairs(m + 1, k) == ShlPairs(m, k) + ShlPairs(1, k)
  {
    if k > 0 { ShlPairsNext(m, k - 1); }
  }

  lemma {:induction false} ShlPairsPositive(k: nat)
    ensures ShlPairs(1, k) > 0
  {
    if k > 0 { ShlPairsPositive(k - 1); }
  }

  lemma {:induction false} ShlPairsAdds(n: nat, j: nat, k: nat)
    ensures ShlPairs(ShlPairs(n, j), k) == ShlPairs(n, j + k)
    decreases k
  {
    if k > 0 { ShlPairsAdds(n, j, k - 1); }
  }

  lemma {:induction false} ShlPairsOrder(m: nat, n: nat, k: nat)
    requires m <= n
    ensures ShlPairs(m, k) <= ShlPairs(n, k)
  {
    if k > 0 { ShlPairsOrder(m, n, k - 1); }
  }

  /** A cell's codes are one span of numbers. */
  lemma CellSpanIs(b: nat, lat: nat, lon: nat, k: nat)
    ensures CellSpan(lat, lon, k).Has(b) <==> InCell(b, lat, lon, k)
  {
    hide Weave, Evens, Shr, ShrPairs, ShlPairs, Odds;
    Reweave(b);
    WeavePrefix(Evens(b), Odds(b), k);
    ShrPairsIs(b, k, Weave(lat, lon));
    ShlPairsNext(Weave(lat, lon), k);
    Unweave(lat, lon);
    Unweave(Shr(Evens(b), k), Shr(Odds(b), k));
  }

  /** Every cell of the grid lies within the codes of 52 bits. */
  lemma CellSpanFits(lat: nat, lon: nat, step: nat)
    requires step <= STEP && lat < Cells(step) && lon < Cells(step)
    ensures CellSpan(lat, lon, STEP - step).hi <= ShlPairs(1, STEP)
    ensures CellSpan(lat, lon, STEP - step).lo < CellSpan(lat, lon, STEP - step).hi
  {
    hide Weave, ShlPairs, Shl;
    var k := STEP - step;
    WeaveFits(lat, lon, step);
    ShlPairsNext(Weave(lat, lon), k);
    ShlPairsOrder(Weave(lat, lon) + 1, ShlPairs(1, step), k);
    ShlPairsAdds(1, step, k);
    ShlPairsPositive(k);
  }

  /** The cell `d` places east of another, around the globe. */
  function East(lon: nat, d: int, cells: nat): nat
    requires cells > 0
  {
    (lon + d + cells) % cells
  }

  /** The spans of one row of three cells. */
  method Row(lat: nat, lon0: nat, step: nat) returns (spans: seq<Span>)
    requires step <= STEP && lon0 < Cells(step) && lat < Cells(step)
    ensures |spans| == 3
    ensures forall i | 0 <= i < 3 :: spans[i] == CellSpan(lat, East(lon0, i - 1, Cells(step)), STEP - step)
    ensures forall i | 0 <= i < 3 :: spans[i].lo < spans[i].hi <= ShlPairs(1, STEP)
  {
    hide Weave, ShlPairs, Shl, CellSpan;
    var cells := Cells(step);
    spans := [];
    for d := -1 to 2
      invariant |spans| == d + 1
      invariant forall i | 0 <= i < |spans| :: spans[i] == CellSpan(lat, East(lon0, i - 1, cells), STEP - step)
      invariant forall i | 0 <= i < |spans| :: spans[i].lo < spans[i].hi <= ShlPairs(1, STEP)
    {
      var lon := East(lon0, d, cells);
      CellSpanFits(lat, lon, step);
      spans := spans + [CellSpan(lat, lon, STEP - step)];
    }
  }

  lemma HitsConcat(a: seq<Span>, c: seq<Span>, b: nat)
    ensures Hits(a + c, b) <==> Hits(a, b) || Hits(c, b)
  {
    if Hits(a, b) {
      var i :| 0 <= i < |a| && a[i].Has(b);
      assert (a + c)[i].Has(b);
    }
    if Hits(c, b) {
      var i :| 0 <= i < |c| && c[i].Has(b);
      assert (a + c)[|a| + i].Has(b);
    }
  }

  /** The code's longitude cell is one of three around `lon0`. */
  ghost predicate Around3(b: nat, lon0: nat, step: nat)
    requires step <= STEP
  {
    ScalePositive(step);
    var lon := Shr(Odds(b), STEP - step);
    lon == East(lon0, -1, Cells(step)) || lon == East(lon0, 0, Cells(step)) || lon == East(lon0, 1, Cells(step))
  }

  lemma RowHits(spans: seq<Span>, lat: nat, lon0: nat, step: nat, b: nat)
    requires step <= STEP && Cells(step) > 0 && |spans| == 3
    requires forall i | 0 <= i < 3 :: spans[i] == CellSpan(lat, East(lon0, i - 1, Cells(step)), STEP - step)
    ensures Hits(spans, b) <==> Shr(Evens(b), STEP - step) == lat && Around3(b, lon0, step)
  {
    hide Weave, Evens, Odds, Shr, CellSpan, Shl;
    var k := STEP - step;
    CellSpanIs(b, lat, East(lon0, -1, Cells(step)), k);
    CellSpanIs(b, lat, East(lon0, 0, Cells(step)), k);
    CellSpanIs(b, lat, East(lon0, 1, Cells(step)), k);
    assert spans[0] == CellSpan(lat, East(lon0, -1, Cells(step)), k);
    assert spans[1] == CellSpan(lat, East(lon0, 0, Cells(step)), k);
    assert spans[2] == CellSpan(lat, East(lon0, 1, Cells(step)), k);
    assert Hits(spans, b) <==> spans[0].Has(b) || spans[1].Has(b) || spans[2].Has(b);
  }

  ghost predicate InRows(b: nat, from: int, to: int, lon0: nat, step: nat)
    requires step <= STEP
  {
    var lat := Shr(Evens(b), STEP - step);
    lat < Cells(step) && from <= lat < to && Around3(b, lon0, step)
  }

  /** The spans of the centre's cell and of its neighbours, rows beyond a pole left out. */
  method Block(lat0: nat, lon0: nat, step: nat) returns (spans: seq<Span>)
    requires step <= STEP && lat0 < Cells(step) && lon0 < Cells(step)
    ensures spans != [] && Bounded(spans, ShlPairs(1, STEP))
    ensures forall b :: Hits(spans, b) <==> InRows(b, lat0 - 1, lat0 + 2, lon0, step)
  {
    hide Weave, Evens, Odds, Shr, CellSpan, Shl, ShlPairs, Around3, Hits, East;
    spans := [];
    HitsNone();
    for d := -1 to 2
      invariant d >= 1 ==> spans != []
      invariant forall i | 0 <= i < |spans| :: spans[i].lo < spans[i].hi <= ShlPairs(1, STEP)
      invariant forall b :: Hits(spans, b) <==> InRows(b, lat0 - 1, lat0 + d, lon0, step)
    {
      var lat := lat0 + d;
      if 0 <= lat < Cells(step) {
        var row := Row(lat, lon0, step);
        forall b ensures Hits(spans + row, b) <==> InRows(b, lat0 - 1, lat0 + d + 1, lon0, step) {
          RowHits(row, lat, lon0, step, b);
          HitsConcat(spans, row, b);
        }
        spans := spans + row;
      }
    }
  }

  lemma HitsNone()
    ensures forall b :: !Hits([], b)
  {
  }

  // ----- sorting and merging -----

  method SortSpans(spans: seq<Span>) returns (sorted: seq<Span>)
    ensures ByStart(sorted) && multiset(sorted) == multiset(spans)
  {
    var less := (a: Span, b: Span) => a.lo < b.lo;
    sorted := Sort(spans, less);
    forall i, j | 0 <= i < j < |sorted| ensures sorted[i].lo <= sorted[j].lo {
      assert !less(sorted[j], sorted[i]);
    }
  }

  lemma SameBounds(a: seq<Span>, c: seq<Span>, limit: nat)
    requires multiset(a) == multiset(c) && a != [] && Bounded(a, limit)
    ensures c != [] && Bounded(c, limit)
  {
    assert |multiset(a)| == |multiset(c)|;
    forall i | 0 <= i < |c| ensures c[i].lo < c[i].hi <= limit {
      assert c[i] in multiset(c);
      assert c[i] in a;
    }
  }

  lemma SameHits(a: seq<Span>, c: seq<Span>, b: nat)
    requires multiset(a) == multiset(c)
    ensures Hits(a, b) <==> Hits(c, b)
  {
    forall s ensures s in a <==> s in c {
      assert s in a <==> s in multiset(a);
      assert s in c <==> s in multiset(c);
    }
    assert Hits(a, b) <==> exists s | s in a :: s.Has(b);
    assert Hits(c, b) <==> exists s | s in c :: s.Has(b);
  }

  /** The merging loop of `geoNeighborCellRanges`. */
  method Merge(sorted: seq<Span>, ghost limit: nat) returns (merged: seq<Span>)
    requires sorted != [] && ByStart(sorted) && Bounded(sorted, limit)
    ensures Separate(merged) && Bounded(merged, limit)
    ensures forall b :: Hits(merged, b) <==> Hits(sorted, b)
  {
    merged := [sorted[0]];
    assert sorted[..1] == [sorted[0]];
    for i := 1 to |sorted|
      invariant merged != [] && Separate(merged) && Bounded(merged, limit)
      invariant merged[|merged| - 1].lo <= sorted[i - 1].lo
      invariant forall b :: Hits(merged, b) <==> Hits(sorted[..i], b)
    {
      var span, n := sorted[i], |merged| - 1;
      ghost var before := merged;
      if span.lo <= merged[n].hi {
        merged := merged[n := Span(merged[n].lo, if merged[n].hi < span.hi then span.hi else merged[n].hi)];
        forall b {
          Widened(before, span, merged, b);
        }
      } else {
        merged := merged + [span];
        forall b {
          HitsConcat(before, [span], b);
        }
      }
      forall b ensures Hits(sorted[..i + 1], b) <==> Hits(sorted[..i], b) || span.Has(b) {
        HitsConcat(sorted[..i], [span], b);
        HitsOne(span, b);
        assert sorted[..i + 1] == sorted[..i] + [span];
      }
      forall b {
        HitsOne(span, b);
      }
    }
    assert sorted[..|sorted|] == sorted;
  }

  lemma HitsOne(span: Span, b: nat)
    ensures Hits([span], b) <==> span.Has(b)
  {
    assert [span][0] == span;
  }

  /** Widening the last span by one that starts no later than it ends. */
  lemma Widened(spans: seq<Span>, span: Span, now: seq<Span>, b: nat)
    requires spans != []
    requires
      var n := |spans| - 1;
      && spans[n].lo <= span.lo <= spans[n].hi
      && now == spans[n := Span(spans[n].lo, if spans[n].hi < span.hi then span.hi else spans[n].hi)]
    ensures Hits(now, b) <==> Hits(spans, b) || span.Has(b)
  {
    var n := |spans| - 1;
    if Hits(spans, b) {
      var i :| 0 <= i < |spans| && spans[i].Has(b);
      assert now[i].Has(b);
    }
    if span.Has(b) {
      assert now[n].Has(b);
    }
    if Hits(now, b) {
      var i :| 0 <= i < |now| && now[i].Has(b);
      assert i < n ==> spans[i].Has(b);
      assert i == n ==> spans[n].Has(b) || span.Has(b);
    }
  }
}
