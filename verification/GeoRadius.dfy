/** GEORADIUS: the ranges it scans lose no member that may be close enough (internal/command/geo.go). */
module GeoRadius {
  import opened Arithmetic
  import opened Order
  import opened Morton
  import opened GeoCells
  import opened GeoRanges

  /** `geohashBits`: a score that is no code counts as code 0. */
  function HashBits(score: real): nat {
    if score < 0.0 || score >= ShlPairs(1, STEP + 1) as real then 0 else score.Floor
  }

  function LatitudeOf(score: real): real {
    AxisCentre(Evens(HashBits(score)), LATITUDE_MIN, LATITUDE_SIZE)
  }

  function LongitudeOf(score: real): real {
    AxisCentre(Odds(HashBits(score)), LONGITUDE_MIN, LONGITUDE_SIZE)
  }

  /** A valid position (`parseGeoCoordinates`). */
  predicate OnMap(longitude: real, latitude: real) {
    && LONGITUDE_MIN <= longitude <= LONGITUDE_MIN + LONGITUDE_SIZE
    && LATITUDE_MIN <= latitude <= LATITUDE_MIN + LATITUDE_SIZE
  }

  /** `geohashEncode` */
  function Encode(longitude: real, latitude: real): nat
    requires OnMap(longitude, latitude)
  {
    Weave(AxisBits(latitude, LATITUDE_MIN, LATITUDE_SIZE), AxisBits(longitude, LONGITUDE_MIN, LONGITUDE_SIZE))
  }

  /** The code is what interleaving the two machine words gives that hold the bits of the axes. */
  lemma EncodeWord(longitude: real, latitude: real, lat: bv64, lon: bv64)
    requires OnMap(longitude, latitude) && Small(lat) && Small(lon)
    requires Val(lat, 32) == AxisBits(latitude, LATITUDE_MIN, LATITUDE_SIZE)
    requires Val(lon, 32) == AxisBits(longitude, LONGITUDE_MIN, LONGITUDE_SIZE)
    ensures Encode(longitude, latitude) == Val(Interleave(lat, lon), 64)
  {
    hide Interleave, Val, Weave, AxisBits, Small;
    InterleaveWeaves(lat, lon, 32);
  }

  /** And the position of a code is that of the two words its word is taken apart into. */
  lemma DecodeWord(score: real, word: bv64)
    requires Val(word, 64) == HashBits(score)
    ensures LatitudeOf(score) == AxisCentre(Val(Deinterleave(word).0, 32), LATITUDE_MIN, LATITUDE_SIZE)
    ensures LongitudeOf(score) == AxisCentre(Val(Deinterleave(word).1, 32), LONGITUDE_MIN, LONGITUDE_SIZE)
  {
    hide Deinterleave, Val, Evens, Odds, AxisCentre, HashBits;
    DeinterleaveUnweaves(word, 32);
  }

  /** The middle of a finest cell is in that cell, and on the axis. */
  lemma CentreBits(bits: nat, min: real, size: real)
    requires size > 0.0 && bits < Cells(STEP)
    ensures min <= AxisCentre(bits, min, size) <= min + size
    ensures AxisBits(AxisCentre(bits, min, size), min, size) == bits
  {
    ScalePositive(STEP);
    CentreUnits(bits, min, size);
    var c, scale := AxisCentre(bits, min, size), Cells(STEP) as real;
    hide AxisCentre, Shl;
    UnitsOrder((c - min) / size, scale, bits as real + 0.5);
    OnAxis(c - min, size);
  }

  lemma OnAxis(d: real, size: real)
    requires size > 0.0 && 0.0 <= d / size <= 1.0
    ensures 0.0 <= d <= size
  {
    Undivided(d, size);
    RealOrder(0.0, d / size, size);
    RealOrder(d / size, 1.0, size);
  }

  lemma UnitsOrder(q: real, scale: real, u: real)
    requires scale > 0.0 && q * scale == u && 0.0 <= u <= scale
    ensures 0.0 <= q <= 1.0
  {
    if q < 0.0 {
      MulPositive(-q, scale);
    } else if q > 1.0 {
      MulPositive(q - 1.0, scale);
    }
  }

  /** Decoding a code of 52 bits and encoding the position gives the code back. */
  lemma DecodeEncode(score: real, b: nat)
    requires b < ShlPairs(1, STEP) && score == b as real
    ensures OnMap(LongitudeOf(score), LatitudeOf(score)) && Encode(LongitudeOf(score), LatitudeOf(score)) == b
  {
    hide AxisCentre, AxisBits, Evens, Odds, Weave, HashBits, ShlPairs;
    CodeOf(score);
    BitsFit(b);
    CentreBits(Evens(b), LATITUDE_MIN, LATITUDE_SIZE);
    CentreBits(Odds(b), LONGITUDE_MIN, LONGITUDE_SIZE);
    Reweave(b);
  }

  lemma AxisBitsFit(v: real, min: real, size: real)
    requires size > 0.0 && min <= v <= min + size
    ensures AxisBits(v, min, size) < Cells(STEP) <==> v < min + size
  {
    hide Shl, Units, AxisBits;
    UnitsBound(v, min, size);
    UnitsEnd(v, min, size);
    FloorBelow(AxisBits(v, min, size), Units(v, min, size), Cells(STEP));
  }

  lemma UnitsEnd(v: real, min: real, size: real)
    requires size > 0.0
    ensures Units(v, min, size) < Cells(STEP) as real <==> v < min + size
  {
    hide Shl;
    ScalePositive(STEP);
    QuotientEnd(v - min, size);
    ScaledEnd((v - min) / size, Cells(STEP) as real);
  }

  lemma FloorBelow(bits: nat, u: real, n: nat)
    requires bits as real <= u < bits as real + 1.0
    ensures bits < n <==> u < n as real
  {
  }

  lemma QuotientEnd(d: real, size: real)
    requires size > 0.0
    ensures d / size < 1.0 <==> d < size
  {
  }

  lemma ScaledEnd(q: real, scale: real)
    requires scale > 0.0
    ensures q * scale < scale <==> q < 1.0
  {
    if q < 1.0 {
      MulPositive(1.0 - q, scale);
    } else {
      MulSign(q - 1.0, scale);
    }
  }

  /** A position encodes to 52 bits unless it is at the upper end of an axis. */
  lemma EncodeFits(longitude: real, latitude: real)
    requires OnMap(longitude, latitude)
    ensures Encode(longitude, latitude) < ShlPairs(1, STEP) <==>
              longitude < LONGITUDE_MIN + LONGITUDE_SIZE && latitude < LATITUDE_MIN + LATITUDE_SIZE
  {
    hide AxisBits, Weave, ShlPairs;
    AxisBitsFit(latitude, LATITUDE_MIN, LATITUDE_SIZE);
    AxisBitsFit(longitude, LONGITUDE_MIN, LONGITUDE_SIZE);
    WeaveFits(AxisBits(latitude, LATITUDE_MIN, LATITUDE_SIZE),
      AxisBits(longitude, LONGITUDE_MIN, LONGITUDE_SIZE), STEP);
  }

  /** `geoCellCoords` */
  function CellCoords(longitude: real, latitude: real, step: nat): (c: (nat, nat))
    requires OnMap(longitude, latitude) && step <= STEP
    ensures c == (CentreCell(latitude, LATITUDE_MIN, LATITUDE_SIZE, step),
                  CentreCell(longitude, LONGITUDE_MIN, LONGITUDE_SIZE, step))
  {
    ScalePositive(step);
    var code := Encode(longitude, latitude);
    Unweave(AxisBits(latitude, LATITUDE_MIN, LATITUDE_SIZE), AxisBits(longitude, LONGITUDE_MIN, LONGITUDE_SIZE));
    var lat, lon := Shr(Evens(code), STEP - step), Shr(Odds(code), STEP - step);
    (if lat >= Cells(step) then Cells(step) - 1 else lat, if lon >= Cells(step) then Cells(step) - 1 else lon)
  }

  /** The member at `score` lies within the given half-height and half-width of the centre, around the globe. */
  ghost predicate InBox(score: real, longitude: real, latitude: real, deltaLatitude: real, deltaLongitude: real) {
    && -deltaLatitude <= LatitudeOf(score) - latitude <= deltaLatitude
    && exists m: int :: Turned(LongitudeOf(score), m, longitude, deltaLongitude)
  }

  /** Two longitudes are at most `delta` apart, going `m` times around. */
  ghost predicate Turned(member: real, m: int, longitude: real, delta: real) {
    -delta <= member + m as real * LONGITUDE_SIZE - longitude <= delta
  }

  /** `geoCellCovers` */
  predicate CellCovers(step: nat, deltaLatitude: real, deltaLongitude: real) {
    ScalePositive(step);
    var cells := Cells(step) as real;
    LATITUDE_SIZE / cells >= deltaLatitude && LONGITUDE_SIZE / cells >= deltaLongitude
  }

  /** The deepest depth whose cells cover the box, but at least 1. */
  method ChooseStep(deltaLatitude: real, deltaLongitude: real) returns (step: nat)
    ensures 1 <= step <= STEP && (step == 1 || CellCovers(step, deltaLatitude, deltaLongitude))
    ensures forall s | step < s <= STEP :: !CellCovers(s, deltaLatitude, deltaLongitude)
  {
    step := STEP;
    while step > 1 && !CellCovers(step, deltaLatitude, deltaLongitude)
      invariant 1 <= step <= STEP
      invariant forall s | step < s <= STEP :: !CellCovers(s, deltaLatitude, deltaLongitude)
    {
      step := step - 1;
    }
  }

  lemma EastOf(c: nat, c0: nat, m: int, cells: nat)
    requires cells > 0 && c < cells && c0 < cells && c0 - 1 <= c + m * cells <= c0 + 1
    ensures exists d | -1 <= d <= 1 :: c == East(c0, d, cells)
  {
    var d := c + m * cells - c0;
    assert c0 + d + cells == c + (m + 1) * cells;
    Modulo(c, m + 1, cells);
    assert c == East(c0, d, cells);
  }

  /** A cell number is in the grid exactly when the finest one is. */
  lemma {:induction false} ShrFits(b: nat, step: nat, k: nat)
    ensures Shr(b, k) < Shl(1, step) <==> b < Shl(1, step + k)
    decreases k
  {
    if k > 0 {
      ShrFits(b / 2, step, k - 1);
      assert Shl(1, step + k) == 2 * Shl(1, step + k - 1);
    }
  }

  lemma BitsFit(b: nat)
    requires b < ShlPairs(1, STEP)
    ensures Evens(b) < Cells(STEP) && Odds(b) < Cells(STEP)
  {
    hide Evens, Odds, Weave;
    Reweave(b);
    WeaveFits(Evens(b), Odds(b), STEP);
  }

  /** A code in the box lies in the centre's cell or next to it, at a depth whose cells cover the box. */
  lemma BoxInBlock(score: real, longitude: real, latitude: real, deltaLatitude: real, deltaLongitude: real, step: nat)
    requires OnMap(longitude, latitude) && 1 <= step <= STEP && HashBits(score) < ShlPairs(1, STEP)
    requires step == 1 || CellCovers(step, deltaLatitude, deltaLongitude)
    requires InBox(score, longitude, latitude, deltaLatitude, deltaLongitude)
    ensures
      var lat0 := CentreCell(latitude, LATITUDE_MIN, LATITUDE_SIZE, step);
      var lon0 := CentreCell(longitude, LONGITUDE_MIN, LONGITUDE_SIZE, step);
      InRows(HashBits(score), lat0 - 1, lat0 + 2, lon0, step)
  {
    hide Evens, Odds, Shr, Shl, ShlPairs, AxisCentre, HashBits, CentreCell;
    var b := HashBits(score);
    var lat0 := CentreCell(latitude, LATITUDE_MIN, LATITUDE_SIZE, step);
    var lon0 := CentreCell(longitude, LONGITUDE_MIN, LONGITUDE_SIZE, step);
    var k := STEP - step;
    BitsFit(b);
    ShrFits(Evens(b), step, k);
    ShrFits(Odds(b), step, k);
    ScalePositive(step);
    if CellCovers(step, deltaLatitude, deltaLongitude) {
      AxisNear(latitude, Evens(b), LATITUDE_MIN, LATITUDE_SIZE, step, 0);
      var m: int :| Turned(LongitudeOf(score), m, longitude, deltaLongitude);
      AxisNear(longitude, Odds(b), LONGITUDE_MIN, LONGITUDE_SIZE, step, m);
      EastOf(Shr(Odds(b), k), lon0, m, Cells(step));
    } else {
      TwoCells();
      EastOf(Shr(Odds(b), k), lon0, 0, Cells(step));
    }
  }

  lemma TwoCells()
    ensures Cells(1) == 2
  {
  }

  // ----- the ranges -----

  function SpanRange(span: Span): ScoreRange {
    ScoreRange(At(span.lo as real), At(span.hi as real), false, true)
  }

  /** Any score of the one range is below any of the other. */
  ghost predicate Before(r: ScoreRange, q: ScoreRange) {
    forall x, y :: r.Contains(x) && q.Contains(y) ==> x < y
  }

  ghost predicate InOrder(ranges: seq<ScoreRange>) {
    forall i, j | 0 <= i < j < |ranges| :: Before(ranges[i], ranges[j])
  }

  ghost predicate InSome(ranges: seq<ScoreRange>, score: real) {
    exists i | 0 <= i < |ranges| :: ranges[i].Contains(score)
  }

  /** The ranges of the spans, between those of the scores that are no codes. */
  method WithGuards(spans: seq<Span>) returns (ranges: seq<ScoreRange>)
    requires Separate(spans) && Bounded(spans, ShlPairs(1, STEP))
    ensures InOrder(ranges)
    ensures forall score: real ::
              InSome(ranges, score) <==>
                score < 0.0 || score >= ShlPairs(1, STEP) as real || (score >= 0.0 && Hits(spans, score.Floor))
  {
    hide ShlPairs;
    var limit := ShlPairs(1, STEP);
    var cells := seq(|spans|, i requires 0 <= i < |spans| => SpanRange(spans[i]));
    var low := ScoreRange(NegInf, At(0.0), false, true);
    var high := ScoreRange(At(limit as real), PosInf, false, false);
    ranges := [low] + cells + [high];
    GuardedOrder(spans, limit, ranges);
    forall score: real ensures
      InSome(ranges, score) <==> score < 0.0 || score >= limit as real || (score >= 0.0 && Hits(spans, score.Floor))
    {
      GuardedHits(spans, limit, ranges, score);
    }
  }

  ghost predicate Guarded(spans: seq<Span>, limit: nat, ranges: seq<ScoreRange>) {
    && |ranges| == |spans| + 2
    && ranges[0] == ScoreRange(NegInf, At(0.0), false, true)
    && ranges[|spans| + 1] == ScoreRange(At(limit as real), PosInf, false, false)
    && forall i | 0 < i <= |spans| :: ranges[i] == SpanRange(spans[i - 1])
  }

  lemma GuardedOrder(spans: seq<Span>, limit: nat, ranges: seq<ScoreRange>)
    requires Separate(spans) && Bounded(spans, limit) && Guarded(spans, limit, ranges)
    ensures InOrder(ranges)
  {
    forall i, j | 0 <= i < j < |ranges| ensures Before(ranges[i], ranges[j]) {
      assert i > 0 ==> ranges[i] == SpanRange(spans[i - 1]);
      assert j <= |spans| ==> ranges[j] == SpanRange(spans[j - 1]);
    }
  }

  lemma GuardedHits(spans: seq<Span>, limit: nat, ranges: seq<ScoreRange>, score: real)
    requires Bounded(spans, limit) && Guarded(spans, limit, ranges)
    ensures InSome(ranges, score) <==>
              score < 0.0 || score >= limit as real || (score >= 0.0 && Hits(spans, score.Floor))
  {
    if InSome(ranges, score) {
      var i :| 0 <= i < |ranges| && ranges[i].Contains(score);
      if 0 < i <= |spans| {
        SpanHas(spans[i - 1], score);
      }
    }
    if score < 0.0 {
      assert ranges[0].Contains(score);
    } else if score >= limit as real {
      assert ranges[|spans| + 1].Contains(score);
    } else if Hits(spans, score.Floor) {
      var i :| 0 <= i < |spans| && spans[i].Has(score.Floor);
      SpanHas(spans[i], score);
      assert ranges[i + 1].Contains(score);
    }
  }

  lemma SpanHas(span: Span, score: real)
    ensures SpanRange(span).Contains(score) <==> score >= 0.0 && span.Has(score.Floor)
  {
  }

  lemma CodeOf(score: real)
    requires 0.0 <= score < ShlPairs(1, STEP) as real
    ensures HashBits(score) == score.Floor < ShlPairs(1, STEP)
  {
    var limit := ShlPairs(1, STEP);
    assert ShlPairs(1, STEP + 1) == 4 * limit;
    hide ShlPairs;
    assert score.Floor as real <= score;
  }

  /** `geoRadiusScoreRanges`, with the bounding box given */
  method RadiusRanges(longitude: real, latitude: real, deltaLatitude: real, deltaLongitude: real)
    returns (ranges: seq<ScoreRange>)
    requires OnMap(longitude, latitude)
    ensures InOrder(ranges)
    ensures forall score | InBox(score, longitude, latitude, deltaLatitude, deltaLongitude) :: InSome(ranges, score)
  {
    hide Evens, Odds, Shr, Shl, ShlPairs, AxisCentre, HashBits, CentreCell, InRows, Hits, InOrder, Separate;
    hide CellCovers, InBox;
    var step := ChooseStep(deltaLatitude, deltaLongitude);
    var (lat0, lon0) := CellCoords(longitude, latitude, step);
    var block := Block(lat0, lon0, step);
    var sorted := SortSpans(block);
    SameBounds(block, sorted, ShlPairs(1, STEP));
    var spans := Merge(sorted, ShlPairs(1, STEP));
    ranges := WithGuards(spans);
    forall score | InBox(score, longitude, latitude, deltaLatitude, deltaLongitude) ensures InSome(ranges, score) {
      if 0.0 <= score < ShlPairs(1, STEP) as real {
        CodeOf(score);
        BoxInBlock(score, longitude, latitude, deltaLatitude, deltaLongitude, step);
        SameHits(block, sorted, HashBits(score));
      }
    }
  }

  // ----- the scan -----

  /** What `ZRangeByScores` gives: range after range. */
  ghost function Scan(s: seq<Entry>, ranges: seq<ScoreRange>): seq<Entry> {
    if ranges == [] then []
    else Scan(s, ranges[..|ranges| - 1]) + InRange(s, ranges[|ranges| - 1])
  }

  ghost function Select(s: seq<Entry>, keep: Entry -> bool): seq<Entry> {
    if s == [] then [] else (if keep(s[0]) then [s[0]] else []) + Select(s[1..], keep)
  }

  lemma {:induction false} ScanNone(s: seq<Entry>, ranges: seq<ScoreRange>)
    requires forall i, j | 0 <= i < |s| && 0 <= j < |ranges| :: !ranges[j].Contains(s[i].score)
    ensures Scan(s, ranges) == []
    decreases |ranges|
  {
    if ranges != [] {
      ScanNone(s, ranges[..|ranges| - 1]);
      InRangeNone(s, ranges[|ranges| - 1]);
    }
  }

  /** Entries above one in the last range are in no earlier range. */
  lemma NotEarlier(s: seq<Entry>, ranges: seq<ScoreRange>)
    requires s != [] && ranges != [] && Ascending(s) && InOrder(ranges)
    requires ranges[|ranges| - 1].Contains(s[0].score)
    ensures !InSome(ranges[..|ranges| - 1], s[0].score)
    ensures Scan(s[1..], ranges[..|ranges| - 1]) == []
  {
    hide Scan;
    var n := |ranges| - 1;
    forall i, j | 0 <= i < |s| && 0 <= j < n ensures !ranges[j].Contains(s[i].score) {
      ScoresAscend(s, 0, i);
      assert Before(ranges[j], ranges[n]);
    }
    ScanNone(s[1..], ranges[..n]);
  }

  ghost function Head(s: seq<Entry>, ranges: seq<ScoreRange>): seq<Entry>
    requires s != []
  {
    if InSome(ranges, s[0].score) then [s[0]] else []
  }

  lemma {:induction false} ScanHead(s: seq<Entry>, ranges: seq<ScoreRange>)
    requires s != [] && Ascending(s) && InOrder(ranges)
    ensures Scan(s, ranges) == Head(s, ranges) + Scan(s[1..], ranges)
    decreases |ranges|
  {
    if ranges != [] {
      hide InSome, InOrder, Ascending, InRange, Scan;
      var n := |ranges| - 1;
      var head, r := s[0], ranges[n];
      InOrderLess(ranges);
      ScanHead(s, ranges[..n]);
      SomeLast(ranges, head.score);
      ScanLast(s, ranges);
      ScanLast(s[1..], ranges);
      InRangeHead(s, r);
      var before := if InSome(ranges[..n], head.score) then [head] else [];
      var last := if r.Contains(head.score) then [head] else [];
      if r.Contains(head.score) {
        NotEarlier(s, ranges);
      }
      Regroup(before, Scan(s[1..], ranges[..n]), last, InRange(s[1..], r));
      assert Head(s, ranges) == before + last;
    }
  }

  /** Of two heads at most one is there, and behind the second there is nothing of the first. */
  lemma Regroup(before: seq<Entry>, a: seq<Entry>, last: seq<Entry>, c: seq<Entry>)
    requires last == [] || (before == [] && a == [])
    ensures (before + a) + (last + c) == (before + last) + (a + c)
  {
  }

  lemma InOrderLess(ranges: seq<ScoreRange>)
    requires ranges != [] && InOrder(ranges)
    ensures InOrder(ranges[..|ranges| - 1])
  {
  }

  lemma ScanLast(s: seq<Entry>, ranges: seq<ScoreRange>)
    requires ranges != []
    ensures Scan(s, ranges) == Scan(s, ranges[..|ranges| - 1]) + InRange(s, ranges[|ranges| - 1])
  {
  }

  lemma InRangeHead(s: seq<Entry>, r: ScoreRange)
    requires s != []
    ensures InRange(s, r) == (if r.Contains(s[0].score) then [s[0]] else []) + InRange(s[1..], r)
  {
  }

  lemma SomeLast(ranges: seq<ScoreRange>, score: real)
    requires ranges != []
    ensures InSome(ranges, score) <==> InSome(ranges[..|ranges| - 1], score) || ranges[|ranges| - 1].Contains(score)
  {
    if InSome(ranges[..|ranges| - 1], score) {
      var i :| 0 <= i < |ranges| - 1 && ranges[..|ranges| - 1][i].Contains(score);
      assert ranges[i].Contains(score);
    }
  }

  /** Keeping some of what was scanned is keeping them of everything, if they are all in some range. */
  lemma {:induction false} ScanLosesNone(s: seq<Entry>, ranges: seq<ScoreRange>, keep: Entry -> bool)
    requires Ascending(s) && InOrder(ranges)
    requires forall i | 0 <= i < |s| && keep(s[i]) :: InSome(ranges, s[i].score)
    ensures Select(Scan(s, ranges), keep) == Select(s, keep)
    decreases |s|
  {
    if s == [] {
      ScanNone(s, ranges);
    } else {
      hide InSome, InOrder, Scan;
      ScanHead(s, ranges);
      ScanLosesNone(s[1..], ranges, keep);
      assert ([s[0]] + Scan(s[1..], ranges))[1..] == Scan(s[1..], ranges);
      assert [] + Scan(s[1..], ranges) == Scan(s[1..], ranges);
    }
  }

  lemma {:induction false} SelectAppend(s: seq<Entry>, e: Entry, keep: Entry -> bool)
    ensures Select(s + [e], keep) == Select(s, keep) + if keep(e) then [e] else []
  {
    if s == [] {
      assert s + [e] == [e] && [e][1..] == [];
    } else {
      SelectAppend(s[1..], e, keep);
      assert (s + [e])[1..] == s[1..] + [e];
    }
  }

  /** `ZRangeByScores`, on a listing in order */
  method ScanRanges(listing: seq<Entry>, ranges: seq<ScoreRange>) returns (found: seq<Entry>)
    ensures found == Scan(listing, ranges)
  {
    hide InRange;
    found := [];
    for i := 0 to |ranges|
      invariant found == Scan(listing, ranges[..i])
    {
      assert ranges[..i + 1][..i] == ranges[..i];
      var part := RangeOf(listing, ranges[i]);
      found := found + part;
    }
    assert ranges[..|ranges|] == ranges;
  }

  method RangeOf(listing: seq<Entry>, range: ScoreRange) returns (part: seq<Entry>)
    ensures part == InRange(listing, range)
  {
    part := [];
    for i := 0 to |listing|
      invariant part == InRange(listing[..i], range)
    {
      assert listing[..i + 1] == listing[..i] + [listing[i]];
      InRangeAppend(listing[..i], [listing[i]], range);
      if range.Contains(listing[i].score) {
        part := part + [listing[i]];
      }
    }
    assert listing[..|listing|] == listing;
  }

  /**
   `handleGeoRadius`, where `close` is the test on the distance: the members found are
   those of the whole listing that pass it, in order, provided that it lets through
   nothing outside the bounding box.
   */
  method Query(listing: seq<Entry>, longitude: real, latitude: real, deltaLatitude: real, deltaLongitude: real,
               close: Entry -> bool)
    returns (found: seq<Entry>)
    requires Ascending(listing) && OnMap(longitude, latitude)
    requires forall e | e in listing && close(e) :: InBox(e.score, longitude, latitude, deltaLatitude, deltaLongitude)
    ensures found == Select(listing, close)
  {
    hide Ascending, InBox, InOrder, InSome, Scan, Select;
    var ranges := RadiusRanges(longitude, latitude, deltaLatitude, deltaLongitude);
    var entries := ScanRanges(listing, ranges);
    ScanLosesNone(listing, ranges, close);
    found := [];
    SelectNone(close);
    for i := 0 to |entries|
      invariant found == Select(entries[..i], close)
    {
      assert entries[..i + 1] == entries[..i] + [entries[i]];
      SelectAppend(entries[..i], entries[i], close);
      if close(entries[i]) {
        found := found + [entries[i]];
      }
    }
    assert entries[..|entries|] == entries;
  }

  lemma SelectNone(keep: Entry -> bool)
    ensures Select([], keep) == []
  {
  }
}
