/**
 A skip list seen from the side, level by level. A row has one slot for each node of
 the spine (the header at rank 0, then the nodes in order): `Short` where the node is
 not tall enough to take part in the level, `Tall` with its link otherwise.
 */
module SkipRows {
  import opened Splices

  const MAX_LEVEL := 16

  datatype Slot<+N> = Short | Tall(forward: N, span: int)
  type Row<N> = seq<Slot<N>>
  type Grid<N> = seq<Row<N>>

  ghost predicate NoneTall<N>(row: Row<N>, lo: int, hi: int) {
    forall k | 0 <= lo <= k < hi && k < |row| :: row[k].Short?
  }

  /**
   The link at rank `r` leads to the next tall node and spans the ranks between
   them; with no tall node left it is `none` and spans the rest of the list.
   */
  ghost predicate LinkOk<N>(spine: seq<N>, row: Row<N>, r: nat, none: N)
    requires |row| == |spine| && r < |row|
  {
    row[r].Tall? ==>
      var span := row[r].span;
      if row[r].forward == none then
        span == |row| - 1 - r && NoneTall(row, r + 1, |row|)
      else
        && 1 <= span && r + span < |row|
        && spine[r + span] == row[r].forward
        && row[r + span].Tall?
        && NoneTall(row, r + 1, r + span)
  }

  ghost predicate RowOk<N>(spine: seq<N>, row: Row<N>, none: N) {
    && |row| == |spine|
    && forall r | 0 <= r < |row| :: LinkOk(spine, row, r, none)
  }

  /** `u` is the last tall rank at or before `p`. */
  ghost predicate LastTall<N>(row: Row<N>, u: int, p: int) {
    && 0 <= u <= p < |row|
    && row[u].Tall?
    && NoneTall(row, u + 1, p + 1)
  }

  /** One row for each level and one slot for each rank; level 0 has everyone, the header is on every level. */
  ghost predicate Shape<N>(rows: Grid<N>, n: nat) {
    && |rows| == MAX_LEVEL
    && (forall j | 0 <= j < MAX_LEVEL :: |rows[j]| == n)
    && (forall r | 0 <= r < n :: rows[0][r].Tall?)
    && (forall j | 0 <= j < MAX_LEVEL && 0 < n :: rows[j][0].Tall?)
  }

  /** Above `level` there is only the header, with an empty link. */
  ghost predicate EmptyAbove<N>(rows: Grid<N>, n: nat, level: nat, none: N)
    requires Shape(rows, n) && 0 < n
  {
    && (forall j, r | level <= j < MAX_LEVEL && 1 <= r < n :: rows[j][r].Short?)
    && (forall j | level <= j < MAX_LEVEL :: rows[j][0].forward == none)
  }

  ghost predicate RowsOk<N>(spine: seq<N>, rows: Grid<N>, level: nat, none: N)
    requires level <= |rows|
  {
    forall j | 0 <= j < level :: RowOk(spine, rows[j], none)
  }

  /** Everything a skip list keeps about its links, except that the top level may be unused. */
  ghost predicate Levels<N>(spine: seq<N>, rows: Grid<N>, level: int, none: N) {
    && 1 <= level <= MAX_LEVEL
    && 0 < |spine| && Shape(rows, |spine|)
    && EmptyAbove(rows, |spine|, level, none)
    && RowsOk(spine, rows, level, none)
  }

  /** `level` is the height of the tallest node, or 1 for an empty list. */
  ghost predicate TopInUse<N>(rows: Grid<N>, n: nat, level: int, none: N)
    requires Shape(rows, n) && 0 < n && 1 <= level <= MAX_LEVEL
  {
    level == 1 || rows[level - 1][0].forward != none
  }

  // ----- joining -----

  /** The row after a node taking part in it is linked in behind rank `p`. */
  ghost function JoinTall<N>(row: Row<N>, u: int, p: int, x: N): (r: Row<N>)
    requires LastTall(row, u, p)
  {
    InsertAt(row[u := Tall(x, p - u + 1)], p + 1, Tall(row[u].forward, row[u].span - (p - u)))
  }

  /** The row after a node too short for it is linked in behind rank `p`. */
  ghost function JoinShort<N>(row: Row<N>, u: int, p: int): (r: Row<N>)
    requires LastTall(row, u, p)
  {
    InsertAt(row[u := Tall(row[u].forward, row[u].span + 1)], p + 1, Short)
  }

  lemma JoinTallOk<N>(spine: seq<N>, row: Row<N>, u: int, p: int, x: N, none: N)
    requires RowOk(spine, row, none) && LastTall(row, u, p) && x != none
    ensures RowOk(InsertAt(spine, p + 1, x), JoinTall(row, u, p, x), none)
  {
    var spine', row' := InsertAt(spine, p + 1, x), JoinTall(row, u, p, x);
    assert LinkOk(spine, row, u, none);
    hide InsertAt;
    forall r | 0 <= r < |row'| ensures LinkOk(spine', row', r, none) {
      if r <= p {
        assert LinkOk(spine, row, r, none);
      } else if r > p + 1 {
        assert LinkOk(spine, row, r - 1, none);
      }
    }
  }

  lemma JoinShortOk<N>(spine: seq<N>, row: Row<N>, u: int, p: int, x: N, none: N)
    requires RowOk(spine, row, none) && LastTall(row, u, p)
    ensures RowOk(InsertAt(spine, p + 1, x), JoinShort(row, u, p), none)
  {
    var spine', row' := InsertAt(spine, p + 1, x), JoinShort(row, u, p);
    assert LinkOk(spine, row, u, none);
    hide InsertAt;
    forall r | 0 <= r < |row'| ensures LinkOk(spine', row', r, none) {
      if r <= p {
        assert LinkOk(spine, row, r, none);
      } else if r > p + 1 {
        assert LinkOk(spine, row, r - 1, none);
      }
    }
  }

  /** `rank[j]` is where the descent towards rank `p` leaves level `j`. */
  ghost predicate Landings<N>(rows: Grid<N>, rank: seq<int>, level: nat, p: int) {
    && |rows| == |rank| == MAX_LEVEL && level <= MAX_LEVEL
    && forall j | 0 <= j < level :: LastTall(rows[j], rank[j], p)
  }

  /** Level `j` after a node `x` of height `height` is linked in behind rank `p`. */
  ghost function JoinRow<N>(rows: Grid<N>, rank: seq<int>, level: nat, p: nat, x: N, height: nat, j: nat): (row: Row<N>)
    requires Landings(rows, rank, level, p) && j < MAX_LEVEL && p < |rows[j]|
  {
    if j < level then
      assert LastTall(rows[j], rank[j], p);
      if j < height then JoinTall(rows[j], rank[j], p, x) else JoinShort(rows[j], rank[j], p)
    else InsertAt(rows[j], p + 1, Short)
  }

  /** The slot the landing on level `j` gets when `x` is linked in behind rank `p`. */
  ghost function NewSlot<N>(row: Row<N>, u: int, p: int, x: N, tall: bool): (s: Slot<N>)
    requires LastTall(row, u, p)
  {
    if tall then Tall(x, p - u + 1) else Tall(row[u].forward, row[u].span + 1)
  }

  /** The grid with the landings of the first `n` levels relinked, before `x` has a rank of its own. */
  ghost function Patch<N>(rows: Grid<N>, rank: seq<int>, level: nat, p: nat, x: N, height: nat, n: nat): (grid: Grid<N>)
    requires Landings(rows, rank, level, p) && n <= level
    ensures |grid| == MAX_LEVEL
    ensures forall j | n <= j < MAX_LEVEL :: grid[j] == rows[j]
    ensures forall j | 0 <= j < n ::
              && LastTall(rows[j], rank[j], p)
              && grid[j] == rows[j][rank[j] := NewSlot(rows[j], rank[j], p, x, j < height)]
  {
    if n == 0 then rows
    else
      assert LastTall(rows[n - 1], rank[n - 1], p);
      var slot := NewSlot(rows[n - 1], rank[n - 1], p, x, n - 1 < height);
      Patch(rows, rank, level, p, x, height, n - 1)[n - 1 := rows[n - 1][rank[n - 1] := slot]]
  }

  lemma PatchStep<N>(rows: Grid<N>, rank: seq<int>, level: nat, p: nat, x: N, height: nat, n: nat, now: Grid<N>)
    returns (slot: Slot<N>)
    requires Landings(rows, rank, level, p) && n < level
    requires now == Patch(rows, rank, level, p, x, height, n)
    ensures LastTall(rows[n], rank[n], p) && now[n] == rows[n]
    ensures slot == NewSlot(rows[n], rank[n], p, x, n < height)
    ensures now[n := now[n][rank[n] := slot]] == Patch(rows, rank, level, p, x, height, n + 1)
  {
    assert LastTall(rows[n], rank[n], p);
    slot := NewSlot(rows[n], rank[n], p, x, n < height);
  }

  /** Level `j` of the joined grid, slot by slot. */
  lemma JoinSlots<N>(rows: Grid<N>, rank: seq<int>, level: nat, p: nat, x: N, height: nat, j: nat, n: nat)
    requires Landings(rows, rank, level, p) && Shape(rows, n) && p < n && j < MAX_LEVEL && height <= level
    ensures var row := JoinRow(rows, rank, level, p, x, height, j);
            var patched := Patch(rows, rank, level, p, x, height, level)[j];
            && |row| == n + 1 && |patched| == n
            && (forall r | 0 <= r <= p :: row[r] == patched[r])
            && (forall r | p + 1 < r < n + 1 :: row[r] == patched[r - 1])
            && (j < height ==>
                  && LastTall(rows[j], rank[j], p)
                  && row[p + 1] == Tall(rows[j][rank[j]].forward, rows[j][rank[j]].span - (p - rank[j])))
            && (height <= j ==> row[p + 1] == Short)
  {
    assert j < level ==> LastTall(rows[j], rank[j], p);
  }

  ghost function Join<N>(rows: Grid<N>, rank: seq<int>, level: nat, p: nat, x: N, height: nat): (grid: Grid<N>)
    requires Landings(rows, rank, level, p) && forall j | 0 <= j < MAX_LEVEL :: p < |rows[j]|
    ensures |grid| == MAX_LEVEL
    ensures forall j | 0 <= j < MAX_LEVEL :: grid[j] == JoinRow(rows, rank, level, p, x, height, j)
  {
    seq(MAX_LEVEL, j requires 0 <= j < MAX_LEVEL => JoinRow(rows, rank, level, p, x, height, j))
  }

  lemma JoinOk<N>(spine: seq<N>, rows: Grid<N>, rank: seq<int>, level: nat, p: nat, x: N, height: nat, none: N)
    requires Levels(spine, rows, level, none) && Landings(rows, rank, level, p)
    requires 1 <= height <= level && p < |spine| && x != none
    ensures Levels(InsertAt(spine, p + 1, x), Join(rows, rank, level, p, x, height), level, none)
  {
    var spine', grid := InsertAt(spine, p + 1, x), Join(rows, rank, level, p, x, height);
    forall j | 0 <= j < MAX_LEVEL
      ensures grid[j] == JoinRow(rows, rank, level, p, x, height, j) && |grid[j]| == |spine'| && grid[j][0].Tall?
    {
      assert j < level ==> LastTall(rows[j], rank[j], p);
    }
    forall j | 0 <= j < level ensures RowOk(spine', grid[j], none) {
      assert LastTall(rows[j], rank[j], p) && RowOk(spine, rows[j], none);
      if j < height {
        JoinTallOk(spine, rows[j], rank[j], p, x, none);
      } else {
        JoinShortOk(spine, rows[j], rank[j], p, x, none);
      }
    }
    assert LastTall(rows[0], rank[0], p);
  }

  /** A node of full height puts the top level to use; a shorter one leaves it in use. */
  lemma JoinTop<N>(spine: seq<N>, rows: Grid<N>, rank: seq<int>, level: nat, p: nat, x: N, height: nat, none: N)
    requires Levels(spine, rows, level, none) && Landings(rows, rank, level, p)
    requires 1 <= height <= level && p < |spine| && x != none
    requires TopInUse(rows, |spine|, level, none) || height == level
    ensures Levels(InsertAt(spine, p + 1, x), Join(rows, rank, level, p, x, height), level, none)
    ensures TopInUse(Join(rows, rank, level, p, x, height), |spine| + 1, level, none)
  {
    JoinOk(spine, rows, rank, level, p, x, height, none);
    var grid := Join(rows, rank, level, p, x, height);
    assert LastTall(rows[level - 1], rank[level - 1], p);
    assert grid[level - 1] == JoinRow(rows, rank, level, p, x, height, level - 1);
    assert RowOk(spine, rows[level - 1], none) && LinkOk(spine, rows[level - 1], 0, none);
  }

  // ----- raising the level -----

  /** The levels from `level` to `height` opened for use: the header spans the whole list. */
  ghost function Open<N>(rows: Grid<N>, n: nat, level: nat, height: nat, none: N): (grid: Grid<N>)
    requires Shape(rows, n) && 0 < n
    ensures |grid| == MAX_LEVEL
    ensures forall j | 0 <= j < MAX_LEVEL ::
              grid[j] == if level <= j < height then rows[j][0 := Tall(none, n - 1)] else rows[j]
  {
    seq(MAX_LEVEL, j requires 0 <= j < MAX_LEVEL =>
      if level <= j < height then rows[j][0 := Tall(none, n - 1)] else rows[j])
  }

  lemma OpenOk<N>(spine: seq<N>, rows: Grid<N>, rank: seq<int>, level: nat, height: nat, c: nat, none: N)
    requires Levels(spine, rows, level, none) && Landings(rows, rank, level, c)
    requires level <= height <= MAX_LEVEL && c < |spine|
    requires forall j | level <= j < height :: rank[j] == 0
    ensures Levels(spine, Open(rows, |spine|, level, height, none), height, none)
    ensures Landings(Open(rows, |spine|, level, height, none), rank, height, c)
  {
    var grid := Open(rows, |spine|, level, height, none);
    forall j | 0 <= j < height ensures RowOk(spine, grid[j], none) && LastTall(grid[j], rank[j], c) {
      if j < level {
        assert RowOk(spine, rows[j], none) && LastTall(rows[j], rank[j], c);
      } else {
        assert forall r | 0 <= r < |spine| :: LinkOk(spine, grid[j], r, none);
      }
    }
  }

  // ----- leaving -----

  /** The slot the predecessor `u` gets when the node at rank `d` is unlinked. */
  ghost function LeaveSlot<N>(row: Row<N>, u: int, d: int): (s: Slot<N>)
    requires LastTall(row, u, d - 1) && d < |row|
  {
    if row[d].Tall? then Tall(row[d].forward, row[u].span + row[d].span - 1)
    else Tall(row[u].forward, row[u].span - 1)
  }

  /** The row after the node at rank `d` is unlinked; `u` precedes it in the row. */
  ghost function LeaveRow<N>(row: Row<N>, u: int, d: int): (r: Row<N>)
    requires LastTall(row, u, d - 1) && d < |row|
  {
    RemoveAt(row[u := LeaveSlot(row, u, d)], d)
  }

  ghost predicate Distinct<N>(spine: seq<N>, none: N) {
    && (forall i, j | 0 <= i < j < |spine| :: spine[i] != spine[j])
    && none !in spine
  }

  /** The predecessor's link leads to the removed node exactly when that node is tall. */
  lemma PredecessorLink<N>(spine: seq<N>, row: Row<N>, u: int, d: int, none: N)
    requires RowOk(spine, row, none) && LastTall(row, u, d - 1) && d < |row|
    requires Distinct(spine, none)
    ensures row[u].forward == spine[d] <==> row[d].Tall?
  {
    assert LinkOk(spine, row, u, none);
    assert spine[d] in spine;
  }

  lemma LeaveRowOk<N>(spine: seq<N>, row: Row<N>, u: int, d: int, none: N)
    requires RowOk(spine, row, none) && LastTall(row, u, d - 1) && d < |row|
    requires Distinct(spine, none)
    ensures RowOk(RemoveAt(spine, d), LeaveRow(row, u, d), none)
  {
    var spine', row' := RemoveAt(spine, d), LeaveRow(row, u, d);
    PredecessorLink(spine, row, u, d, none);
    assert LinkOk(spine, row, u, none) && LinkOk(spine, row, d, none);
    hide RemoveAt;
    forall r | 0 <= r < |row'| ensures LinkOk(spine', row', r, none) {
      if r < d {
        assert LinkOk(spine, row, r, none);
      } else {
        assert LinkOk(spine, row, r + 1, none);
      }
    }
  }

  /** The grid with the predecessors on the first `n` levels relinked around rank `d`. */
  ghost function Bypass<N>(rows: Grid<N>, rank: seq<int>, level: nat, d: nat, n: nat): (grid: Grid<N>)
    requires Landings(rows, rank, level, d - 1) && n <= level
    requires forall j | 0 <= j < level :: d < |rows[j]|
    ensures |grid| == MAX_LEVEL
    ensures forall j | n <= j < MAX_LEVEL :: grid[j] == rows[j]
    ensures forall j | 0 <= j < n ::
              LastTall(rows[j], rank[j], d - 1) && grid[j] == rows[j][rank[j] := LeaveSlot(rows[j], rank[j], d)]
  {
    if n == 0 then rows
    else
      assert LastTall(rows[n - 1], rank[n - 1], d - 1);
      Bypass(rows, rank, level, d, n - 1)[n - 1 := rows[n - 1][rank[n - 1] := LeaveSlot(rows[n - 1], rank[n - 1], d)]]
  }

  lemma BypassStep<N>(rows: Grid<N>, rank: seq<int>, level: nat, d: nat, n: nat, now: Grid<N>) returns (slot: Slot<N>)
    requires Landings(rows, rank, level, d - 1) && n < level
    requires forall j | 0 <= j < level :: d < |rows[j]|
    requires now == Bypass(rows, rank, level, d, n)
    ensures LastTall(rows[n], rank[n], d - 1) && now[n] == rows[n]
    ensures slot == LeaveSlot(rows[n], rank[n], d)
    ensures now[n := now[n][rank[n] := slot]] == Bypass(rows, rank, level, d, n + 1)
  {
    assert LastTall(rows[n], rank[n], d - 1);
    slot := LeaveSlot(rows[n], rank[n], d);
  }

  /** The grid without rank `d`. */
  ghost function Leave<N>(rows: Grid<N>, rank: seq<int>, level: nat, d: nat): (grid: Grid<N>)
    requires Landings(rows, rank, level, d - 1) && forall j | 0 <= j < MAX_LEVEL :: d < |rows[j]|
    ensures |grid| == MAX_LEVEL
    ensures forall j | 0 <= j < level :: LastTall(rows[j], rank[j], d - 1) && grid[j] == LeaveRow(rows[j], rank[j], d)
    ensures forall j | level <= j < MAX_LEVEL :: grid[j] == RemoveAt(rows[j], d)
  {
    var bypassed := Bypass(rows, rank, level, d, level);
    seq(MAX_LEVEL, j requires 0 <= j < MAX_LEVEL =>
      assert j < level ==> LastTall(rows[j], rank[j], d - 1);
      RemoveAt(bypassed[j], d))
  }

  lemma LeaveOk<N>(spine: seq<N>, rows: Grid<N>, rank: seq<int>, level: nat, d: nat, none: N)
    requires Levels(spine, rows, level, none) && Landings(rows, rank, level, d - 1)
    requires 1 <= d < |spine| && Distinct(spine, none)
    ensures Levels(RemoveAt(spine, d), Leave(rows, rank, level, d), level, none)
  {
    var spine', grid := RemoveAt(spine, d), Leave(rows, rank, level, d);
    forall j | 0 <= j < level ensures RowOk(spine', grid[j], none) && grid[j][0].Tall? {
      assert LastTall(rows[j], rank[j], d - 1) && RowOk(spine, rows[j], none);
      LeaveRowOk(spine, rows[j], rank[j], d, none);
    }
    assert LastTall(rows[0], rank[0], d - 1);
  }

  /** An unused top level can be given up. */
  lemma ShrinkOk<N>(spine: seq<N>, rows: Grid<N>, level: nat, none: N)
    requires Levels(spine, rows, level, none) && 1 < level
    requires rows[level - 1][0].forward == none
    ensures Levels(spine, rows, level - 1, none)
  {
    assert RowOk(spine, rows[level - 1], none) && LinkOk(spine, rows[level - 1], 0, none);
  }
}
