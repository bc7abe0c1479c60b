/**
 The skip list behind large sorted sets (internal/storage/zset.go): nodes linked
 in place on up to 16 levels, with spans for rank queries.
 */
module SkipLists {
  import opened Order
  import opened Splices
  import opened SkipRows

  datatype Link = Link(forward: Node?, span: int)

  class Node {
    const member: Bytes
    const score: real
    var backward: Node?
    var levels: seq<Link>

    constructor (member: Bytes, score: real, height: nat)
      ensures this.member == member && this.score == score
      ensures backward == null && levels == seq(height, _ => Link(null, 0))
    {
      this.member := member;
      this.score := score;
      backward := null;
      levels := seq(height, _ => Link(null, 0));
    }
  }

  ghost function Key(n: Node): Entry { Entry(n.member, n.score) }

  ghost function SlotOf(n: Node, i: nat): Slot<Node?>
    reads n`levels
  {
    if i < |n.levels| then Tall(n.levels[i].forward, n.levels[i].span) else Short
  }

  /** The links stored in the nodes of the spine are those of the grid. */
  ghost predicate Shows(spine: seq<Node>, rows: Grid<Node?>)
    reads spine`levels
  {
    && |rows| == MAX_LEVEL
    && (forall j | 0 <= j < MAX_LEVEL :: |rows[j]| == |spine|)
    && forall j, r | 0 <= j < MAX_LEVEL && 0 <= r < |spine| :: SlotOf(spine[r], j) == rows[j][r]
  }

  /** The entries of the list in order; the header holds none. */
  ghost function EntriesOf(spine: seq<Node>): (s: seq<Entry>)
    requires spine != []
    ensures |s| == |spine| - 1
    ensures forall k | 0 <= k < |s| :: s[k] == Key(spine[k + 1])
  {
    seq(|spine| - 1, k requires 0 <= k < |spine| - 1 => Key(spine[k + 1]))
  }

  /** The backward pointers and the tail are the mirror image of the spine. */
  ghost predicate Mirror(spine: seq<Node>, tail: Node?)
    reads spine`backward
  {
    && tail == (if |spine| <= 1 then null else spine[|spine| - 1])
    && forall r | 1 <= r < |spine| :: spine[r].backward == if r == 1 then null else spine[r - 1]
  }

  /** The nodes below the target are the ones up to rank `c`. */
  ghost predicate Cut(spine: seq<Node>, target: Entry, c: nat) {
    c < |spine| && forall k | 1 <= k < |spine| :: EntryLess(Key(spine[k]), target) <==> k <= c
  }

  lemma CutBelow(spine: seq<Node>, target: Entry)
    requires spine != [] && Ascending(EntriesOf(spine))
    ensures Cut(spine, target, Below(EntriesOf(spine), target))
  {
    var entries := EntriesOf(spine);
    BelowIsPrefix(entries, target);
    forall k | 1 <= k < |spine| ensures EntryLess(Key(spine[k]), target) <==> k <= Below(entries, target) {
      assert entries[k - 1] == Key(spine[k]);
    }
  }

  // ----- the descent -----

  /** One level of the descent: step forward while the next node is below the target. */
  method Walk(start: Node, i: nat, target: Entry,
              ghost spine: seq<Node>, ghost rows: Grid<Node?>, ghost r0: nat, ghost c: nat)
    returns (x: Node, steps: nat)
    requires Shows(spine, rows) && Cut(spine, target, c)
    requires i < MAX_LEVEL && RowOk(spine, rows[i], null)
    requires r0 <= c && spine[r0] == start && rows[i][r0].Tall?
    ensures r0 + steps <= c && spine[r0 + steps] == x && LastTall(rows[i], r0 + steps, c)
  {
    x, steps := start, 0;
    assert SlotOf(x, i) == rows[i][r0] && LinkOk(spine, rows[i], r0, null);
    var next := x.levels[i].forward;
    while next != null && EntryLess(Entry(next.member, next.score), target)
      invariant r0 + steps <= c && spine[r0 + steps] == x
      invariant rows[i][r0 + steps].Tall? && SlotOf(x, i) == rows[i][r0 + steps] && next == x.levels[i].forward
      invariant LinkOk(spine, rows[i], r0 + steps, null)
      decreases |spine| - steps
    {
      steps := steps + x.levels[i].span;
      x := next;
      assert SlotOf(x, i) == rows[i][r0 + steps] && LinkOk(spine, rows[i], r0 + steps, null);
      next := x.levels[i].forward;
    }
  }

  /**
   The descent shared by `insert` and `delete`: on each level, the last node below
   the target and its rank.
   */
  method Search(header: Node, level: nat, target: Entry, ghost spine: seq<Node>, ghost rows: Grid<Node?>, ghost c: nat)
    returns (update: seq<Node>, rank: seq<int>)
    requires Shows(spine, rows) && Cut(spine, target, c) && spine[0] == header
    requires Levels(spine, rows, level, null)
    ensures |update| == MAX_LEVEL && Landings(rows, rank, level, c)
    ensures forall i | 0 <= i < level :: 0 <= rank[i] < |spine| && update[i] == spine[rank[i]]
  {
    update, rank := seq(MAX_LEVEL, _ => header), seq(MAX_LEVEL, _ => 0);
    var x := header;
    var i := level - 1;
    while i >= 0
      invariant -1 <= i < level
      invariant |update| == |rank| == MAX_LEVEL
      invariant i == level - 1 ==> x == header
      invariant i < level - 1 ==> x == update[i + 1]
      invariant forall j | i < j < level :: LastTall(rows[j], rank[j], c)
      invariant forall j | i < j < level :: 0 <= rank[j] < |spine| && update[j] == spine[rank[j]]
    {
      rank := rank[i := if i == level - 1 then 0 else rank[i + 1]];
      assert RowOk(spine, rows[i], null);
      assert i < level - 1 ==> LastTall(rows[i + 1], rank[i + 1], c);
      assert rows[i][rank[i]].Tall? by { Downward(spine, rows, i, rank[i]); }
      var steps;
      x, steps := Walk(x, i, target, spine, rows, rank[i], c);
      rank := rank[i := rank[i] + steps];
      update := update[i := x];
      i := i - 1;
    }
  }

  /** A node on a level is on every level below it. */
  lemma Downward(spine: seq<Node>, rows: Grid<Node?>, i: nat, r: nat)
    requires Shows(spine, rows) && i < MAX_LEVEL && r < |spine|
    ensures i + 1 < MAX_LEVEL && rows[i + 1][r].Tall? ==> rows[i][r].Tall?
  {
    assert SlotOf(spine[r], i) == rows[i][r];
    assert i + 1 < MAX_LEVEL ==> SlotOf(spine[r], i + 1) == rows[i + 1][r];
  }

  // ----- writing links -----

  /** Overwrites one link; every other slot of the spine keeps its value. */
  method SetLink(node: Node, i: nat, link: Link, ghost spine: seq<Node>, ghost rows: Grid<Node?>, ghost r: nat)
    requires Shows(spine, rows) && Distinct(spine, null)
    requires r < |spine| && spine[r] == node && i < MAX_LEVEL && rows[i][r].Tall?
    modifies node`levels
    ensures |node.levels| == old(|node.levels|)
    ensures Shows(spine, rows[i := rows[i][r := Tall(link.forward, link.span)]])
  {
    assert SlotOf(spine[r], i) == rows[i][r];
    node.levels := node.levels[i := link];
    forall j, k | 0 <= j < MAX_LEVEL && 0 <= k < |spine|
      ensures SlotOf(spine[k], j) == rows[i := rows[i][r := Tall(link.forward, link.span)]][j][k]
    {
      assert old(SlotOf(spine[k], j)) == rows[j][k];
    }
  }

  /** Adds `delta` to one span. */
  method AdjustSpan(u: Node, i: nat, delta: int,
                    ghost spine: seq<Node>, ghost rows: Grid<Node?>, ghost r: nat, ghost slot: Slot<Node?>)
    requires Shows(spine, rows) && Distinct(spine, null)
    requires r < |spine| && spine[r] == u && i < MAX_LEVEL && rows[i][r].Tall?
    requires slot == Tall(rows[i][r].forward, rows[i][r].span + delta)
    modifies u`levels
    ensures Shows(spine, rows[i := rows[i][r := slot]])
  {
    assert SlotOf(spine[r], i) == rows[i][r];
    SetLink(u, i, Link(u.levels[i].forward, u.levels[i].span + delta), spine, rows, r);
  }

  /** One level the new node `x` takes part in. */
  method LinkLevel(x: Node, i: nat, u: Node, gap: int,
                   ghost spine: seq<Node>, ghost rows: Grid<Node?>, ghost r: nat, ghost slot: Slot<Node?>)
    requires Shows(spine, rows) && Distinct(spine, null) && x !in spine
    requires r < |spine| && spine[r] == u && i < MAX_LEVEL && rows[i][r].Tall? && i < |x.levels|
    requires slot == Tall(x, gap + 1)
    modifies x`levels, u`levels
    ensures x.levels == old(x.levels)[i := Link(rows[i][r].forward, rows[i][r].span - gap)]
    ensures Shows(spine, rows[i := rows[i][r := slot]])
  {
    assert SlotOf(spine[r], i) == rows[i][r];
    var link := u.levels[i];
    x.levels := x.levels[i := Link(link.forward, link.span - gap)];
    SetLink(u, i, Link(x, gap + 1), spine, rows, r);
  }

  /** The links `x` takes over from the landings of the first `n` levels. */
  ghost predicate TakesOver(levels: seq<Link>, rows: Grid<Node?>, rank: seq<int>, level: nat, p: nat, n: nat)
    requires Landings(rows, rank, level, p)
  {
    n <= |levels| && n <= level
    && forall j | 0 <= j < n :: LastTall(rows[j], rank[j], p) &&
         levels[j] == Link(rows[j][rank[j]].forward, rows[j][rank[j]].span - (p - rank[j]))
  }

  lemma TakeOver(levels: seq<Link>, rows: Grid<Node?>, rank: seq<int>, level: nat, p: nat, n: nat, link: Link)
    requires Landings(rows, rank, level, p) && n < level && n < |levels|
    requires TakesOver(levels, rows, rank, level, p, n)
    requires LastTall(rows[n], rank[n], p)
    requires link == Link(rows[n][rank[n]].forward, rows[n][rank[n]].span - (p - rank[n]))
    ensures TakesOver(levels[n := link], rows, rank, level, p, n + 1)
  {
  }

  /** The levels the new node `x` takes part in. */
  method LinkIn(x: Node, update: seq<Node>, rank: seq<int>, height: nat,
                ghost spine: seq<Node>, ghost rows: Grid<Node?>, ghost level: nat)
    requires Shows(spine, rows) && Distinct(spine, null) && x !in spine
    requires rank != [] && rank[0] >= 0 && Landings(rows, rank, level, rank[0])
    requires 1 <= height <= level && |update| == MAX_LEVEL && |x.levels| == height
    requires forall i | 0 <= i < level :: 0 <= rank[i] < |spine| && update[i] == spine[rank[i]]
    modifies x`levels, spine`levels
    ensures Shows(spine, Patch(rows, rank, level, rank[0], x, height, height))
    ensures |x.levels| == height && TakesOver(x.levels, rows, rank, level, rank[0], height)
  {
    hide Shows, Distinct;
    var i := 0;
    ghost var now := Patch(rows, rank, level, rank[0], x, height, 0);
    while i < height
      invariant 0 <= i <= height
      invariant now == Patch(rows, rank, level, rank[0], x, height, i)
      invariant Shows(spine, now)
      invariant |x.levels| == height && TakesOver(x.levels, rows, rank, level, rank[0], i)
    {
      ghost var slot := PatchStep(rows, rank, level, rank[0], x, height, i, now);
      TakeOver(x.levels, rows, rank, level, rank[0], i,
               Link(rows[i][rank[i]].forward, rows[i][rank[i]].span - (rank[0] - rank[i])));
      LinkLevel(x, i, update[i], rank[0] - rank[i], spine, now, rank[i], slot);
      now := now[i := now[i][rank[i] := slot]];
      i := i + 1;
    }
  }

  /** The levels above the new node: their spans grow over it. */
  method Widen(update: seq<Node>, height: nat, level: nat, ghost x: Node, ghost rank: seq<int>, ghost p: nat,
               ghost spine: seq<Node>, ghost rows: Grid<Node?>)
    requires Distinct(spine, null) && Landings(rows, rank, level, p)
    requires height <= level && |update| == MAX_LEVEL
    requires Shows(spine, Patch(rows, rank, level, p, x, height, height))
    requires forall i | 0 <= i < level :: 0 <= rank[i] < |spine| && update[i] == spine[rank[i]]
    modifies spine`levels
    ensures Shows(spine, Patch(rows, rank, level, p, x, height, level))
  {
    hide Shows, Distinct;
    var i := height;
    ghost var now := Patch(rows, rank, level, p, x, height, height);
    while i < level
      invariant height <= i <= level
      invariant now == Patch(rows, rank, level, p, x, height, i)
      invariant Shows(spine, now)
    {
      ghost var slot := PatchStep(rows, rank, level, p, x, height, i, now);
      AdjustSpan(update[i], i, 1, spine, now, rank[i], slot);
      now := now[i := now[i][rank[i] := slot]];
      i := i + 1;
    }
  }

  /** Once relinked, the nodes with `x` among them show the joined grid. */
  lemma ShowsJoined(spine: seq<Node>, rows: Grid<Node?>, rank: seq<int>, level: nat, p: nat, x: Node)
    requires Landings(rows, rank, level, p) && Shape(rows, |spine|) && p < |spine|
    requires 1 <= |x.levels| <= level
    requires Shows(spine, Patch(rows, rank, level, p, x, |x.levels|, level))
    requires TakesOver(x.levels, rows, rank, level, p, |x.levels|)
    ensures Shows(InsertAt(spine, p + 1, x), Join(rows, rank, level, p, x, |x.levels|))
  {
    hide LastTall, JoinRow;
    var spine', rows', patched :=
      InsertAt(spine, p + 1, x), Join(rows, rank, level, p, x, |x.levels|),
      Patch(rows, rank, level, p, x, |x.levels|, level);
    forall j | 0 <= j < MAX_LEVEL
      ensures |rows'[j]| == |spine'| && forall r | 0 <= r < |spine'| :: SlotOf(spine'[r], j) == rows'[j][r]
    {
      JoinSlots(rows, rank, level, p, x, |x.levels|, j, |spine|);
      forall r | 0 <= r < |spine'| ensures SlotOf(spine'[r], j) == rows'[j][r] {
        if r <= p {
          assert SlotOf(spine[r], j) == patched[j][r];
        } else if r > p + 1 {
          assert SlotOf(spine[r - 1], j) == patched[j][r - 1];
        }
      }
    }
  }

  /** What holds of the nodes of a list and of the links they are to show. */
  ghost predicate Chain(spine: seq<Node>, rows: Grid<Node?>, level: int) {
    && spine != []
    && Distinct(spine, null)
    && Ascending(EntriesOf(spine))
    && Levels(spine, rows, level, null)
  }

  ghost predicate ChainInUse(spine: seq<Node>, rows: Grid<Node?>, level: int) {
    && Chain(spine, rows, level)
    && TopInUse(rows, |spine|, level, null)
  }

  /** Links `x` in on every level. */
  method LinkAll(x: Node, update: seq<Node>, rank: seq<int>, height: nat, level: nat,
                 ghost spine: seq<Node>, ghost rows: Grid<Node?>)
    returns (ghost spine': seq<Node>, ghost rows': Grid<Node?>)
    requires Shows(spine, rows) && Chain(spine, rows, level) && x !in spine && Key(x) !in EntriesOf(spine)
    requires rank != [] && rank[0] == Below(EntriesOf(spine), Key(x)) && Landings(rows, rank, level, rank[0])
    requires 1 <= height <= level && |update| == MAX_LEVEL && |x.levels| == height
    requires forall i | 0 <= i < level :: 0 <= rank[i] < |spine| && update[i] == spine[rank[i]]
    requires TopInUse(rows, |spine|, level, null) || height == level
    modifies x`levels, spine`levels
    ensures spine' == InsertAt(spine, rank[0] + 1, x)
    ensures Shows(spine', rows') && ChainInUse(spine', rows', level)
    ensures EntriesOf(spine') == InsertAt(EntriesOf(spine), rank[0], Key(x))
  {
    spine', rows' := InsertAt(spine, rank[0] + 1, x), Join(rows, rank, level, rank[0], x, height);
    JoinTop(spine, rows, rank, level, rank[0], x, height, null);
    InsertKeepsOrder(spine, rank[0], x);
    Relink(x, update, rank, height, level, spine, rows);
  }

  method Relink(x: Node, update: seq<Node>, rank: seq<int>, height: nat, level: nat,
                 ghost spine: seq<Node>, ghost rows: Grid<Node?>)
    requires Shows(spine, rows) && Shape(rows, |spine|) && Distinct(spine, null) && x !in spine
    requires rank != [] && 0 <= rank[0] < |spine| && Landings(rows, rank, level, rank[0])
    requires 1 <= height <= level && |update| == MAX_LEVEL && |x.levels| == height
    requires forall i | 0 <= i < level :: 0 <= rank[i] < |spine| && update[i] == spine[rank[i]]
    modifies x`levels, spine`levels
    ensures Shows(InsertAt(spine, rank[0] + 1, x), Join(rows, rank, level, rank[0], x, height))
  {
    hide Shows, Distinct, LastTall;
    LinkIn(x, update, rank, height, spine, rows, level);
    Widen(update, height, level, x, rank, rank[0], spine, rows);
    ShowsJoined(spine, rows, rank, level, rank[0], x);
  }

  /** Gives the header a span over the whole list on the levels that open. */
  method OpenLevels(header: Node, from: nat, to: nat, length: int, update0: seq<Node>, rank0: seq<int>,
                    ghost spine: seq<Node>, ghost rows: Grid<Node?>)
    returns (update: seq<Node>, rank: seq<int>)
    requires from <= to <= MAX_LEVEL && |update0| == |rank0| == MAX_LEVEL
    requires Shows(spine, rows) && Levels(spine, rows, from, null) && Distinct(spine, null)
    requires spine[0] == header && length == |spine| - 1
    modifies header`levels
    ensures |update| == |rank| == MAX_LEVEL
    ensures forall j | 0 <= j < from :: update[j] == update0[j] && rank[j] == rank0[j]
    ensures forall j | from <= j < to :: update[j] == header && rank[j] == 0
    ensures Shows(spine, Open(rows, |spine|, from, to, null))
  {
    hide RowsOk, Distinct;
    update, rank := update0, rank0;
    var i := from;
    assert Open(rows, |spine|, from, from, null) == rows;
    while i < to
      invariant from <= i <= to
      invariant |update| == |rank| == MAX_LEVEL
      invariant forall j | 0 <= j < from :: update[j] == update0[j] && rank[j] == rank0[j]
      invariant forall j | from <= j < i :: update[j] == header && rank[j] == 0
      invariant Shows(spine, Open(rows, |spine|, from, i, null))
    {
      rank := rank[i := 0];
      update := update[i := header];
      ghost var wide := Open(rows, |spine|, from, i, null);
      assert SlotOf(spine[0], i) == wide[i][0] == rows[i][0];
      SetLink(header, i, Link(header.levels[i].forward, length), spine, wide, 0);
      assert wide[i := wide[i][0 := Tall(null, length)]] == Open(rows, |spine|, from, i + 1, null);
      i := i + 1;
    }
  }

  /** The backward pointers around a node coming in behind rank `p`. */
  method TieIn(x: Node, pred: Node?, next: Node?, tail: Node?, ghost spine: seq<Node>, ghost p: nat)
    returns (tail': Node?)
    requires Mirror(spine, tail) && Distinct(spine, null) && x !in spine && p < |spine|
    requires pred == if p == 0 then null else spine[p]
    requires next == if p + 1 < |spine| then spine[p + 1] else null
    modifies x`backward, spine`backward
    ensures Mirror(InsertAt(spine, p + 1, x), tail')
  {
    assert p + 1 < |spine| ==> spine[p + 1] in spine;
    x.backward := pred;
    tail' := tail;
    if next != null {
      next.backward := x;
    } else {
      tail' := x;
    }
    ghost var spine' := InsertAt(spine, p + 1, x);
    assert tail' == spine'[|spine'| - 1];
    forall r | 1 <= r < |spine'| ensures spine'[r].backward == if r == 1 then null else spine'[r - 1] {
      if r <= p {
        assert spine'[r] == spine[r] && spine[r] in spine && spine'[r - 1] == spine[r - 1];
        assert spine[r].backward == old(spine[r].backward);
      } else if r == p + 2 {
        assert spine'[r] == next;
      } else if r > p + 2 {
        assert spine'[r] == spine[r - 1] && spine[r - 1] in spine && spine'[r - 1] == spine[r - 2];
        assert spine[r - 1].backward == old(spine[r - 1].backward);
      }
    }
    assert Mirror(spine', tail');
  }

  /** The backward pointers around a node leaving rank `d`. */
  method TieOut(node: Node, next: Node?, tail: Node?, ghost spine: seq<Node>, ghost d: nat)
    returns (tail': Node?)
    requires Mirror(spine, tail) && Distinct(spine, null) && 1 <= d < |spine| && spine[d] == node
    requires next == if d + 1 < |spine| then spine[d + 1] else null
    modifies spine`backward
    ensures Mirror(RemoveAt(spine, d), tail')
  {
    tail' := tail;
    if next != null {
      next.backward := node.backward;
    } else {
      tail' := node.backward;
    }
    ghost var spine' := RemoveAt(spine, d);
    assert |spine'| > 1 ==> spine'[|spine'| - 1] == spine[if next == null then d - 1 else |spine| - 1];
    forall r | 1 <= r < |spine'| ensures spine'[r].backward == if r == 1 then null else spine'[r - 1] {
      if r < d {
        assert spine'[r] == spine[r] && spine'[r - 1] == spine[r - 1];
        assert spine[r].backward == old(spine[r].backward);
      } else if r == d {
        assert spine'[r] == next && spine'[r - 1] == spine[d - 1];
      } else {
        assert spine'[r] == spine[r + 1] && spine'[r - 1] == spine[r];
        assert spine[r + 1].backward == old(spine[r + 1].backward);
      }
    }
    assert Mirror(spine', tail');
  }

  // ----- unlinking -----

  /** The links of every level led around the node at rank `d` (`deleteNode`). */
  method Unlink(node: Node, update: seq<Node>, level: nat, ghost rank: seq<int>, ghost d: nat,
                ghost spine: seq<Node>, ghost rows: Grid<Node?>)
    requires Shows(spine, rows) && Levels(spine, rows, level, null) && Distinct(spine, null)
    requires Landings(rows, rank, level, d - 1) && 1 <= d < |spine| && spine[d] == node
    requires |update| == MAX_LEVEL
    requires forall i | 0 <= i < level :: 0 <= rank[i] < |spine| && update[i] == spine[rank[i]]
    modifies spine`levels
    ensures Shows(spine, Bypass(rows, rank, level, d, level))
  {
    var i := 0;
    ghost var now := Bypass(rows, rank, level, d, 0);
    while i < level
      invariant 0 <= i <= level
      invariant now == Bypass(rows, rank, level, d, i)
      invariant Shows(spine, now)
    {
      ghost var slot := BypassStep(rows, rank, level, d, i, now);
      assert RowOk(spine, rows[i], null);
      UnlinkLevel(node, update[i], i, spine, now, rank[i], d, slot);
      now := now[i := now[i][rank[i] := slot]];
      i := i + 1;
    }
  }

  method UnlinkLevel(node: Node, u: Node, i: nat, ghost spine: seq<Node>, ghost rows: Grid<Node?>,
                     ghost r: nat, ghost d: nat, ghost slot: Slot<Node?>)
    requires Shows(spine, rows) && Distinct(spine, null)
    requires i < MAX_LEVEL && RowOk(spine, rows[i], null) && LastTall(rows[i], r, d - 1)
    requires d < |spine| && spine[d] == node && spine[r] == u
    requires slot == LeaveSlot(rows[i], r, d)
    modifies u`levels
    ensures Shows(spine, rows[i := rows[i][r := slot]])
  {
    PredecessorLink(spine, rows[i], r, d, null);
    assert SlotOf(spine[r], i) == rows[i][r] && SlotOf(spine[d], i) == rows[i][d];
    if u.levels[i].forward == node {
      SetLink(u, i, Link(node.levels[i].forward, u.levels[i].span + (node.levels[i].span - 1)), spine, rows, r);
    } else {
      SetLink(u, i, Link(u.levels[i].forward, u.levels[i].span - 1), spine, rows, r);
    }
  }

  lemma ShowsLeft(spine: seq<Node>, rows: Grid<Node?>, rank: seq<int>, level: nat, d: nat)
    requires Landings(rows, rank, level, d - 1) && Shape(rows, |spine|) && d < |spine|
    requires Shows(spine, Bypass(rows, rank, level, d, level))
    ensures Shows(RemoveAt(spine, d), Leave(rows, rank, level, d))
  {
    var spine', rows', bypassed := RemoveAt(spine, d), Leave(rows, rank, level, d), Bypass(rows, rank, level, d, level);
    forall j | 0 <= j < MAX_LEVEL
      ensures |rows'[j]| == |spine'| && forall r | 0 <= r < |spine'| :: SlotOf(spine'[r], j) == rows'[j][r]
    {
      assert j < level ==> LastTall(rows[j], rank[j], d - 1);
      assert rows'[j] == RemoveAt(bypassed[j], d);
      forall r | 0 <= r < |spine'| ensures SlotOf(spine'[r], j) == rows'[j][r] {
        assert SlotOf(spine'[r], j) == bypassed[j][if r < d then r else r + 1];
      }
    }
  }

  // ----- the list -----

  class SkipList {
    const header: Node
    var tail: Node?
    var level: int
    var length: int
    /** The header followed by the nodes in ascending order: `spine[r]` has rank `r`. */
    ghost var spine: seq<Node>
    /** The links of the nodes, level by level. */
    ghost var rows: Grid<Node?>

    ghost predicate Valid()
      reads this, spine
    {
      && ChainInUse(spine, rows, level) && spine[0] == header
      && length == |spine| - 1
      && Shows(spine, rows)
      && Mirror(spine, tail)
    }

    /** The nodes in use. */
    ghost function Nodes(): set<Node>
      reads this`spine
    {
      set n | n in spine
    }

    ghost function Entries(): seq<Entry>
      reads this, spine
      requires Valid()
    {
      EntriesOf(spine)
    }

    constructor ()
      ensures Valid() && fresh(spine)
      ensures Entries() == []
    {
      header := new Node([], 0.0, MAX_LEVEL);
      tail := null;
      level := 1;
      length := 0;
      new;
      spine := [header];
      rows := seq(MAX_LEVEL, _ => [Tall(null, 0)]);
      assert RowOk(spine, rows[0], null) by { assert LinkOk(spine, rows[0], 0, null); }
    }

    /** `randomZSetLevel`: any height from 1 to 16. */
    static method RandomLevel() returns (height: nat)
      ensures 1 <= height <= MAX_LEVEL
    {
      height := 1;
      while height < MAX_LEVEL
        invariant 1 <= height <= MAX_LEVEL
      {
        if * { break; }
        height := height + 1;
      }
    }

    /** The first half of `insert`: the descent, the height of the new node and the levels it opens. */
    method Place(target: Entry) returns (update: seq<Node>, rank: seq<int>, height: nat)
      requires Valid()
      modifies this`level, this`rows, header`levels
      ensures Shows(spine, rows) && Chain(spine, rows, level) && 1 <= height <= level
      ensures TopInUse(rows, |spine|, level, null) || height == level
      ensures |update| == MAX_LEVEL && rank != [] && rank[0] == Below(EntriesOf(spine), target)
      ensures Landings(rows, rank, level, rank[0])
      ensures forall i | 0 <= i < level :: 0 <= rank[i] < |spine| && update[i] == spine[rank[i]]
    {
      hide Shows, Mirror, Distinct, Ascending, RowsOk, EmptyAbove, LastTall;
      ghost var c := Below(EntriesOf(spine), target);
      CutBelow(spine, target);
      update, rank := Search(header, level, target, spine, rows, c);
      height := RandomLevel();
      if height > level {
        ghost var rank0 := rank;
        update, rank := OpenLevels(header, level, height, length, update, rank, spine, rows);
        assert Landings(rows, rank, level, c) by {
          assert forall j | 0 <= j < level :: LastTall(rows[j], rank0[j], c);
        }
        OpenOk(spine, rows, rank, level, height, c, null);
        rows := Open(rows, |spine|, level, height, null);
        level := height;
      }
      BottomLanding(rows, |spine|, rank, level, c);
    }

    /**
     `insert`: links a new node of arbitrary height in at its place. The callers
     never insert an entry that is already present.
     */
    method Insert(score: real, member: Bytes) returns (x: Node)
      requires Valid() && Entry(member, score) !in Entries()
      modifies this, Nodes()
      ensures Valid() && fresh(x) && Nodes() == old(Nodes()) + {x}
      ensures spine == InsertAt(old(spine), Below(EntriesOf(old(spine)), Entry(member, score)) + 1, x)
      ensures Entries() == InsertAt(old(Entries()), Below(old(Entries()), Entry(member, score)), Entry(member, score))
    {
      hide Shows, Mirror, Landings, Distinct, Ascending, Levels;
      var update, rank, height := Place(Entry(member, score));
      x := new Node(member, score, height);
      InsertNode(x, update, rank, height);
      InsertNodes(old(spine), rank[0] + 1, x);
    }

    method InsertNode(x: Node, update: seq<Node>, rank: seq<int>, height: nat)
      requires Shows(spine, rows) && Chain(spine, rows, level) && spine[0] == header
      requires Mirror(spine, tail) && length == |spine| - 1
      requires x !in spine && Key(x) !in EntriesOf(spine) && |x.levels| == height
      requires 1 <= height <= level && (TopInUse(rows, |spine|, level, null) || height == level)
      requires |update| == MAX_LEVEL && rank != [] && rank[0] == Below(EntriesOf(spine), Key(x))
      requires Landings(rows, rank, level, rank[0])
      requires forall i | 0 <= i < level :: 0 <= rank[i] < |spine| && update[i] == spine[rank[i]]
      modifies this, x, spine
      ensures Valid() && spine == InsertAt(old(spine), rank[0] + 1, x)
      ensures EntriesOf(spine) == InsertAt(EntriesOf(old(spine)), rank[0], Key(x))
    {
      hide Shows, Mirror, Landings, Ascending, Levels, TopInUse;
      ghost var spine', rows' := LinkAll(x, update, rank, height, level, spine, rows);
      BottomLink(spine', rows', level, rank[0] + 1);
      var tail' := TieIn(x, if update[0] == header then null else update[0], x.levels[0].forward, tail, spine, rank[0]);
      Install(tail', level, length + 1, spine', rows');
    }

    /** Stores the new state of a list whose nodes are already linked. */
    method Install(tail': Node?, level': int, length': int, ghost spine': seq<Node>, ghost rows': Grid<Node?>)
      requires ChainInUse(spine', rows', level') && spine'[0] == header && length' == |spine'| - 1
      requires Shows(spine', rows') && Mirror(spine', tail')
      modifies this
      ensures Valid() && spine == spine'
    {
      tail, level, length := tail', level', length';
      spine, rows := spine', rows';
    }

    /** `delete`: unlinks the entry, if it is there. */
    method Delete(score: real, member: Bytes) returns (found: bool)
      requires Valid()
      modifies this, Nodes()
      ensures Valid() && Nodes() <= old(Nodes())
      ensures found <==> Entry(member, score) in old(Entries())
      ensures !found ==> spine == old(spine)
      ensures found ==> Below(EntriesOf(old(spine)), Entry(member, score)) + 1 < |old(spine)|
                        && spine == RemoveAt(old(spine), Below(EntriesOf(old(spine)), Entry(member, score)) + 1)
    {
      var target := Entry(member, score);
      ghost var c := Below(EntriesOf(spine), target);
      CutBelow(spine, target);
      BelowFinds(EntriesOf(spine), target);
      var update, rank := Search(header, level, target, spine, rows, c);
      BottomLanding(rows, |spine|, rank, level, c);
      BottomLink(spine, rows, level, c);
      var x := update[0].levels[0].forward;
      if x == null || x.score != score || x.member != member {
        return false;
      }
      DeleteNode(x, update, rank, c + 1);
      return true;
    }

    method DeleteNode(node: Node, update: seq<Node>, ghost rank: seq<int>, ghost d: nat)
      requires Valid() && 1 <= d < |spine| && spine[d] == node
      requires |update| == MAX_LEVEL && Landings(rows, rank, level, d - 1)
      requires forall i | 0 <= i < level :: 0 <= rank[i] < |spine| && update[i] == spine[rank[i]]
      modifies this, spine
      ensures Valid() && spine == RemoveAt(old(spine), d)
    {
      BottomLink(spine, rows, level, d);
      var next := node.levels[0].forward;
      var level';
      ghost var spine', rows';
      level', spine', rows' := UnlinkAll(header, node, update, level, rank, d, spine, rows);
      var tail' := TieOut(node, next, tail, spine, d);
      Install(tail', level', length - 1, spine', rows');
    }

    /** Walking level 0 visits the entries in order. */
    lemma Forward(r: nat)
      requires Valid() && r < |spine|
      ensures 0 < |spine[r].levels|
      ensures spine[r].levels[0].forward == if r + 1 < |spine| then spine[r + 1] else null
      ensures 1 <= r ==> Entries()[r - 1] == Entry(spine[r].member, spine[r].score)
    {
      BottomLink(spine, rows, level, r);
    }

    lemma Sizes()
      requires Valid()
      ensures spine != [] && spine[0] == header && |Entries()| == |spine| - 1 == length
    {
    }

    /** `getByRank`: the node at a one-based rank. */
    method GetByRank(rank: int) returns (x: Node?)
      requires Valid()
      ensures x == if 1 <= rank <= length then spine[rank] else null
    {
      if rank <= 0 || rank > length { return null; }
      var node, traversed := header, 0;
      var i := level - 1;
      while i >= 0
        invariant -1 <= i < level
        invariant 0 <= traversed < rank && spine[traversed] == node
        invariant i >= 0 ==> rows[i][traversed].Tall?
        invariant i < 0 ==> traversed == rank
      {
        node, traversed := WalkByRank(node, i, rank, traversed, spine, rows);
        if traversed == rank { return node; }
        assert i > 0 by {
          assert RowOk(spine, rows[0], null) && LinkOk(spine, rows[0], traversed, null) && rows[0][traversed + 1].Tall?;
        }
        Downward(spine, rows, i - 1, traversed);
        i := i - 1;
      }
      return null;
    }

    /** `firstInScoreRange`: the first node not below the lower bound. */
    method FirstInScoreRange(range: ScoreRange) returns (x: Node?, ghost r: nat)
      requires Valid()
      ensures 1 <= r <= |spine| && x == if r < |spine| then spine[r] else null
      ensures forall k | 1 <= k < |spine| :: range.BelowMin(spine[k].score) <==> k < r
    {
      ghost var c := LastBelowMin(spine, range);
      var node := header;
      ghost var at := 0;
      var i := level - 1;
      while i >= 0
        invariant -1 <= i < level
        invariant 0 <= at <= c && spine[at] == node
        invariant i >= 0 ==> rows[i][at].Tall?
        invariant i < 0 ==> at == c
      {
        assert RowOk(spine, rows[i], null);
        node, at := WalkBelowMin(node, i, range, spine, rows, at, c);
        if i > 0 { Downward(spine, rows, i - 1, at); }
        assert i == 0 ==> rows[0][c].Tall?;
        i := i - 1;
      }
      BottomLink(spine, rows, level, c);
      x, r := node.levels[0].forward, c + 1;
    }
  }

  method WalkByRank(start: Node, i: nat, rank: nat, from: nat, ghost spine: seq<Node>, ghost rows: Grid<Node?>)
    returns (x: Node, traversed: nat)
    requires Shows(spine, rows) && i < MAX_LEVEL && RowOk(spine, rows[i], null)
    requires from <= rank < |spine| && spine[from] == start && rows[i][from].Tall?
    ensures traversed <= rank && spine[traversed] == x && LastTall(rows[i], traversed, rank)
  {
    x, traversed := start, from;
    assert SlotOf(x, i) == rows[i][traversed] && LinkOk(spine, rows[i], traversed, null);
    var next := x.levels[i].forward;
    while next != null && traversed + x.levels[i].span <= rank
      invariant traversed <= rank && spine[traversed] == x
      invariant rows[i][traversed].Tall? && SlotOf(x, i) == rows[i][traversed] && next == x.levels[i].forward
      invariant LinkOk(spine, rows[i], traversed, null)
      decreases |spine| - traversed
    {
      traversed := traversed + x.levels[i].span;
      x := next;
      assert SlotOf(x, i) == rows[i][traversed] && LinkOk(spine, rows[i], traversed, null);
      next := x.levels[i].forward;
    }
  }

  method WalkBelowMin(start: Node, i: nat, range: ScoreRange,
                      ghost spine: seq<Node>, ghost rows: Grid<Node?>, ghost from: nat, ghost c: nat)
    returns (x: Node, ghost at: nat)
    requires Shows(spine, rows) && i < MAX_LEVEL && RowOk(spine, rows[i], null)
    requires c < |spine| && forall k | 1 <= k < |spine| :: range.BelowMin(spine[k].score) <==> k <= c
    requires from <= c && spine[from] == start && rows[i][from].Tall?
    ensures at <= c && spine[at] == x && LastTall(rows[i], at, c)
  {
    x, at := start, from;
    assert SlotOf(x, i) == rows[i][at] && LinkOk(spine, rows[i], at, null);
    var next := x.levels[i].forward;
    while next != null && range.BelowMin(next.score)
      invariant at <= c && spine[at] == x
      invariant rows[i][at].Tall? && SlotOf(x, i) == rows[i][at] && next == x.levels[i].forward
      invariant LinkOk(spine, rows[i], at, null)
      decreases |spine| - at
    {
      at := at + x.levels[i].span;
      x := next;
      assert SlotOf(x, i) == rows[i][at] && LinkOk(spine, rows[i], at, null);
      next := x.levels[i].forward;
    }
  }

  /** The nodes below the lower bound come first. */
  ghost function LastBelowMin(spine: seq<Node>, range: ScoreRange): (c: nat)
    requires spine != [] && Ascending(EntriesOf(spine))
    ensures c < |spine|
    ensures forall k | 1 <= k < |spine| :: range.BelowMin(spine[k].score) <==> k <= c
  {
    var n := |spine| - 1;
    if n == 0 then 0
    else if range.BelowMin(spine[n].score) then
      assert EntriesOf(spine)[n - 1] == Key(spine[n]);
      assert forall k | 1 <= k < n :: EntriesOf(spine)[k - 1] == Key(spine[k]);
      assert forall k | 0 <= k < n - 1 :: EntryLess(EntriesOf(spine)[k], EntriesOf(spine)[n - 1]);
      n
    else
      assert EntriesOf(spine[..n]) == EntriesOf(spine)[..n - 1];
      LastBelowMin(spine[..n], range)
  }

  lemma InsertNodes(spine: seq<Node>, k: nat, x: Node)
    requires k <= |spine|
    ensures (set n | n in InsertAt(spine, k, x)) == (set n | n in spine) + {x}
  {
    forall n ensures n in InsertAt(spine, k, x) <==> n in spine || n == x { InsertMembers(spine, k, x, n); }
  }

  /** Gives up the levels left without nodes. */
  method Shrink(header: Node, level0: nat, ghost spine: seq<Node>, ghost rows: Grid<Node?>) returns (level: nat)
    requires Chain(spine, rows, level0) && Shows(spine, rows) && spine[0] == header
    ensures ChainInUse(spine, rows, level)
  {
    level := level0;
    assert SlotOf(spine[0], level - 1) == rows[level - 1][0];
    while level > 1 && header.levels[level - 1].forward == null
      invariant Chain(spine, rows, level)
      invariant SlotOf(spine[0], level - 1) == rows[level - 1][0]
    {
      ShrinkOk(spine, rows, level, null);
      level := level - 1;
      assert SlotOf(spine[0], level - 1) == rows[level - 1][0];
    }
  }

  method UnlinkAll(header: Node, node: Node, update: seq<Node>, level: nat, ghost rank: seq<int>, ghost d: nat,
                   ghost spine: seq<Node>, ghost rows: Grid<Node?>)
    returns (level': nat, ghost spine': seq<Node>, ghost rows': Grid<Node?>)
    requires Shows(spine, rows) && Chain(spine, rows, level) && spine[0] == header
    requires Landings(rows, rank, level, d - 1) && 1 <= d < |spine| && spine[d] == node
    requires |update| == MAX_LEVEL
    requires forall i | 0 <= i < level :: 0 <= rank[i] < |spine| && update[i] == spine[rank[i]]
    modifies spine`levels
    ensures spine' == RemoveAt(spine, d) && Shows(spine', rows') && ChainInUse(spine', rows', level')
    ensures EntriesOf(spine') == RemoveAt(EntriesOf(spine), d - 1)
  {
    hide Shows, Distinct, Ascending, RowsOk, EmptyAbove, TopInUse;
    spine', rows' := RemoveAt(spine, d), Leave(rows, rank, level, d);
    LeaveOk(spine, rows, rank, level, d, null);
    RemoveKeepsOrder(spine, d);
    Unlink(node, update, level, rank, d, spine, rows);
    ShowsLeft(spine, rows, rank, level, d);
    level' := Shrink(header, level, spine', rows');
  }

  lemma RemoveKeepsOrder(spine: seq<Node>, d: nat)
    requires 1 <= d < |spine| && Distinct(spine, null) && Ascending(EntriesOf(spine))
    ensures Distinct(RemoveAt(spine, d), null)
    ensures EntriesOf(RemoveAt(spine, d)) == RemoveAt(EntriesOf(spine), d - 1)
    ensures Ascending(EntriesOf(RemoveAt(spine, d)))
  {
    var entries, spine' := EntriesOf(spine), RemoveAt(spine, d);
    assert EntriesOf(spine') == RemoveAt(entries, d - 1);
  }

  lemma BottomLanding(rows: Grid<Node?>, n: nat, rank: seq<int>, level: nat, c: int)
    requires Shape(rows, n) && Landings(rows, rank, level, c) && 1 <= level
    ensures rank[0] == c
  {
    assert LastTall(rows[0], rank[0], c);
    assert rows[0][c].Tall?;
  }

  /** Level 0 leads from each node to the next. */
  lemma BottomLink(spine: seq<Node>, rows: Grid<Node?>, level: int, r: nat)
    requires Shows(spine, rows) && Levels(spine, rows, level, null) && r < |spine|
    ensures 0 < |spine[r].levels|
    ensures spine[r].levels[0].forward == if r + 1 < |spine| then spine[r + 1] else null
  {
    assert RowOk(spine, rows[0], null) && LinkOk(spine, rows[0], r, null);
    assert SlotOf(spine[r], 0) == rows[0][r];
  }

  lemma InsertKeepsOrder(spine: seq<Node>, p: nat, x: Node)
    requires p < |spine| && Distinct(spine, null) && x !in spine
    requires Ascending(EntriesOf(spine)) && Key(x) !in EntriesOf(spine)
    requires p == Below(EntriesOf(spine), Key(x))
    ensures Distinct(InsertAt(spine, p + 1, x), null)
    ensures EntriesOf(InsertAt(spine, p + 1, x)) == InsertAt(EntriesOf(spine), p, Key(x))
    ensures Ascending(EntriesOf(InsertAt(spine, p + 1, x)))
  {
    var entries, spine' := EntriesOf(spine), InsertAt(spine, p + 1, x);
    assert EntriesOf(spine') == InsertAt(entries, p, Key(x));
    InsertAscending(entries, Key(x));
  }
}
