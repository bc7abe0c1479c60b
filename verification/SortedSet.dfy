/**
 The general sorted-set encoding (internal/storage/zset.go): a member index beside
 a skip list.
 */
module SortedSets {
  import opened Order
  import opened Splices
  import opened ZSetSpec
  import opened SkipLists

  class SortedSet {
    var index: Scores
    const order: SkipList

    ghost predicate Valid()
      reads this, order, order.spine
    {
      order.Valid() && Lists(order.Entries(), index)
    }

    /** The listing of the set. */
    ghost function Listing(): (s: seq<Entry>)
      reads this, order, order.spine
      requires Valid()
      ensures Lists(s, index)
    {
      order.Entries()
    }

    constructor ()
      ensures Valid() && fresh(order) && fresh(order.Nodes())
      ensures index == map[]
    {
      index := map[];
      order := new SkipList();
    }

    /** `add`: sets the score of a member and reports whether the member is new. */
    method Add(member: Bytes, score: real) returns (added: bool)
      requires Valid()
      modifies this, order, order.Nodes()
      ensures Valid()
      ensures index == old(index)[member := score]
      ensures added <==> member !in old(index)
      ensures fresh(order.Nodes() - old(order.Nodes()))
    {
      hide SkipList.Valid, SkipList.Nodes, Lists;
      var present := member in index;
      MapReset(index, member, score);
      if present {
        var current := index[member];
        if current == score { return false; }
        Drop(member, current);
      }
      InsertListed(order.Entries(), index - {member}, Entry(member, score));
      var x := order.Insert(score, member);
      index := index[member := score];
      return !present;
    }

    /** Takes a member out of the order, leaving the index to be overwritten. */
    method Drop(member: Bytes, current: real)
      requires Valid() && member in index && index[member] == current
      modifies order, order.Nodes()
      ensures order.Valid() && Lists(order.Entries(), index - {member})
      ensures order.Nodes() <= old(order.Nodes())
    {
      hide SkipList.Nodes;
      ghost var s, e := order.Entries(), Entry(member, current);
      BelowFinds(s, e);
      RemoveListed(s, index, Below(s, e));
      RemoveKeepsOrder(order.spine, Below(s, e) + 1);
      var found := order.Delete(current, member);
    }

    method Score(member: Bytes) returns (score: real, ok: bool)
      ensures ok <==> member in index
      ensures ok ==> score == index[member]
    {
      if member in index { return index[member], true; }
      return 0.0, false;
    }

    method Len() returns (n: nat)
      requires Valid()
      ensures n == |index| == |Listing()| == order.length
    {
      ListingLength(Listing(), index);
      return |index|;
    }

    method RangeByRank(start: int, stop0: int) returns (items: seq<Entry>)
      requires Valid()
      ensures items == RankSlice(Listing(), start, stop0)
    {
      hide SkipList.Valid, Lists;
      order.Sizes();
      if start < 0 || stop0 < start || start >= order.length { return []; }
      var stop := stop0;
      if stop >= order.length { stop := order.length - 1; }
      var node := order.GetByRank(start + 1);
      if node == null { return []; }
      items := [];
      var i := 0;
      ghost var s := Listing();
      while i < stop - start + 1
        invariant 0 <= i <= stop - start + 1
        invariant items == s[start..start + i]
        invariant node == if start + i + 1 < |order.spine| then order.spine[start + i + 1] else null
      {
        order.Forward(start + i + 1);
        items := items + [Entry(node.member, node.score)];
        node := node.levels[0].forward;
        i := i + 1;
      }
    }

    method RangeByScore(range: ScoreRange) returns (items: seq<Entry>)
      requires Valid()
      ensures items == InRange(Listing(), range)
    {
      hide SkipList.Valid, Lists, InRange, ScoreRange.BelowMin, ScoreRange.AboveMax;
      var node;
      ghost var lo, hi;
      node, lo := order.FirstInScoreRange(range);
      items, hi := UpTo(node, lo, range);
      BoundsInRange(range, lo, hi);
    }

    /** The entries from a node on up to the first one above the range. */
    method UpTo(first: Node?, ghost lo: nat, range: ScoreRange) returns (items: seq<Entry>, ghost hi: nat)
      requires Valid() && 1 <= lo <= |order.spine| && first == if lo < |order.spine| then order.spine[lo] else null
      ensures lo <= hi <= |order.spine| == |Listing()| + 1 && items == Listing()[lo - 1..hi - 1]
      ensures forall k | lo <= k < hi :: !range.AboveMax(order.spine[k].score)
      ensures hi < |order.spine| ==> range.AboveMax(order.spine[hi].score)
    {
      hide SkipList.Valid, Lists, ScoreRange.AboveMax;
      order.Sizes();
      items := [];
      var node := first;
      hi := lo;
      ghost var s := Listing();
      while node != null
        invariant lo <= hi <= |order.spine|
        invariant node == if hi < |order.spine| then order.spine[hi] else null
        invariant items == s[lo - 1..hi - 1]
        invariant forall k | lo <= k < hi :: !range.AboveMax(order.spine[k].score)
        decreases |order.spine| - hi
      {
        if range.AboveMax(node.score) { break; }
        order.Forward(hi);
        items := items + [Entry(node.member, node.score)];
        node := node.levels[0].forward;
        hi := hi + 1;
      }
    }

    lemma BoundsInRange(range: ScoreRange, lo: nat, hi: nat)
      requires Valid() && 1 <= lo <= hi <= |order.spine| == |Listing()| + 1
      requires forall k | 1 <= k < |order.spine| :: range.BelowMin(order.spine[k].score) <==> k < lo
      requires forall k | lo <= k < hi :: !range.AboveMax(order.spine[k].score)
      requires hi < |order.spine| ==> range.AboveMax(order.spine[hi].score)
      ensures InRange(Listing(), range) == Listing()[lo - 1..hi - 1]
    {
      ghost var s := Listing();
      assert Ascending(s);
      hide SkipList.Valid, InRange, ScoreRange.BelowMin, ScoreRange.AboveMax, Lists, Ascending;
      forall i | 0 <= i < |s| ensures s[i].score == order.spine[i + 1].score {
        order.Forward(i + 1);
      }
      InRangeIsSlice(s, range, lo - 1, hi - 1);
    }

    /** `cloneSortedSet`: an independent copy. */
    method Clone() returns (cloned: SortedSet)
      requires Valid()
      ensures cloned.Valid() && cloned.index == index
      ensures fresh(cloned) && fresh(cloned.order) && fresh(cloned.order.Nodes())
    {
      hide SkipList.Valid, Lists;
      order.Sizes();
      cloned := new SortedSet();
      order.Forward(0);
      var node := order.header.levels[0].forward;
      ghost var i, s := 0, Listing();
      while node != null
        invariant 0 <= i <= |s| && node == if i < |s| then order.spine[i + 1] else null
        invariant cloned.Valid() && fresh(cloned) && fresh(cloned.order) && fresh(cloned.order.Nodes())
        invariant cloned.index == AddAll(map[], s[..i])
        decreases |s| - i
      {
        AddAllStep(map[], s, i);
        order.Forward(i + 1);
        var added := cloned.Add(node.member, node.score);
        node := node.levels[0].forward;
        i := i + 1;
      }
      assert s[..i] == s;
      AddAllListing(s, index);
    }
  }

  lemma MapReset(m: Scores, k: Bytes, v: real)
    ensures (m - {k})[k := v] == m[k := v]
    ensures k in m && m[k] == v ==> m[k := v] == m
    ensures k !in m ==> m - {k} == m
  {
  }
}
