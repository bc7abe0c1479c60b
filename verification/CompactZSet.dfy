/**
 The compact sorted-set encoding (internal/storage/compact_zset.go): member bytes
 in one shared arena, and a table of slices kept in (score, member) order.
 */
module CompactZSets {
  import opened Order
  import opened Sorting
  import opened ZSetSpec
  import Keyspace

  datatype Slice = Slice(start: nat, len: nat, score: real)

  predicate InArena(x: Slice, arena: Bytes) {
    x.start + x.len <= |arena|
  }

  /** `memberBytes` */
  function MemberOf(x: Slice, arena: Bytes): Bytes {
    if InArena(x, arena) then arena[x.start..x.start + x.len] else []
  }

  ghost predicate AllInArena(xs: seq<Slice>, arena: Bytes) {
    forall i | 0 <= i < |xs| :: InArena(xs[i], arena)
  }

  function EntryOf(x: Slice, arena: Bytes): Entry {
    Entry(MemberOf(x, arena), x.score)
  }

  /** What the table says. */
  ghost function View(xs: seq<Slice>, arena: Bytes): (s: seq<Entry>)
    ensures |s| == |xs|
    ensures forall i | 0 <= i < |xs| :: s[i] == EntryOf(xs[i], arena)
  {
    seq(|xs|, i requires 0 <= i < |xs| => EntryOf(xs[i], arena))
  }

  lemma ViewAppend(xs: seq<Slice>, arena: Bytes, member: Bytes, score: real)
    requires AllInArena(xs, arena)
    ensures var xs', arena' := xs + [Slice(|arena|, |member|, score)], arena + member;
            AllInArena(xs', arena') && View(xs', arena') == View(xs, arena) + [Entry(member, score)]
  {
    var xs', arena' := xs + [Slice(|arena|, |member|, score)], arena + member;
    assert MemberOf(xs'[|xs|], arena') == member;
    forall j | 0 <= j < |xs| ensures xs'[j] == xs[j] && MemberOf(xs[j], arena') == MemberOf(xs[j], arena) {
    }
  }

  /** `sort`: the table in (score, member) order. */
  method SortSlices(xs: seq<Slice>, arena: Bytes, ghost m: Scores) returns (sorted: seq<Slice>)
    requires AllInArena(xs, arena) && Tabulates(View(xs, arena), m)
    ensures AllInArena(sorted, arena) && Lists(View(sorted, arena), m)
  {
    hide Lists, Tabulates, View, AllInArena;
    SlicesRank(arena);
    sorted := Sort(xs, SliceLess(arena));
    SortedLists(xs, sorted, arena, m);
  }

  function SliceLess(arena: Bytes): (Slice, Slice) -> bool {
    (a, b) => EntryLess(EntryOf(a, arena), EntryOf(b, arena))
  }

  lemma SlicesRank(arena: Bytes)
    ensures Ranks(SliceLess(arena))
  {
    hide EntryLess, EntryOf;
    forall x, y
      ensures !(EntryLess(EntryOf(x, arena), EntryOf(y, arena)) && EntryLess(EntryOf(y, arena), EntryOf(x, arena)))
    {
      EntryTrichotomy(EntryOf(x, arena), EntryOf(y, arena));
    }
    forall x, y, z | EntryLess(EntryOf(x, arena), EntryOf(y, arena)) && !EntryLess(EntryOf(z, arena), EntryOf(y, arena))
      ensures EntryLess(EntryOf(x, arena), EntryOf(z, arena))
    {
      EntryTrichotomy(EntryOf(z, arena), EntryOf(y, arena));
      if EntryLess(EntryOf(y, arena), EntryOf(z, arena)) {
        EntryTransitive(EntryOf(x, arena), EntryOf(y, arena), EntryOf(z, arena));
      }
    }
  }

  /** The slices of a table without repetitions, sorted, list what they say. */
  lemma SortedLists(xs: seq<Slice>, sorted: seq<Slice>, arena: Bytes, m: Scores)
    requires AllInArena(xs, arena) && Tabulates(View(xs, arena), m)
    requires multiset(sorted) == multiset(xs) && InOrder(sorted, SliceLess(arena))
    ensures AllInArena(sorted, arena) && Lists(View(sorted, arena), m)
  {
    hide EntryLess, EntryOf, InArena;
    var all, s := View(xs, arena), View(sorted, arena);
    SameMembers(sorted, xs);
    forall i | 0 <= i < |sorted| ensures InArena(sorted[i], arena) {
      assert sorted[i] in xs;
    }
    ViewSame(xs, sorted, arena);
    StillDistinct(xs, sorted, arena);
    forall i, j | 0 <= i < j < |s| ensures EntryLess(s[i], s[j]) {
      assert !SliceLess(arena)(sorted[j], sorted[i]);
      EntryTrichotomy(s[i], s[j]);
    }
  }

  lemma ViewSame(xs: seq<Slice>, sorted: seq<Slice>, arena: Bytes)
    requires forall x :: x in sorted <==> x in xs
    ensures forall e :: e in View(sorted, arena) <==> e in View(xs, arena)
  {
    forall e ensures e in View(sorted, arena) <==> e in View(xs, arena) {
      ViewHas(xs, arena, e);
      ViewHas(sorted, arena, e);
    }
  }

  lemma ViewHas(xs: seq<Slice>, arena: Bytes, e: Entry)
    ensures e in View(xs, arena) <==> exists x | x in xs :: EntryOf(x, arena) == e
  {
    hide EntryOf;
    if x :| x in xs && EntryOf(x, arena) == e {
      var i :| 0 <= i < |xs| && xs[i] == x;
      assert View(xs, arena)[i] == e;
    }
    if e in View(xs, arena) {
      var i :| 0 <= i < |xs| && View(xs, arena)[i] == e;
      assert xs[i] in xs;
    }
  }

  /** Entries that are all different stay so. */
  lemma StillDistinct(xs: seq<Slice>, sorted: seq<Slice>, arena: Bytes)
    requires multiset(sorted) == multiset(xs)
    requires forall i, j | 0 <= i < j < |xs| :: View(xs, arena)[i] != View(xs, arena)[j]
    ensures forall i, j | 0 <= i < j < |sorted| :: View(sorted, arena)[i] != View(sorted, arena)[j]
  {
    hide EntryOf;
    forall i, j | 0 <= i < j < |xs| ensures xs[i] != xs[j] {
      assert View(xs, arena)[i] != View(xs, arena)[j];
    }
    SameTwice(sorted, xs);
    SameMembers(sorted, xs);
    forall i, j | 0 <= i < j < |sorted| ensures View(sorted, arena)[i] != View(sorted, arena)[j] {
      assert sorted[i] in xs && sorted[j] in xs;
      var p :| 0 <= p < |xs| && xs[p] == sorted[i];
      var q :| 0 <= q < |xs| && xs[q] == sorted[j];
      assert p != q;
      assert View(xs, arena)[p] != View(xs, arena)[q];
    }
  }

  class CompactZSet {
    var entries: seq<Slice>
    var arena: Bytes
    ghost var scores: Scores

    ghost predicate Valid()
      reads this
    {
      && AllInArena(entries, arena) && Lists(View(entries, arena), scores)
      && |arena| == Keyspace.MemberLengths(scores.Keys)
    }

    ghost function Listing(): (s: seq<Entry>)
      reads this
      requires Valid()
      ensures Lists(s, scores)
    {
      View(entries, arena)
    }

    constructor ()
      ensures Valid() && scores == map[]
    {
      entries, arena, scores := [], [], map[];
    }

    /** `cloneCompactZSet` */
    constructor Clone(src: CompactZSet)
      requires src.Valid()
      ensures Valid() && scores == src.scores
    {
      entries, arena, scores := src.entries, src.arena, src.scores;
    }

    /** The position of a member in the table. */
    method Find(member: Bytes) returns (found: bool, i: nat)
      requires Valid()
      ensures found <==> member in scores
      ensures found ==> i < |entries| && Listing()[i] == Entry(member, scores[member])
    {
      ghost var s := Listing();
      i := 0;
      while i < |entries|
        invariant 0 <= i <= |entries|
        invariant forall j | 0 <= j < i :: s[j].member != member
      {
        if MemberOf(entries[i], arena) == member {
          assert s[i] in s;
          return true, i;
        }
        i := i + 1;
      }
      assert forall k | k in scores :: Entry(k, scores[k]) in s;
      return false, i;
    }

    /** `compactZSetContains` */
    method Contains(member: Bytes) returns (found: bool)
      requires Valid()
      ensures found <==> member in scores
    {
      var i;
      found, i := Find(member);
    }

    /** `add`: sets the score of a member and reports whether the member is new. */
    method Add(member: Bytes, score: real) returns (added: bool)
      requires Valid()
      modifies this
      ensures Valid()
      ensures scores == old(scores)[member := score]
      ensures added <==> member !in old(scores)
    {
      hide Lists, Tabulates;
      var found, i := Find(member);
      ghost var s := Listing();
      ListedIsTabulated(s, scores);
      if found {
        if entries[i].score == score {
          assert scores == scores[member := score];
          return false;
        }
        Rescore(s, scores, i, score);
        assert scores[member := score].Keys == scores.Keys;
        scores := scores[member := score];
        entries := entries[i := Slice(entries[i].start, entries[i].len, score)];
        assert View(entries, arena) == s[i := Entry(member, score)];
        entries := SortSlices(entries, arena, scores);
        return false;
      }
      Append(s, scores, Entry(member, score));
      Keyspace.MemberLengthsRemove(scores[member := score].Keys, member);
      assert scores[member := score].Keys - {member} == scores.Keys;
      scores := scores[member := score];
      var start := |arena|;
      arena := arena + member;
      entries := entries + [Slice(start, |member|, score)];
      ViewAppend(old(entries), old(arena), member, score);
      entries := SortSlices(entries, arena, scores);
      return true;
    }

    method Score(member: Bytes) returns (score: real, ok: bool)
      requires Valid()
      ensures ok <==> member in scores
      ensures ok ==> score == scores[member]
    {
      var found, i := Find(member);
      if found { return entries[i].score, true; }
      return 0.0, false;
    }

    method Len() returns (n: nat)
      requires Valid()
      ensures n == |scores|
    {
      ListingLength(Listing(), scores);
      return |entries|;
    }

    method RangeByRank(start: int, stop0: int) returns (items: seq<Entry>)
      requires Valid()
      ensures items == RankSlice(Listing(), start, stop0)
    {
      hide Lists;
      if start < 0 || stop0 < start || start >= |entries| { return []; }
      var stop := stop0;
      if stop >= |entries| { stop := |entries| - 1; }
      items := [];
      for i := start to stop + 1
        invariant items == Listing()[start..i]
      {
        items := items + [EntryOf(entries[i], arena)];
      }
    }

    method RangeByScore(range: ScoreRange) returns (items: seq<Entry>)
      requires Valid()
      ensures items == InRange(Listing(), range)
    {
      ghost var s := Listing();
      hide Lists, InRange, View;
      items := [];
      var i := 0;
      RangeNone(s, range);
      while i < |entries|
        invariant 0 <= i <= |entries|
        invariant items == InRange(s[..i], range)
      {
        if range.AboveMax(entries[i].score) { break; }
        RangeStep(s, i, range);
        if !range.BelowMin(entries[i].score) {
          items := items + [EntryOf(entries[i], arena)];
        }
        i := i + 1;
      }
      RangeEnds(s, scores, i, range);
    }
  }

  lemma RangeNone(s: seq<Entry>, range: ScoreRange)
    ensures InRange(s[..0], range) == []
  {
  }

  lemma RangeStep(s: seq<Entry>, i: nat, range: ScoreRange)
    requires i < |s|
    ensures InRange(s[..i + 1], range) == InRange(s[..i], range) + if range.Contains(s[i].score) then [s[i]] else []
  {
    assert s[..i + 1] == s[..i] + [s[i]];
    InRangeAppend(s[..i], [s[i]], range);
  }

  /** Nothing is in range from the first entry above the range on. */
  lemma RangeEnds(s: seq<Entry>, m: Scores, i: nat, range: ScoreRange)
    requires Lists(s, m) && i <= |s| && (i < |s| ==> range.AboveMax(s[i].score))
    ensures InRange(s[..i], range) == InRange(s, range)
  {
    var above := s[i..];
    assert s == s[..i] + above;
    InRangeAppend(s[..i], above, range);
    forall j | 0 <= j < |above| ensures !range.Contains(above[j].score) {
      ScoresAscend(s, i, i + j);
    }
    InRangeNone(above, range);
  }
}
