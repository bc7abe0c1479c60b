/**
 Sorted-set values as stored under a key (internal/storage/collection_value.go):
 compact while small, upgraded once to the general encoding when they outgrow it.
 */
module ZSetValues {
  import opened Order
  import opened Sets
  import opened ZSetSpec
  import opened CompactZSets
  import opened SortedSets
  import opened SkipLists
  import opened Payloads
  import Keyspace

  datatype Encoding = General | Compact

  /** The guard of the compact encoding. */
  ghost predicate Small(m: Scores) {
    |m| <= ZSET_MAX_ENTRIES && forall k | k in m :: |k| <= ZSET_MAX_MEMBER
  }

  function Shape(encoding: Encoding, m: Scores): (p: Keyspace.Payload)
    ensures IsZSet(p) && p.scores == m
  {
    if encoding == Compact then Keyspace.CompactZSet(m) else Keyspace.ZSet(m)
  }

  class ZSetValue {
    var encoding: Encoding
    var compact: CompactZSet?
    var general: SortedSet?
    ghost var Repr: set<object>
    /** The sorted set this value stands for. */
    ghost var scores: Scores

    ghost predicate Valid()
      reads this, Repr
    {
      && this in Repr
      && match encoding
         case Compact =>
           && compact != null && compact in Repr
           && compact.Valid() && compact.scores == scores && Small(scores)
         case General =>
           && general != null && {general, general.order} <= Repr && general.order.Nodes() <= Repr
           && general.Valid() && general.index == scores
    }

    /** The value as the store accounts for it. */
    ghost function Content(): (p: Keyspace.Payload)
      reads this
      ensures IsZSet(p) && p.scores == scores
    {
      Shape(encoding, scores)
    }

    constructor FromCompact(set0: CompactZSet)
      requires set0.Valid() && Small(set0.scores)
      ensures Valid() && scores == set0.scores && encoding == Compact && compact == set0
      ensures fresh(Repr - {set0})
    {
      encoding, compact, general := Compact, set0, null;
      scores, Repr := set0.scores, {this, set0};
    }

    constructor FromGeneral(set0: SortedSet)
      requires set0.Valid()
      ensures Valid() && scores == set0.index && encoding == General && general == set0
      ensures fresh(Repr - {set0, set0.order} - set0.order.Nodes())
    {
      encoding, compact, general := General, null, set0;
      scores, Repr := set0.index, {this, set0, set0.order} + set0.order.Nodes();
    }

    /** `zsetAdd`: applies a batch and reports how many members are new. */
    method Add(batch: seq<Entry>) returns (added: int)
      requires Valid()
      modifies Repr
      ensures Valid() && fresh(Repr - old(Repr))
      ensures scores == AddAll(old(scores), batch)
      ensures added == |scores| - |old(scores)|
      ensures encoding == Compact <==> old(encoding) == Compact && Small(scores)
      ensures Content() == AddScores(old(Content()), batch)
    {
      hide SortedSet.Valid, CompactZSet.Valid, Small, AddAll, SkipList.Nodes, Shape, AddScores;
      ShapeAfter(encoding, scores, batch);
      if encoding == Compact {
        var can := CanAdd(compact, batch);
        if can {
          added := AddCompact(batch);
          return;
        }
        Upgrade();
      }
      added := AddGeneral(batch);
    }

    /** The compact branch of `zsetAdd`. */
    method AddCompact(batch: seq<Entry>) returns (added: int)
      requires Valid() && encoding == Compact && Small(AddAll(scores, batch))
      modifies this, compact
      ensures Valid() && encoding == Compact && Repr == old(Repr)
      ensures scores == AddAll(old(scores), batch)
      ensures added == |scores| - |old(scores)|
    {
      hide CompactZSet.Valid, Small, AddAll;
      added := 0;
      ghost var m := scores;
      AddAllNone(m, batch);
      for i := 0 to |batch|
        invariant compact == old(compact) && compact.Valid() && encoding == Compact && Repr == old(Repr)
        invariant compact.scores == AddAll(m, batch[..i])
        invariant added == |compact.scores| - |m|
      {
        AddAllStep(m, batch, i);
        ghost var before := compact.scores;
        var isNew := compact.Add(batch[i].member, batch[i].score);
        SizeAfterPut(before, batch[i].member, batch[i].score);
        if isNew { added := added + 1; }
      }
      assert batch[..|batch|] == batch;
      scores := AddAll(m, batch);
    }

    /** The general branch of `zsetAdd` (`zsetAddGeneral`). */
    method AddGeneral(batch: seq<Entry>) returns (added: int)
      requires Valid() && encoding == General
      modifies Repr
      ensures Valid() && encoding == General && fresh(Repr - old(Repr))
      ensures scores == AddAll(old(scores), batch)
      ensures added == |scores| - |old(scores)|
    {
      hide SortedSet.Valid;
      added := 0;
      var target := general;
      ghost var m, nodes := scores, general.order.Nodes();
      for i := 0 to |batch|
        invariant general == target && encoding == General && Repr == old(Repr)
        invariant target.Valid() && target.index == AddAll(m, batch[..i])
        invariant fresh(target.order.Nodes() - nodes)
        invariant added == |target.index| - |m|
      {
        AddAllStep(m, batch, i);
        SizeAfterPut(target.index, batch[i].member, batch[i].score);
        var isNew := target.Add(batch[i].member, batch[i].score);
        if isNew { added := added + 1; }
      }
      assert batch[..|batch|] == batch;
      scores := AddAll(m, batch);
      Repr := Repr + target.order.Nodes();
    }

    /** `upgradeCompactZSet`: the same sorted set in the general encoding. */
    method Upgrade()
      requires Valid() && encoding == Compact
      modifies this
      ensures Valid() && encoding == General && fresh(Repr - old(Repr))
      ensures scores == old(scores)
    {
      hide SortedSet.Valid, CompactZSet.Valid, Small;
      var set0 := GeneralFromCompact(compact);
      general, compact, encoding := set0, null, General;
      Repr := Repr + {set0, set0.order} + set0.order.Nodes();
    }

    /** `cloneZSetValue`: an independent value in the same encoding. */
    method Clone() returns (v: ZSetValue)
      requires Valid()
      ensures v.Valid() && fresh(v.Repr) && v.scores == scores && v.encoding == encoding
    {
      if encoding == Compact {
        var c := new CompactZSet.Clone(compact);
        v := new ZSetValue.FromCompact(c);
      } else {
        var g := general.Clone();
        v := new ZSetValue.FromGeneral(g);
      }
    }

    method Score(member: Bytes) returns (score: real, ok: bool)
      requires Valid()
      ensures ok <==> member in scores
      ensures ok ==> score == scores[member]
    {
      if encoding == Compact { score, ok := compact.Score(member); } else { score, ok := general.Score(member); }
    }

    method Len() returns (n: nat)
      requires Valid()
      ensures n == |scores|
    {
      if encoding == Compact { n := compact.Len(); } else { n := general.Len(); }
    }

    /** Rank queries answer from the one listing of the set. */
    method RangeByRank(start: int, stop: int) returns (items: seq<Entry>)
      requires Valid()
      ensures exists s :: Lists(s, scores) && items == RankSlice(s, start, stop)
    {
      if encoding == Compact {
        items := compact.RangeByRank(start, stop);
        assert Lists(compact.Listing(), scores);
      } else {
        items := general.RangeByRank(start, stop);
        assert Lists(general.Listing(), scores);
      }
    }

    /** Score queries answer from the one listing of the set. */
    method RangeByScore(range: ScoreRange) returns (items: seq<Entry>)
      requires Valid()
      ensures exists s :: Lists(s, scores) && items == InRange(s, range)
    {
      if encoding == Compact {
        items := compact.RangeByScore(range);
        assert Lists(compact.Listing(), scores);
      } else {
        items := general.RangeByScore(range);
        assert Lists(general.Listing(), scores);
      }
    }
  }

  /**
   The value part of `Store.ZAdd`. While memory is accounted for, the batch goes to
   a copy, so the value stored under the key is not touched before the commit.
   */
  method ZAdd(current: ZSetValue?, batch: seq<Entry>, accounting: bool) returns (v: ZSetValue, added: int)
    requires batch != [] && (current != null ==> current.Valid())
    modifies if current != null && !accounting then current.Repr else {}
    ensures v.Valid()
    ensures current == null || accounting ==> fresh(v.Repr)
    ensures current != null && !accounting ==> v == current && fresh(v.Repr - old(current.Repr))
    ensures current == null ==> v.scores == AddAll(map[], batch) && added == |v.scores|
    ensures current != null ==>
              v.scores == AddAll(old(current.scores), batch) && added == |v.scores| - |old(current.scores)|
    ensures v.Content() == if current == null then NewZSet(batch) else AddScores(old(current.Content()), batch)
  {
    hide ZSetValue.Valid, AddAll;
    if current == null {
      v := ForEntries(batch);
      added := v.Len();
    } else if accounting {
      v := current.Clone();
      added := v.Add(batch);
    } else {
      v := current;
      added := v.Add(batch);
    }
  }

  /**
   Any run of ZADD batches on a key, with accounting on or off at each step: the
   stored value stands for the plain map the batches describe, and each reply is
   the number of members the batch added to that map.
   */
  method Run(batches: seq<seq<Entry>>, accounting: seq<bool>) returns (v: ZSetValue?, replies: seq<int>)
    requires |accounting| == |batches| && forall b | b in batches :: b != []
    ensures v == null <==> batches == []
    ensures v != null ==> v.Valid() && fresh(v.Repr) && v.scores == AddAll(map[], Flatten(batches))
    ensures |replies| == |batches|
    ensures forall i | 0 <= i < |batches| ::
              replies[i] == |AddAll(map[], Flatten(batches[..i + 1]))| - |AddAll(map[], Flatten(batches[..i]))|
  {
    hide ZSetValue.Valid, AddAll;
    v, replies := null, [];
    for i := 0 to |batches|
      invariant v == null <==> i == 0
      invariant v != null ==> v.Valid() && fresh(v.Repr) && v.scores == AddAll(map[], Flatten(batches[..i]))
      invariant |replies| == i
      invariant forall j | 0 <= j < i ::
                  replies[j] == |AddAll(map[], Flatten(batches[..j + 1]))| - |AddAll(map[], Flatten(batches[..j]))|
    {
      assert batches[i] in batches;
      assert batches[..i + 1][..i] == batches[..i];
      AddAllConcat(map[], Flatten(batches[..i]), batches[i]);
      AddAllNone(map[], []);
      assert i == 0 ==> Flatten(batches[..0]) == [] && [] + batches[0] == batches[0];
      var added;
      v, added := ZAdd(v, batches[i], accounting[i]);
      replies := replies + [added];
    }
    assert batches[..|batches|] == batches;
  }

  /** `compactZSetCanAdd`: whether the batch leaves the set small. */
  method CanAdd(set0: CompactZSet, batch: seq<Entry>) returns (ok: bool)
    requires set0.Valid() && Small(set0.scores)
    ensures ok <==> Small(AddAll(set0.scores, batch))
  {
    ghost var m := set0.scores;
    NowSmall(m);
    hide CompactZSet.Valid, AddAll, Small, Projecting;
    ProjectNone(batch, m);
    var projected := set0.Len();
    var newMembers: set<Bytes> := {};
    for i := 0 to |batch|
      invariant Projecting(batch, i, m, newMembers)
      invariant projected == |m| + |newMembers| <= ZSET_MAX_ENTRIES
    {
      if |batch[i].member| > ZSET_MAX_MEMBER {
        LongMember(m, batch, i);
        return false;
      }
      ProjectStep(batch, i, m, newMembers);
      var isNew := IsNew(set0, batch[i].member, newMembers);
      if isNew {
        newMembers := newMembers + {batch[i].member};
        projected := projected + 1;
        if projected > ZSET_MAX_ENTRIES {
          TooMany(m, batch, i + 1, newMembers);
          return false;
        }
      }
    }
    JustEnough(m, batch, newMembers);
    return true;
  }

  method IsNew(set0: CompactZSet, member: Bytes, newMembers: set<Bytes>) returns (isNew: bool)
    requires set0.Valid()
    ensures isNew <==> member !in set0.scores && member !in newMembers
    ensures isNew ==> |newMembers + {member}| == |newMembers| + 1
  {
    var found := set0.Contains(member);
    return !found && member !in newMembers;
  }

  lemma NowSmall(m: Scores)
    requires Small(m)
    ensures |m| <= ZSET_MAX_ENTRIES
  {
  }

  /** `fresh0` are the new members among the first `n` entries, all of them short. */
  ghost predicate Projecting(batch: seq<Entry>, n: nat, m: Scores, fresh0: set<Bytes>)
    requires n <= |batch|
  {
    fresh0 == Members(batch[..n]) - m.Keys && ShortMembers(batch[..n])
  }

  lemma ProjectNone(batch: seq<Entry>, m: Scores)
    ensures Projecting(batch, 0, m, {})
  {
  }

  lemma ProjectStep(batch: seq<Entry>, i: nat, m: Scores, fresh0: set<Bytes>)
    requires i < |batch| && Projecting(batch, i, m, fresh0) && |batch[i].member| <= ZSET_MAX_MEMBER
    ensures
      var member := batch[i].member;
      Projecting(batch, i + 1, m, if member in m || member in fresh0 then fresh0 else fresh0 + {member})
  {
    hide Members;
    MembersGrow(batch, i);
    GrowOutside(Members(batch[..i]), batch[i].member, m.Keys);
  }

  lemma MembersGrow(batch: seq<Entry>, i: nat)
    requires i < |batch|
    ensures Members(batch[..i + 1]) == Members(batch[..i]) + {batch[i].member}
    ensures forall e :: e in batch[..i + 1] <==> e in batch[..i] || e == batch[i]
    ensures Members(batch[..i + 1]) <= Members(batch)
  {
    assert batch[..i + 1] == batch[..i] + [batch[i]];
    assert forall e | e in batch[..i + 1] :: e in batch;
  }

  lemma LongMember(m: Scores, batch: seq<Entry>, i: nat)
    requires i < |batch| && |batch[i].member| > ZSET_MAX_MEMBER
    ensures !Small(AddAll(m, batch))
  {
    AddAllKeys(m, batch);
    assert batch[i] in batch;
    assert batch[i].member in AddAll(m, batch).Keys;
  }

  lemma TooMany(m: Scores, batch: seq<Entry>, n: nat, fresh0: set<Bytes>)
    requires n <= |batch| && Projecting(batch, n, m, fresh0) && |m| + |fresh0| > ZSET_MAX_ENTRIES
    ensures !Small(AddAll(m, batch))
  {
    AddAllKeys(m, batch);
    assert Members(batch[..n]) <= Members(batch);
    Disjoint(m.Keys, fresh0);
    NoLarger(m.Keys + fresh0, AddAll(m, batch).Keys);
  }

  lemma JustEnough(m: Scores, batch: seq<Entry>, fresh0: set<Bytes>)
    requires Projecting(batch, |batch|, m, fresh0) && |m| + |fresh0| <= ZSET_MAX_ENTRIES && Small(m)
    ensures Small(AddAll(m, batch))
  {
    assert batch[..|batch|] == batch;
    AddAllKeys(m, batch);
    Disjoint(m.Keys, fresh0);
    assert AddAll(m, batch).Keys == m.Keys + fresh0;
    SmallAfter(m, batch);
  }

  /** A small set stays small when the members that join are short and not too many. */
  lemma SmallAfter(m: Scores, batch: seq<Entry>)
    requires Small(m)
    ensures Small(AddAll(m, batch)) <==> ShortMembers(batch) && |AddAll(m, batch)| <= ZSET_MAX_ENTRIES
  {
    hide AddAll;
    AddAllKeys(m, batch);
    if e :| e in batch && |e.member| > ZSET_MAX_MEMBER {
      assert e.member in AddAll(m, batch).Keys;
    }
  }

  lemma ShapeAfter(encoding: Encoding, m: Scores, batch: seq<Entry>)
    requires encoding == Compact ==> Small(m)
    ensures AddScores(Shape(encoding, m), batch) ==
            Shape(if encoding == Compact && Small(AddAll(m, batch)) then Compact else General, AddAll(m, batch))
  {
    hide AddAll, Small, ShortMembers;
    if encoding == Compact {
      SmallAfter(m, batch);
    }
  }

  lemma GrowOutside<T>(a: set<T>, k: T, b: set<T>)
    ensures (a + {k}) - b == if k in b || k in a - b then a - b else a - b + {k}
  {
  }

  lemma SizeAfterPut(m: Scores, k: Bytes, v: real)
    ensures |m[k := v]| == |m| + if k in m then 0 else 1
  {
    assert m[k := v].Keys == m.Keys + {k};
  }

  /** `compactZSetGeneralSet` */
  method GeneralFromCompact(compact: CompactZSet) returns (set0: SortedSet)
    requires compact.Valid()
    ensures set0.Valid() && set0.index == compact.scores
    ensures fresh(set0) && fresh(set0.order) && fresh(set0.order.Nodes())
  {
    hide SkipList.Valid;
    set0 := new SortedSet();
    ghost var s := compact.Listing();
    for i := 0 to |compact.entries|
      invariant set0.Valid() && fresh(set0) && fresh(set0.order) && fresh(set0.order.Nodes())
      invariant set0.index == AddAll(map[], s[..i])
    {
      AddAllStep(map[], s, i);
      var x := EntryOf(compact.entries[i], compact.arena);
      var added := set0.Add(x.member, x.score);
    }
    assert s[..|s|] == s;
    AddAllListing(s, compact.scores);
  }

  /** `newZSetValueForEntries`: the value a first ZADD creates. */
  method ForEntries(batch: seq<Entry>) returns (v: ZSetValue)
    ensures v.Valid() && fresh(v.Repr)
    ensures v.scores == AddAll(map[], batch)
    ensures v.Content() == NewZSet(batch)
  {
    hide SortedSet.Valid, CompactZSet.Valid, AddAll, SkipList.Nodes, Small, ShortMembers, Shape, AddScores;
    var members, eligible := MembersFor(batch);
    NoneSmall();
    SmallAfter(map[], batch);
    ShapeAfter(Compact, map[], batch);
    if eligible && |members| <= ZSET_MAX_ENTRIES {
      var c := CompactFromMap(members);
      v := new ZSetValue.FromCompact(c);
    } else {
      var g := GeneralFromMap(members);
      v := new ZSetValue.FromGeneral(g);
    }
  }

  lemma NoneSmall()
    ensures Small(map[]) && Shape(Compact, map[]) == Keyspace.CompactZSet(map[])
  {
  }

  /** `zsetMapForEntries` */
  method MembersFor(batch: seq<Entry>) returns (members: Scores, eligible: bool)
    ensures members == AddAll(map[], batch) && (eligible <==> ShortMembers(batch))
  {
    hide AddAll;
    members, eligible := map[], true;
    AddAllNone(members, batch);
    for i := 0 to |batch|
      invariant members == AddAll(map[], batch[..i])
      invariant eligible <==> ShortMembers(batch[..i])
    {
      AddAllStep(map[], batch, i);
      MembersGrow(batch, i);
      if |batch[i].member| > ZSET_MAX_MEMBER { eligible := false; }
      members := members[batch[i].member := batch[i].score];
    }
    assert batch[..|batch|] == batch;
  }

  /** `newCompactZSetFromMap`: a map is visited in no particular order. */
  method CompactFromMap(members: Scores) returns (set0: CompactZSet)
    ensures set0.Valid() && set0.scores == members && fresh(set0)
  {
    hide LeftOf, CompactZSet.Valid;
    set0 := new CompactZSet();
    LeftAll(members);
    var rest := members;
    while rest != map[]
      invariant set0.Valid() && fresh(set0)
      invariant LeftOf(rest, members)
      invariant set0.scores == members - rest.Keys
      decreases |rest|
    {
      var k :| k in rest;
      var added := set0.Add(k, rest[k]);
      TakeOne(members, rest, k);
      rest := rest - {k};
    }
  }

  /** `newSortedSetFromMap` */
  method GeneralFromMap(members: Scores) returns (set0: SortedSet)
    ensures set0.Valid() && set0.index == members
    ensures fresh(set0) && fresh(set0.order) && fresh(set0.order.Nodes())
  {
    hide SkipList.Valid;
    hide LeftOf;
    set0 := new SortedSet();
    LeftAll(members);
    var rest := members;
    while rest != map[]
      invariant set0.Valid() && fresh(set0) && fresh(set0.order) && fresh(set0.order.Nodes())
      invariant LeftOf(rest, members)
      invariant set0.index == members - rest.Keys
      decreases |rest|
    {
      var k :| k in rest;
      var added := set0.Add(k, rest[k]);
      TakeOne(members, rest, k);
      rest := rest - {k};
    }
  }
}
