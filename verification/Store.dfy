/**
 The sharded store with approximate memory accounting and eviction
 (internal/storage/memory.go, stats.go, shard.go and store.go). Clock readings are
 parameters: an operation that reads the clock twice takes two.
 */
module Stores {
  import opened Arithmetic
  import opened Options
  import opened Order
  import opened Keyspace
  import opened Measuring
  import opened Eviction
  import opened StoreSpec
  import opened Payloads
  import opened Changes
  import Decimal


  class Store {
    var shards: seq<Shard>
    var usedMemory: int
    var maxMemory: int
    var sampleSize: int
    var kindCounts: seq<int>
    var pendingExpired: seq<Key>
    const home: Key -> nat
    ghost var view: Shard

    ghost predicate Valid()
      reads `shards, `sampleSize, `view, `kindCounts
    {
      && |shards| > 0 && sampleSize > 0
      && (forall k :: home(k) < |shards|)
      && Parted(shards, view, home)
      && Counted(kindCounts, view)
    }

    /** What the running total falls short of the size of everything stored. */
    ghost function Short(): int
      reads this
    {
      Sum(view, AllSizes) - usedMemory
    }

    ghost predicate Exact()
      reads this
    {
      Short() == 0
    }

    ghost function Memory(): StoreSpec.Memory
      reads this
    {
      StoreSpec.Memory(view, maxMemory, sampleSize)
    }

    /** The keys of one shard. */
    function Keys(i: nat): (r: set<Key>)
      requires Valid() && i < |shards|
      reads this
      ensures r == set k | k in view && home(k) == i
    {
      shards[i].Keys
    }

    /** `shard.data[key]`, for a key that is stored */
    function Lookup(key: Key): (r: Stored)
      requires Valid() && key in view
      reads this
      ensures r == view[key]
    {
      shards[home(key)][key]
    }

    /** `setKeyLocked` */
    method SetKey(key: Key, value: Stored)
      requires Valid()
      modifies `shards, `kindCounts, `view
      ensures Valid() && |shards| == old(|shards|)
      ensures view == old(view)[key := value]
    {
      hide Sum, Weigh, KindOf, Counted, Bump;
      var i := home(key);
      PartedPut(shards, view, home, key, value);
      CountedPut(kindCounts, view, key, value);
      hide Parted;
      if key !in shards[i] || KindOf(shards[i][key]) != KindOf(value) {
        if key in shards[i] {
          AdjustKindCount(shards[i][key], -1);
        }
        AdjustKindCount(value, 1);
      }
      shards := shards[i := shards[i][key := value]];
      view := view[key := value];
    }

    /** `adjustKeyKindCount` */
    method AdjustKindCount(value: Stored, delta: int)
      requires |kindCounts| == |KINDS|
      modifies `kindCounts
      ensures kindCounts == Bump(old(kindCounts), KindOf(value), delta)
    {
      var i := KindIndex(KindOf(value));
      kindCounts := kindCounts[i := kindCounts[i] + delta];
    }

    /** `removeKeyLocked` */
    method RemoveKey(key: Key)
      requires Valid()
      modifies `shards, `kindCounts, `view
      ensures Valid() && |shards| == old(|shards|)
      ensures view == old(view) - {key}
    {
      hide Sum, Weigh, KindOf, Counted, Bump;
      var i := home(key);
      PartedDrop(shards, view, home, key);
      hide Parted;
      if key in shards[i] {
        CountedDrop(kindCounts, view, key);
        AdjustKindCount(shards[i][key], -1);
      } else {
        assert view - {key} == view;
      }
      shards := shards[i := shards[i] - {key}];
      view := view - {key};
    }

    /** `deleteKeyLocked` */
    method DeleteKey(key: Key) returns (ok: bool)
      requires Valid()
      modifies `shards, `kindCounts, `view, `usedMemory
      ensures Valid() && |shards| == old(|shards|)
      ensures ok == (key in old(view)) && view == old(view) - {key}
      ensures if maxMemory > 0 then Short() == old(Short()) else usedMemory == old(usedMemory)
      ensures maxMemory > 0 ==> usedMemory == old(usedMemory) - if ok then Size(key, old(view)[key]) else 0
    {
      hide Sum, Weigh, KindOf, Size, Counted;
      var i := home(key);
      ok := key in shards[i];
      if !ok {
        assert view - {key} == view;
        return;
      }
      SumRemove(view, AllSizes, key);
      assert Weigh(AllSizes, key, view[key]) == Size(key, view[key]) by { SizeWeight(key, view[key]); }
      var size := 0;
      if maxMemory > 0 {
        size := Measure(key, shards[i][key]);
      }
      ok := DeleteKeyWithSize(key, size);
    }

    /** `deleteKeyWithSizeLocked` */
    method DeleteKeyWithSize(key: Key, size: int) returns (ok: bool)
      requires Valid()
      modifies `shards, `kindCounts, `view, `usedMemory
      ensures Valid() && |shards| == old(|shards|)
      ensures ok == (key in old(view)) && view == old(view) - {key}
      ensures usedMemory == old(usedMemory) - if ok && maxMemory > 0 then size else 0
    {
      hide Sum, Weigh, KindOf, Counted;
      ok := key in shards[home(key)];
      if !ok {
        assert view - {key} == view;
        return;
      }
      if maxMemory > 0 {
        usedMemory := usedMemory - size;
      }
      RemoveKey(key);
    }

    /** `noteExpiredKeysLocked` */
    method NoteExpired(keys: seq<Key>)
      modifies `pendingExpired
      ensures pendingExpired == old(pendingExpired) + keys
    {
      pendingExpired := pendingExpired + keys;
    }

    /** One key of `recalculateUsedMemoryLocked`. */
    method SweepKey(k: Key, now: int, used0: int, expired0: seq<Key>, ghost before: Shard, ghost seen: set<Key>)
      returns (used: int, expired: seq<Key>)
      requires Valid() && k in view && k in before && k !in seen
      requires SweptSoFar(before, seen, now, view, used0, expired0)
      modifies `shards, `kindCounts, `view
      ensures Valid() && |shards| == old(|shards|) && old(view.Keys) - {k} <= view.Keys
      ensures SweptSoFar(before, seen + {k}, now, view, used, expired)
    {
      hide Sum, Weigh, KindOf, Size, Counted, Parted, SweptSoFar;
      used, expired := used0, expired0;
      SweepUnseen(before, seen, now, view, used, expired, k);
      var v := Lookup(k);
      if Expired(v, now) {
        SweepDead(before, seen, now, view, used, expired, k);
        RemoveKey(k);
        expired := expired + [k];
      } else {
        SweepKept(before, seen, now, view, used, expired, k);
        var size := Measure(k, v);
        used := used + size;
      }
    }

    /** One shard of `recalculateUsedMemoryLocked`; `before` is the keyspace the sweep began with. */
    method SweepShard(i: nat, now: int, used0: int, expired0: seq<Key>, ghost before: Shard, ghost seen0: set<Key>)
      returns (used: int, expired: seq<Key>)
      requires Valid() && i < |shards|
      requires seen0 == Upto(before, home, i)
      requires SweptSoFar(before, seen0, now, view, used0, expired0)
      modifies `shards, `kindCounts, `view
      ensures Valid() && |shards| == old(|shards|)
      ensures SweptSoFar(before, Upto(before, home, i + 1), now, view, used, expired)
    {
      hide Sum, Weigh, KindOf, Size, Counted, Parted, SweptSoFar, Upto;
      var rest := Keys(i);
      SweepNext(before, home, i, now, view, used0, expired0, rest);
      ghost var seen := seen0;
      used, expired := used0, expired0;
      while rest != {}
        invariant Valid() && |shards| == old(|shards|)
        invariant seen + rest == Upto(before, home, i + 1) && seen !! rest
        invariant rest <= view.Keys && seen + rest <= before.Keys
        invariant SweptSoFar(before, seen, now, view, used, expired)
        decreases |rest|
      {
        var k :| k in rest;
        used, expired := SweepKey(k, now, used, expired, before, seen);
        Moved(seen, rest, k);
        seen, rest := seen + {k}, rest - {k};
      }
    }

    /** `recalculateUsedMemoryLocked` */
    method Recalculate(now: int) returns (used: int)
      requires Valid()
      modifies `shards, `kindCounts, `view, `usedMemory, `pendingExpired
      ensures Valid() && |shards| == old(|shards|)
      ensures view == Live(old(view), now) && used == usedMemory && Exact()
      ensures |pendingExpired| >= old(|pendingExpired|)
      ensures old(pendingExpired) <= pendingExpired
      ensures multiset(pendingExpired[|old(pendingExpired)|..]) == multiset(old(view).Keys - view.Keys)
    {
      hide Sum, Weigh, KindOf, Size, Counted, Parted, SweptSoFar;
      ghost var before := view;
      var expired: seq<Key> := [];
      used := 0;
      SweepNone(before, now);
      assert Upto(before, home, 0) == {};
      for i := 0 to |shards|
        invariant Valid() && |shards| == old(|shards|) && pendingExpired == old(pendingExpired)
        invariant SweptSoFar(before, Upto(before, home, i), now, view, used, expired)
      {
        used, expired := SweepShard(i, now, used, expired, before, Upto(before, home, i));
      }
      assert Upto(before, home, |shards|) == before.Keys;
      SweepAll(before, now, view, used, expired);
      usedMemory := used;
      NoteExpired(expired);
      assert pendingExpired[|old(pendingExpired)|..] == expired;
    }

    /** One shard of `totalEvictableMemoryLocked`. */
    method EvictableIn(i: nat, protected: set<Key>, total0: int) returns (total: int)
      requires Valid() && i < |shards|
      requires total0 == SumOf(view, Upto(view, home, i), Evictable(protected))
      ensures total == SumOf(view, Upto(view, home, i + 1), Evictable(protected))
    {
      hide Sum, SumOf, Weigh, KindOf, Size, Counted, Parted, Upto;
      total := total0;
      ghost var seen := Upto(view, home, i);
      var rest := Keys(i);
      UptoNext(view, home, i, rest);
      while rest != {}
        invariant rest <= view.Keys && seen !! rest && seen + rest == Upto(view, home, i + 1)
        invariant total == SumOf(view, seen, Evictable(protected))
        decreases |rest|
      {
        var k :| k in rest;
        SumOfMore(view, seen, Evictable(protected), k);
        EvictableWeight(protected, k, view[k]);
        if k !in protected {
          var size := Measure(k, Lookup(k));
          total := total + size;
        }
        Moved(seen, rest, k);
        seen, rest := seen + {k}, rest - {k};
      }
      assert seen + {} == seen;
    }

    /** `totalEvictableMemoryLocked` */
    method TotalEvictable(protected: set<Key>) returns (total: int)
      requires Valid()
      ensures total == Sum(view, Evictable(protected))
    {
      hide Sum, SumOf, Weigh, KindOf, Size, Counted, Parted;
      total := 0;
      SumOfNone(view, Evictable(protected));
      assert Upto(view, home, 0) == {};
      for i := 0 to |shards|
        invariant total == SumOf(view, Upto(view, home, i), Evictable(protected))
      {
        total := EvictableIn(i, protected, total);
      }
      SumOfAll(view, Upto(view, home, |shards|), Evictable(protected));
    }

    /** No key of the sample is at home in the shards from `offset` on. */
    ghost predicate Ahead(keys: seq<Key>, start: nat, offset: nat)
      requires |shards| > 0
      reads this
    {
      forall k, o | k in keys && offset <= o < |shards| :: home(k) != Turn(start, o, |shards|)
    }

    /** `sampleKeysLocked`; the clock decides where it starts. A sample smaller than asked for is the whole keyspace. */
    method SampleKeys(limit: int, start: nat) returns (keys: seq<Key>)
      requires Valid()
      ensures Drawn(keys, limit, view.Keys)
    {
      hide Sum, Weigh, KindOf, Size, Counted, Parted;
      keys := [];
      if limit <= 0 {
        return;
      }
      var offset := 0;
      while offset < |shards| && |keys| < limit
        invariant 0 <= offset <= |shards| && Partial(keys, limit, view.Keys) && Ahead(keys, start, offset)
        invariant |keys| < limit ==>
                    forall o, k | 0 <= o < offset && k in view && home(k) == Turn(start, o, |shards|) :: k in keys
        decreases |shards| - offset
      {
        hide Turn;
        ghost var before := keys;
        keys := SampleShard(Turn(start, offset, |shards|), limit, keys);
        AheadNext(before, keys, start, offset);
        offset := offset + 1;
      }
      if |keys| < limit {
        forall k | k in view ensures k in keys {
          var o := Rotation(start, |shards|, home(k));
          assert home(k) == Turn(start, o, |shards|);
        }
      }
    }

    lemma AheadNext(before: seq<Key>, keys: seq<Key>, start: nat, offset: nat)
      requires offset < |shards| && Ahead(before, start, offset)
      requires forall k | k in keys :: k in before || home(k) == Turn(start, offset, |shards|)
      ensures Ahead(keys, start, offset + 1)
    {
      forall o | offset < o < |shards| ensures Turn(start, offset, |shards|) != Turn(start, o, |shards|) {
        RotationOnce(start, offset, o, |shards|);
      }
    }

    /** One shard of the sample. */
    method SampleShard(i: nat, limit: int, keys0: seq<Key>) returns (keys: seq<Key>)
      requires Valid() && i < |shards| && |keys0| < limit && Partial(keys0, limit, view.Keys)
      requires forall k | k in keys0 :: home(k) != i
      ensures Partial(keys, limit, view.Keys) && keys0 <= keys
      ensures forall k | k in keys :: k in keys0 || home(k) == i
      ensures |keys| < limit ==> forall k | k in view && home(k) == i :: k in keys
    {
      hide Sum, Weigh, KindOf, Size, Counted, Parted;
      keys := keys0;
      var rest := Keys(i);
      while rest != {} && |keys| < limit
        invariant rest <= view.Keys && keys0 <= keys && Partial(keys, limit, view.Keys)
        invariant forall k | k in keys :: k !in rest && (k in keys0 || home(k) == i)
        invariant forall k | k in rest :: home(k) == i
        invariant forall k | k in view && home(k) == i :: k in keys || k in rest
        decreases |rest|
      {
        var k :| k in rest;
        keys := keys + [k];
        rest := rest - {k};
      }
    }

    /** The first pass of `findStalestCandidateLocked`. */
    method StalestOf(sample: seq<Key>, protected: set<Key>) returns (best: Best)
      requires Valid()
      ensures best == Pass(sample, Stamps(view, protected), NONE)
    {
      hide Sum, Weigh, KindOf, Size, Counted;
      best := NONE;
      for i := 0 to |sample|
        invariant best == Pass(sample[..i], Stamps(view, protected), NONE)
      {
        assert sample[..i + 1][..i] == sample[..i];
        var k := sample[i];
        if k !in protected && k in shards[home(k)] && Lookup(k).lastAccessed < best.at {
          best := Best(k, Lookup(k).lastAccessed);
        }
      }
      assert sample[..|sample|] == sample;
    }

    /** Its second pass, over every key; `scan` is the order it met them in. */
    method StalestOfAll(first: Best, protected: set<Key>) returns (best: Best, ghost scan: seq<Key>)
      requires Valid()
      ensures Visits(scan, view.Keys) && best == Pass(scan, Stamps(view, protected), first)
    {
      hide Sum, Weigh, KindOf, Size, Counted, Parted;
      best, scan := first, [];
      for i := 0 to |shards|
        invariant forall k :: k in scan <==> k in view && home(k) < i
        invariant best == Pass(scan, Stamps(view, protected), first)
      {
        var rest := Keys(i);
        while rest != {}
          invariant rest <= view.Keys
          invariant forall k :: k in scan || k in rest <==> k in view && home(k) < i + 1
          invariant best == Pass(scan, Stamps(view, protected), first)
          decreases |rest|
        {
          var k :| k in rest;
          assert (scan + [k])[..|scan|] == scan;
          if k !in protected && Lookup(k).lastAccessed < best.at {
            best := Best(k, Lookup(k).lastAccessed);
          }
          scan := scan + [k];
          rest := rest - {k};
        }
      }
    }

    /** `findStalestCandidateLocked` */
    method FindStalest(protected: set<Key>, start: nat) returns (key: Key, ghost sample: seq<Key>, ghost scan: seq<Key>)
      requires Valid()
      ensures Drawn(sample, sampleSize, view.Keys) && Visits(scan, view.Keys)
      ensures key == Pick(sample, scan, Stamps(view, protected))
    {
      hide Sum, Weigh, KindOf, Size, Counted, Parted, Stamps, Drawn;
      var sampled := SampleKeys(sampleSize, start);
      var best := StalestOf(sampled, protected);
      sample := sampled;
      if best.key != [] {
        scan := Enumerate(view.Keys);
        return best.key, sample, scan;
      }
      best, scan := StalestOfAll(best, protected);
      key := best.key;
    }

    /**
     `evictUntilMemoryAtOrBelowLocked`. `gone` is what it deleted, which it reports
     only when it succeeds; `clock` gives each round's reading.
     */
    method EvictUntil(target: int, protected: set<Key>, clock: nat -> nat)
      returns (evicted: seq<Key>, ok: bool, ghost gone: seq<Key>)
      requires Valid() && Exact() && maxMemory > 0
      modifies `shards, `kindCounts, `view, `usedMemory
      ensures Valid() && |shards| == old(|shards|) && Exact()
      ensures Evicting(old(view), protected, target, gone, view) && InTurn(old(view), protected, sampleSize, gone)
      ensures evicted == if ok then gone else []
      ensures ok <==> usedMemory <= target
      ensures !ok ==> Reach(view, protected) == 0
      ensures !ok && gone != [] && Floor(old(view), protected) <= target ==>
                MayLose(old(view), protected, target, sampleSize)
    {
      hide Sum, Weigh, KindOf, Size, Counted, Parted, Pick, Reach, Stamps, Evicting, Drawn, Found, FirstDropped, Chosen;
      hide InTurn, Stale;
      EvictNone(view, protected, target);
      FoundNone(view, protected, target, sampleSize);
      InTurnNone(view, protected, sampleSize);
      gone := [];
      evicted := [];
      while usedMemory > target
        invariant Valid() && |shards| == old(|shards|) && Exact()
        invariant Evicting(old(view), protected, target, gone, view) && evicted == gone
        invariant Found(old(view), protected, target, sampleSize, gone)
        invariant InTurn(old(view), protected, sampleSize, gone)
        decreases |view|
      {
        EvictedLeaves(old(view), protected, target, gone, view);
        var candidate, sample, scan := FindStalest(protected, clock(|evicted|));
        PickCandidate(view, protected, sample, scan);
        PickChosen(view, protected, sampleSize, sample, scan);
        if candidate == [] {
          FoundLoses(old(view), protected, target, sampleSize, gone, view);
          break;
        }
        FoundMore(old(view), protected, target, sampleSize, gone, view, candidate);
        ChosenIsStale(view, protected, sampleSize, candidate);
        InTurnMore(old(view), protected, sampleSize, gone, view, candidate);
        EvictStep(old(view), protected, target, gone, view, candidate);
        var deleted := DeleteKey(candidate);
        if deleted {
          evicted := evicted + [candidate];
          gone := gone + [candidate];
        }
      }
      ok := usedMemory <= target;
      if !ok {
        evicted := [];
      }
    }

    /** `ensureMemoryAvailableLocked`, reading the clock as `now` */
    method EnsureMemory(delta: int, protected: set<Key>, now: int, clock: nat -> nat)
      returns (evicted: seq<Key>, ok: bool, ghost gone: seq<Key>)
      requires Valid()
      modifies `shards, `kindCounts, `view, `usedMemory, `pendingExpired
      ensures Valid() && |shards| == old(|shards|)
      ensures maxMemory <= 0 || delta <= 0 ==> ok && gone == [] && view == old(view) && usedMemory == old(usedMemory)
      ensures maxMemory > 0 && delta > 0 ==>
                Exact() && Freed(Live(old(view), now), protected, maxMemory - delta, sampleSize, gone, view, ok)
      ensures evicted == if ok then gone else []
    {
      hide Sum, Weigh, KindOf, Size, Counted, Parted, Reach, Evicting, Live, MayLose, InTurn;
      InTurnNone(Live(view, now), protected, sampleSize);
      evicted, ok, gone := [], true, [];
      if maxMemory <= 0 || delta <= 0 {
        return;
      }
      var current := Recalculate(now);
      EvictNone(view, protected, maxMemory - delta);
      var target := maxMemory - delta;
      EvictableBound(view, protected);
      if target < 0 {
        return [], false, [];
      }
      if current <= target {
        return;
      }
      var evictable := TotalEvictable(protected);
      if current - evictable > target {
        return [], false, [];
      }
      evicted, ok, gone := EvictUntil(target, protected, clock);
    }

    /** `prepareExistingValueLocked` */
    method PrepareExisting(key: Key, now: int) returns (current: Option<Stored>)
      requires Valid()
      modifies `shards, `kindCounts, `view, `usedMemory
      ensures Valid() && |shards| == old(|shards|)
      ensures view == Prepared(old(view), key, now)
      ensures current == Current(view, key, now) == Current(old(view), key, now)
      ensures key in view ==> current == Some(view[key])
      ensures if maxMemory > 0 then Short() == old(Short()) else usedMemory == old(usedMemory)
    {
      hide Sum, Weigh, KindOf, Size, Counted;
      var i := home(key);
      if key !in shards[i] {
        return None;
      }
      var value := shards[i][key];
      if Expired(value, now) {
        var deleted := DeleteKey(key);
        return None;
      }
      return Some(value);
    }

    /** `commitValueWithEvictionLocked` while accounting, a plain store of the value otherwise (`keyWrite.commit`) */
    method Commit(key: Key, current: Option<Stored>, value: Stored, now: int, clock: nat -> nat)
      returns (evicted: seq<Key>, ok: bool, ghost gone: seq<Key>)
      requires Valid() && current == if key in view then Some(view[key]) else None
      modifies `shards, `kindCounts, `view, `usedMemory, `pendingExpired
      ensures Valid() && |shards| == old(|shards|)
      ensures Written(old(view), key, current, value, now, maxMemory, sampleSize, gone, view, ok)
      ensures evicted == if ok then gone else []
      ensures maxMemory <= 0 ==> usedMemory == old(usedMemory)
      ensures maxMemory > 0 ==> Short() == ShortAfter(key, current, value, now, ok, old(Short()))
      ensures maxMemory > 0 && ok && Size(key, value) > OldSize(key, current) ==> usedMemory <= maxMemory
    {
      hide Valid, Sum, Size, Written, ShortAfter;
      if maxMemory <= 0 {
        PlainlyWritten(view, key, current, value, now, maxMemory, sampleSize);
        SetKey(key, value);
        return [], true, [];
      }
      evicted, ok, gone := CommitAccounted(key, current, value, now, clock);
    }

    /** `commitValueWithEvictionLocked` */
    method CommitAccounted(key: Key, current: Option<Stored>, value: Stored, now: int, clock: nat -> nat)
      returns (evicted: seq<Key>, ok: bool, ghost gone: seq<Key>)
      requires Valid() && maxMemory > 0 && current == if key in view then Some(view[key]) else None
      modifies `shards, `kindCounts, `view, `usedMemory, `pendingExpired
      ensures Valid() && |shards| == old(|shards|)
      ensures Written(old(view), key, current, value, now, maxMemory, sampleSize, gone, view, ok)
      ensures evicted == if ok then gone else []
      ensures Short() == ShortAfter(key, current, value, now, ok, old(Short()))
      ensures ok && Size(key, value) > OldSize(key, current) ==> usedMemory <= maxMemory
    {
      hide Valid, Sum, Weigh, Size, Freed;
      var oldSize: int := 0;
      if current.Some? {
        oldSize := Measure(key, current.value);
      }
      var newSize: int := Measure(key, value);
      evicted, ok, gone := EnsureMemory(newSize - oldSize, {key}, now, clock);
      if newSize > oldSize {
        FreedLeaves(Live(old(view), now), {key}, maxMemory - (newSize - oldSize), sampleSize, gone, view, ok);
      }
      if !ok {
        return [], false, gone;
      }
      SizeWeight(key, value);
      if key in view {
        SizeWeight(key, view[key]);
      }
      SumPut(view, AllSizes, key, value);
      SetKey(key, value);
      usedMemory := usedMemory + newSize - oldSize;
    }

    /** `Set`: `first` and `second` are its two clock readings, `stamp` the access time of the new value. */
    method Set(key: Key, data: Bytes, expiresAt: Decimal.int64, stamp: int, first: int, second: int, clock: nat -> nat)
      returns (evicted: seq<Key>, ok: bool, ghost gone: seq<Key>)
      requires Valid()
      modifies `shards, `kindCounts, `view, `usedMemory, `pendingExpired
      ensures Valid() && |shards| == old(|shards|)
      ensures evicted == if ok then gone else []
      ensures
        var current := Current(old(view), key, first);
        var value := Stored(Str(data), expiresAt, stamp);
        && Written(Prepared(old(view), key, first), key, current, value, second, maxMemory, sampleSize, gone, view, ok)
        && (maxMemory > 0 ==> Short() == ShortAfter(key, current, value, second, ok, old(Short())))
        && (maxMemory > 0 && old(Exact()) ==>
              if ok then Exact() <==> !Drifts(key, current, value, second) else Exact())
      ensures maxMemory <= 0 ==> usedMemory == old(usedMemory)
    {
      hide Sum, Weigh, KindOf, Counted, Parted, Size, Written, ShortAfter;
      var current := PrepareExisting(key, first);
      forall ok: bool {
        ShortExactly(key, current, Stored(Str(data), expiresAt, stamp), second, ok, Short());
      }
      evicted, ok, gone := Commit(key, current, Stored(Str(data), expiresAt, stamp), second, clock);
    }

    /** `writeKey` for any operation that makes its new value from the one it finds, or refuses. */
    method WriteKey(key: Key, make: Option<Stored> -> Outcome<Stored>, first: int, second: int, clock: nat -> nat)
      returns (outcome: Outcome<Stored>, evicted: seq<Key>, ghost gone: seq<Key>)
      requires Valid()
      modifies `shards, `kindCounts, `view, `usedMemory, `pendingExpired
      ensures Valid() && |shards| == old(|shards|)
      ensures evicted == if outcome.Done? then gone else []
      ensures WrittenBy(old(view), key, make, first, second, maxMemory, sampleSize, outcome, gone, view)
      ensures maxMemory > 0 ==>
                var current := Current(old(view), key, first);
                Short() == if make(current).Done?
                           then ShortAfter(key, current, make(current).value, second, outcome.Done?, old(Short()))
                           else old(Short())
      ensures maxMemory <= 0 ==> usedMemory == old(usedMemory)
    {
      hide Sum, Weigh, KindOf, Counted, Parted, Size, Written, ShortAfter;
      evicted, gone := [], [];
      var current := PrepareExisting(key, first);
      outcome := make(current);
      if outcome.Done? {
        var ok;
        evicted, ok, gone := Commit(key, current, outcome.value, second, clock);
        if !ok {
          outcome := OutOfMemory;
        }
      }
    }

    /** INCR, SETBIT, HSET, SADD, ZADD, XADD and PFADD; `stamp` is the access time of a new counter. */
    method Write(key: Key, change: Change, stamp: int, first: Instant, second: int, clock: nat -> nat)
      returns (outcome: Outcome<Stored>, evicted: seq<Key>, ghost gone: seq<Key>)
      requires Valid()
      modifies `shards, `kindCounts, `view, `usedMemory, `pendingExpired
      ensures Valid() && |shards| == old(|shards|)
      ensures evicted == if outcome.Done? then gone else []
      ensures !Checked(change).Done? ==>
                outcome == Refused(Checked(change)) && view == old(view) && usedMemory == old(usedMemory)
      ensures Checked(change).Done? ==>
                var current := Current(old(view), key, first);
                var made := Make(change, first, stamp, current);
                && WrittenBy(old(view), key, c => Make(change, first, stamp, c), first, second, maxMemory, sampleSize,
                     outcome, gone, view)
                && (maxMemory > 0 ==>
                      Short() == if made.Done?
                                 then ShortAfter(key, current, made.value, second, outcome.Done?, old(Short()))
                                 else old(Short()))
                && (maxMemory > 0 && old(Exact()) ==>
                      if outcome.Done? then Exact() <==> !Drifts(key, current, made.value, second) else Exact())
      ensures change.Incr? ==>
                && Raised(Current(old(view), key, first), outcome)
                && (outcome.Done? ==> key in view && view[key] == outcome.value)
                && (outcome.OutOfMemory? ==> maxMemory > 0)
    {
      hide Sum, Weigh, KindOf, Counted, Parted, Size, Written, ShortAfter, Make, Drifts, Raised;
      var checked := Checked(change);
      if !checked.Done? {
        return Refused(checked), [], [];
      }
      ghost var current := Current(view, key, first);
      ghost var made := Make(change, first, stamp, current);
      if made.Done? {
        forall ok: bool {
          ShortExactly(key, current, made.value, second, ok, Short());
        }
      }
      outcome, evicted, gone := WriteKey(key, c => Make(change, first, stamp, c), first, second, clock);
      if change.Incr? {
        IncrRaises(old(view), key, stamp, first, second, maxMemory, sampleSize, outcome, gone, view);
      }
    }

    /** `readKey` and `dropIfStillExpired`, each with its clock reading; `serves` says which values the read can use. */
    method Read(key: Key, serves: Payload -> bool, first: int, second: int) returns (value: Option<Stored>)
      requires Valid()
      modifies `shards, `kindCounts, `view, `usedMemory
      ensures Valid() && |shards| == old(|shards|)
      ensures value == Current(old(view), key, first) && view == ReadFrom(old(view), key, serves, first, second)
      ensures if maxMemory > 0 then Short() == old(Short()) else usedMemory == old(usedMemory)
    {
      hide Sum, Weigh, Counted, Size;
      var i := home(key);
      if key !in shards[i] {
        return None;
      }
      var found := shards[i][key];
      if Expired(found, first) {
        if Expired(found, second) {
          var deleted := DeleteKey(key);
        }
        return None;
      }
      if serves(found.payload) {
        TouchedSize(view, key, first);
        Mutate(key, found.(lastAccessed := first));
      }
      return Some(found);
    }

    /** `pushList` */
    method Push(key: Key, values: seq<Bytes>, left: bool, stamp: int, first: int, second: int, clock: nat -> nat)
      returns (length: Outcome<int>, evicted: seq<Key>, ghost gone: seq<Key>)
      requires Valid()
      modifies `shards, `kindCounts, `view, `usedMemory, `pendingExpired
      ensures Valid() && |shards| == old(|shards|)
      ensures evicted == if length.Done? then gone else []
      ensures length.Syntax? <==> values == []
      ensures length.Syntax? ==> view == old(view) && usedMemory == old(usedMemory)
      ensures !length.Syntax? ==>
                PushedInto(old(view), key, values, left, stamp, first, second, maxMemory, sampleSize,
                  length, gone, view)
      ensures maxMemory > 0 && (length.Done? || length.OutOfMemory?) ==>
                var current := Current(old(view), key, first);
                var value := PushedValue(current, values, left, stamp);
                Short() == ShortAfter(key, current, value, second, length.Done?, old(Short()))
      ensures maxMemory > 0 && length.WrongType? ==> Short() == old(Short())
    {
      hide Sum, Weigh, KindOf, Counted, Parted, Size, Written, ShortAfter, Pushed;
      evicted, gone := [], [];
      if values == [] {
        return Syntax, evicted, gone;
      }
      var current := PrepareExisting(key, first);
      if current.Some? && !current.value.payload.List? {
        return WrongType, evicted, gone;
      }
      var list, deadline := [], 0;
      if current.Some? {
        list, deadline := current.value.payload.items, current.value.expiresAt;
      }
      var combined := Combine(list, values, left);
      var ok;
      evicted, ok, gone := Commit(key, current, Stored(List(combined), deadline, stamp), second, clock);
      length := if ok then Done(|combined|) else OutOfMemory;
    }

    /** A change to the object stored under a key, which keeps its kind. */
    method Mutate(key: Key, value: Stored)
      requires Valid() && key in view && KindOf(view[key]) == KindOf(value)
      modifies `shards, `view
      ensures Valid() && |shards| == old(|shards|)
      ensures view == old(view)[key := value]
    {
      hide Sum, Weigh, KindOf, Counted, Bump;
      var i := home(key);
      PartedPut(shards, view, home, key, value);
      CountedPut(kindCounts, view, key, value);
      hide Parted;
      shards := shards[i := shards[i][key := value]];
      view := view[key := value];
    }

    /** `popN` */
    method PopN(key: Key, count: int, left: bool, first: int, second: int) returns (outcome: Outcome<seq<Bytes>>)
      requires Valid()
      modifies `shards, `kindCounts, `view, `usedMemory
      ensures Valid() && |shards| == old(|shards|)
      ensures PoppedFrom(old(view), key, count, left, first, second, outcome, view)
      ensures if maxMemory > 0 then Short() == old(Short()) else usedMemory == old(usedMemory)
    {
      hide Sum, Weigh, Counted, Parted, Size, Popped;
      if count < 0 {
        return Syntax;
      }
      var current := PrepareExisting(key, first);
      if current.None? {
        return Absent;
      }
      var value := current.value;
      if !value.payload.List? {
        return WrongType;
      }
      var list := value.payload.items;
      if list == [] {
        var deleted := DeleteKey(key);
        return Absent;
      }
      var oldSize: int := 0;
      if maxMemory > 0 {
        oldSize := Measure(key, value);
      }
      var popped, rest := TakeItems(list, if count < |list| then count else |list|, left);
      Shrink(key, value, value.(payload := List(rest), lastAccessed := second), oldSize, rest == []);
      return Done(popped);
    }

    /**
     The end of a pop, of `HDel` and of `SRem`: the object has changed in place, and goes if nothing
     is left of it.
     */
    method Shrink(key: Key, ghost value: Stored, newValue: Stored, oldSize: int, empty: bool)
      requires Valid() && key in view && view[key] == value && KindOf(value) == KindOf(newValue)
      requires maxMemory > 0 ==> oldSize == Size(key, value)
      modifies `shards, `kindCounts, `view, `usedMemory
      ensures Valid() && |shards| == old(|shards|)
      ensures view == if empty then old(view) - {key} else old(view)[key := newValue]
      ensures if maxMemory > 0 then Short() == old(Short()) else usedMemory == old(usedMemory)
    {
      hide Sum, Weigh, Counted, Parted, Size, KindOf;
      SizeWeight(key, value);
      SizeWeight(key, newValue);
      SumRemove(view, AllSizes, key);
      SumPut(view, AllSizes, key, newValue);
      Mutate(key, newValue);
      if empty {
        assert view - {key} == old(view) - {key};
        var ok := DeleteKeyWithSize(key, oldSize);
      } else if maxMemory > 0 {
        var newSize: int := Measure(key, newValue);
        usedMemory := usedMemory + newSize - oldSize;
      }
    }

    /** `HDel` and `SRem`; SREM reads the clock once, so its two readings are the same. */
    method Take(key: Key, what: Taking, first: int, second: int) returns (outcome: Outcome<int>)
      requires Valid()
      modifies `shards, `kindCounts, `view, `usedMemory
      ensures Valid() && |shards| == old(|shards|)
      ensures Asked(what) == [] ==> outcome == Syntax && view == old(view)
      ensures Asked(what) != [] ==>
                TakenFrom(old(view), key, what, first, second, outcome, view)
      ensures if maxMemory > 0 then Short() == old(Short()) else usedMemory == old(usedMemory)
    {
      hide Sum, Weigh, Counted, Parted, Size, Less, Suits, Asked, KindOf, Cardinality, IsHash, IsSet;
      if Asked(what) == [] {
        return Syntax;
      }
      var current := PrepareExisting(key, first);
      if current.None? {
        return Done(0);
      }
      var value := current.value;
      if !Suits(what, value.payload) {
        return WrongType;
      }
      var oldSize: int := 0;
      if maxMemory > 0 {
        oldSize := Measure(key, value);
      }
      KindKept(value, what, second);
      var rest := Less(what, value.payload);
      SuitsCounts(what, value.payload);
      SuitsCounts(what, rest);
      var removed := Cardinality(value.payload) - Cardinality(rest);
      Shrink(key, value, value.(payload := rest, lastAccessed := second), oldSize, Cardinality(rest) == 0);
      return Done(removed);
    }

    /** `Delete` */
    method Delete(key: Key, now: int) returns (ok: bool)
      requires Valid()
      modifies `shards, `kindCounts, `view, `usedMemory
      ensures Valid() && |shards| == old(|shards|)
      ensures view == old(view) - {key} && ok == Current(old(view), key, now).Some?
      ensures if maxMemory > 0 then Short() == old(Short()) else usedMemory == old(usedMemory)
    {
      hide Sum, Weigh, KindOf, Counted, Size;
      var i := home(key);
      var live := key in shards[i] && !Expired(shards[i][key], now);
      var deleted := DeleteKey(key);
      return live;
    }

    /** One shard of `DeleteMany`. */
    method DeleteIn(i: nat, keys: seq<Key>, now: int, removed0: seq<Key>, ghost before: Shard)
      returns (removed: seq<Key>)
      requires Valid() && i < |shards|
      requires Deleted(before, (set k | k in keys && home(k) < i), now, view, removed0)
      modifies `shards, `kindCounts, `view, `usedMemory
      ensures Valid() && |shards| == old(|shards|)
      ensures Deleted(before, (set k | k in keys && home(k) < i + 1), now, view, removed)
      ensures if maxMemory > 0 then Short() == old(Short()) else usedMemory == old(usedMemory)
    {
      hide Sum, Weigh, KindOf, Counted, Parted, Size, Deleted;
      removed := removed0;
      ghost var done := set k | k in keys && home(k) < i;
      for j := 0 to |keys|
        invariant Valid() && |shards| == old(|shards|)
        invariant done == set k | k in keys && (home(k) < i || (home(k) == i && k in keys[..j]))
        invariant Deleted(before, done, now, view, removed)
        invariant if maxMemory > 0 then Short() == old(Short()) else usedMemory == old(usedMemory)
      {
        if home(keys[j]) == i {
          DeletedMore(before, done, now, view, removed, keys[j]);
          var live := Delete(keys[j], now);
          if live {
            removed := removed + [keys[j]];
          }
          done := done + {keys[j]};
        }
      }
      assert done == set k | k in keys && home(k) < i + 1;
    }

    /** `DeleteMany` */
    method DeleteMany(keys: seq<Key>, now: int) returns (removed: seq<Key>)
      requires Valid()
      modifies `shards, `kindCounts, `view, `usedMemory
      ensures Valid() && |shards| == old(|shards|)
      ensures Deleted(old(view), (set k | k in keys), now, view, removed)
      ensures if maxMemory > 0 then Short() == old(Short()) else usedMemory == old(usedMemory)
    {
      hide Sum, Weigh, KindOf, Counted, Parted, Size, Deleted;
      removed := [];
      DeletedNone(view, now);
      assert (set k | k in keys && home(k) < 0) == {};
      for i := 0 to |shards|
        invariant Valid() && |shards| == old(|shards|)
        invariant Deleted(old(view), (set k | k in keys && home(k) < i), now, view, removed)
        invariant if maxMemory > 0 then Short() == old(Short()) else usedMemory == old(usedMemory)
      {
        removed := DeleteIn(i, keys, now, removed, old(view));
      }
      assert (set k | k in keys && home(k) < |shards|) == (set k | k in keys);
    }

    /** `evictExpiredSample`, over the keys its snapshot gave it */
    method EvictExpired(keys: seq<Key>, now: int) returns (expired: seq<Key>)
      requires Valid()
      modifies `shards, `kindCounts, `view, `usedMemory, `pendingExpired
      ensures Valid() && |shards| == old(|shards|)
      ensures Sampled(old(view), keys, |keys|, now, view, expired)
      ensures pendingExpired == old(pendingExpired) + expired
      ensures if maxMemory > 0 then Short() == old(Short()) else usedMemory == old(usedMemory)
    {
      hide Sum, Weigh, KindOf, Counted, Size, Sampled;
      SampledNone(view, keys, now);
      expired := [];
      for i := 0 to |keys|
        invariant Valid() && |shards| == old(|shards|) && pendingExpired == old(pendingExpired)
        invariant Sampled(old(view), keys, i, now, view, expired)
        invariant if maxMemory > 0 then Short() == old(Short()) else usedMemory == old(usedMemory)
      {
        var k := keys[i];
        SampledMore(old(view), keys, i, now, view, expired);
        if k in shards[home(k)] && Expired(shards[home(k)][k], now) {
          var deleted := DeleteKey(k);
          expired := expired + [k];
        }
      }
      NoteExpired(expired);
    }

    /** One shard of the counting in `recalculateKeyStatsLocked`. */
    method CountIn(i: nat)
      requires |shards| > 0 && (forall k :: home(k) < |shards|) && Parted(shards, view, home) && i < |shards|
      requires Counted(kindCounts, Only(view, Upto(view, home, i)))
      modifies `kindCounts
      ensures Counted(kindCounts, Only(view, Upto(view, home, i + 1)))
    {
      hide Sum, Weigh, KindOf, Counted, Bump, Upto, Only;
      ghost var seen := Upto(view, home, i);
      var rest := shards[i].Keys;
      UptoNext(view, home, i, rest);
      while rest != {}
        invariant rest <= shards[i].Keys && seen !! rest && seen + rest == Upto(view, home, i + 1)
        invariant Counted(kindCounts, Only(view, seen))
        decreases |rest|
      {
        var k :| k in rest;
        OnlyMore(view, seen, k);
        NotYet(view, seen, k);
        CountedPut(kindCounts, Only(view, seen), k, view[k]);
        AdjustKindCount(shards[i][k], 1);
        Moved(seen, rest, k);
        seen, rest := seen + {k}, rest - {k};
      }
      assert seen + {} == seen;
    }

    /** `recalculateKeyStatsLocked` */
    method Recount()
      requires |shards| > 0 && (forall k :: home(k) < |shards|) && Parted(shards, view, home)
      modifies `kindCounts
      ensures Counted(kindCounts, view)
    {
      hide Sum, Weigh, KindOf, Counted, Parted;
      kindCounts := [0, 0, 0, 0, 0, 0];
      CountedNone();
      assert Only(view, Upto(view, home, 0)) == map[];
      for i := 0 to |shards|
        invariant Counted(kindCounts, Only(view, Upto(view, home, i)))
      {
        CountIn(i);
      }
      assert Only(view, Upto(view, home, |shards|)) == view;
    }

    /** One shard of the other store, in `ReplaceWith`. */
    method CollectIn(other: Store, i: nat, replacement: seq<Shard>) returns (grown: seq<Shard>)
      requires Valid() && other.Valid() && i < |other.shards| && |replacement| == |shards|
      requires Parted(replacement, Only(other.view, Upto(other.view, other.home, i)), home)
      ensures |grown| == |shards|
      ensures Parted(grown, Only(other.view, Upto(other.view, other.home, i + 1)), home)
    {
      hide Sum, Weigh, KindOf, Counted, Upto, Only, Parted;
      ghost var seen := Upto(other.view, other.home, i);
      var rest := other.Keys(i);
      UptoNext(other.view, other.home, i, rest);
      grown := replacement;
      while rest != {}
        invariant rest <= other.view.Keys && seen !! rest && seen + rest == Upto(other.view, other.home, i + 1)
        invariant |grown| == |shards|
        invariant Parted(grown, Only(other.view, seen), home)
        decreases |rest|
      {
        var k :| k in rest;
        OnlyMore(other.view, seen, k);
        PartedPut(grown, Only(other.view, seen), home, k, other.view[k]);
        grown := grown[home(k) := grown[home(k)][k := other.Lookup(k)]];
        Moved(seen, rest, k);
        seen, rest := seen + {k}, rest - {k};
      }
      assert seen + {} == seen;
    }

    /** The other store's values, each in the shard where this store looks for it. */
    method Collect(other: Store) returns (replacement: seq<Shard>)
      requires Valid() && other.Valid()
      ensures |replacement| == |shards| && Parted(replacement, other.view, home)
    {
      hide Sum, Weigh, KindOf, Counted, Parted, Only, Upto;
      replacement := seq(|shards|, _ => map[]);
      PartedNone(replacement, home);
      OnlyNone(other.view, other.home);
      OnlyAll(other.shards, other.view, other.home);
      for i := 0 to |other.shards|
        invariant |replacement| == |shards|
        invariant Parted(replacement, Only(other.view, Upto(other.view, other.home, i)), home)
      {
        replacement := CollectIn(other, i, replacement);
      }
    }

    /** `ReplaceWith` */
    method ReplaceWith(other: Store, now: int)
      requires Valid() && other.Valid()
      modifies `shards, `kindCounts, `view, `usedMemory, `pendingExpired
      ensures Valid() && |shards| == old(|shards|)
      ensures maxMemory > 0 ==> view == Live(old(other.view), now) && Exact()
      ensures maxMemory <= 0 ==> view == old(other.view) && usedMemory == old(usedMemory)
    {
      hide Sum, Weigh, KindOf, Counted, Live, Parted;
      var replacement := Collect(other);
      view := other.view;
      shards := replacement;
      Recount();
      if maxMemory > 0 {
        var used := Recalculate(now);
      }
    }

    /** `ConfigureMaxMemory` */
    method ConfigureMaxMemory(limit: int, sample: int, now: int)
      requires Valid()
      modifies this
      ensures Valid() && |shards| == old(|shards|)
      ensures maxMemory == (if limit < 0 then 0 else limit)
      ensures sampleSize == (if sample <= 0 then DEFAULT_SAMPLE_SIZE else sample)
      ensures limit > 0 ==> view == Live(old(view), now) && Exact()
      ensures limit <= 0 ==> view == old(view) && usedMemory == 0
    {
      hide Sum, Weigh, KindOf, Counted, Parted, Live;
      maxMemory := if limit < 0 then 0 else limit;
      sampleSize := if sample <= 0 then DEFAULT_SAMPLE_SIZE else sample;
      if limit > 0 {
        var used := Recalculate(now);
      } else {
        usedMemory := 0;
      }
    }

    /** `EnforceMaxMemory` */
    method EnforceMaxMemory(now: int, clock: nat -> nat) returns (evicted: seq<Key>, ok: bool, ghost gone: seq<Key>)
      requires Valid()
      modifies `shards, `kindCounts, `view, `usedMemory, `pendingExpired
      ensures Valid() && |shards| == old(|shards|)
      ensures evicted == if ok then gone else []
      ensures maxMemory <= 0 ==> ok && gone == [] && view == old(view) && usedMemory == old(usedMemory)
      ensures maxMemory > 0 ==>
                Exact() && Freed(Live(old(view), now), {}, maxMemory, sampleSize, gone, view, ok)
    {
      hide Sum, Weigh, KindOf, Counted, Parted, Reach, Live, Evicting, MayLose, Stale;
      evicted, ok, gone := [], true, [];
      if maxMemory <= 0 {
        return;
      }
      var used := Recalculate(now);
      EvictNone(view, {}, maxMemory);
      if usedMemory <= maxMemory {
        return;
      }
      AllEvictable(view);
      evicted, ok, gone := EvictUntil(maxMemory, {}, clock);
    }

    constructor (count: nat, hash: Key -> nat)
      requires count > 0
      ensures Valid() && view == map[] && |shards| == count && usedMemory == maxMemory == 0 && Exact()
    {
      home := k => hash(k) % count;
      shards := seq(count, _ => map[]);
      usedMemory, maxMemory, sampleSize := 0, 0, DEFAULT_SAMPLE_SIZE;
      kindCounts := [0, 0, 0, 0, 0, 0];
      pendingExpired := [];
      view := map[];
      new;
      CountedNone();
    }
  }

  /** The list part of `pushList`: at the left end the values go in back to front. */
  method Combine(list: seq<Bytes>, values: seq<Bytes>, left: bool) returns (combined: seq<Bytes>)
    ensures combined == Pushed(list, values, left) && |combined| == |list| + |values|
  {
    hide Pushed;
    if !left {
      PushedRight(list, values);
      return list + values;
    }
    var back := new Bytes[|values|];
    for i := 0 to |values|
      invariant forall j | 0 <= j < i :: back[j] == values[|values| - 1 - j]
    {
      back[i] := values[|values| - 1 - i];
    }
    PushedLeft(list, values, back[..]);
    return back[..] + list;
  }

  /** The loops of `popN`. */
  method TakeItems(list: seq<Bytes>, n: nat, left: bool) returns (popped: seq<Bytes>, rest: seq<Bytes>)
    requires n <= |list|
    ensures (popped, rest) == Popped(list, n, left)
  {
    hide Popped;
    var items := new Bytes[n];
    for i := 0 to n
      invariant forall j | 0 <= j < i :: items[j] == list[if left then j else |list| - 1 - j]
    {
      items[i] := list[if left then i else |list| - 1 - i];
    }
    popped := items[..];
    if left {
      rest := list[n..];
      PoppedLeft(popped, rest);
      assert popped + rest == list;
    } else {
      rest := list[..|list| - n];
      PoppedRight(rest, list[|list| - n..], popped);
      assert rest + list[|list| - n..] == list;
    }
  }

  /** An automatic stream ID wraps around in this step. */
  ghost predicate WrapsIn(op: Op, m: Shard) {
    op.WriteOp? && Wraps(op.change, op.first, Current(m, op.key, op.first))
  }

  method Apply(store: Store, other: Store, op: Op, clock: nat -> nat)
    requires store.Valid() && other.Valid() && other != store && (store.maxMemory > 0 ==> store.Short() >= 0)
    modifies store
    ensures store.Valid() && (store.maxMemory > 0 ==> store.Short() >= 0)
    ensures old(AllSound(store.view)) && AllSound(other.view) && !WrapsIn(op, old(store.view)) ==> AllSound(store.view)
    ensures old(store.maxMemory > 0 ==> store.Exact()) && Steady(op) && store.maxMemory > 0 ==> store.Exact()
    ensures StepsTo(op, other.view, old(store.Memory()), store.Memory())
  {
    hide Sum, Weigh, KindOf, Counted, Parted, Size, Written, ShortAfter, Freed, Live, PoppedFrom, Sampled, Pushed;
    hide WriteEffect;
    hide AllSound, Deleted, Prepared, TakenFrom, WrittenBy, ReadFrom, Make, Wraps, PushedInto, Current, Checked, Drifts;
    ghost var before := store.view;
    match op
    case SetOp(_, _, _, _, _, _) => ApplySet(store, op, clock);
    case PushOp(_, _, _, _, _, _) => ApplyPush(store, op, clock);
    case WriteOp(_, _, _, _, _) => ApplyWrite(store, op, clock);
    case ReadOp(key, serves, first, second) =>
      var value := store.Read(key, serves, first, second);
      if AllSound(before) {
        ReadSound(before, key, serves, first, second);
      }
    case PopOp(key, count, left, first, second) =>
      var outcome := store.PopN(key, count, left, first, second);
      if AllSound(before) {
        PoppedSound(before, key, count, left, first, second, outcome, store.view);
      }
    case TakeOp(key, what, first, second) =>
      var outcome := store.Take(key, what, first, second);
      if AllSound(before) && Asked(what) != [] {
        TakenSound(before, key, what, first, second, outcome, store.view);
      }
    case DeleteOp(key, now) =>
      var ok := store.Delete(key, now);
      if AllSound(before) {
        DroppedSound(before, key);
      }
    case DeleteManyOp(keys, now) =>
      var removed := store.DeleteMany(keys, now);
      DeletedLeaves(before, (set k | k in keys), now, store.view, removed);
      if AllSound(before) {
        DeletedSound(before, (set k | k in keys), now, store.view, removed);
      }
    case SweepOp(keys, now) =>
      var expired := store.EvictExpired(keys, now);
      if AllSound(before) {
        SampledSound(before, keys, now, store.view, expired);
      }
    case EnforceOp(now) =>
      var evicted, ok, gone := store.EnforceMaxMemory(now, clock);
      if AllSound(before) && store.maxMemory > 0 {
        FreedSound(before, {}, store.maxMemory, store.sampleSize, gone, store.view, ok, now);
      }
    case ConfigureOp(limit, sample, now) =>
      store.ConfigureMaxMemory(limit, sample, now);
      if AllSound(before) {
        LiveSound(before, now);
      }
    case ReplaceOp(now) =>
      store.ReplaceWith(other, now);
      if AllSound(other.view) {
        LiveSound(other.view, now);
      }
  }

  method ApplySet(store: Store, op: Op, clock: nat -> nat)
    requires op.SetOp? && store.Valid() && (store.maxMemory > 0 ==> store.Short() >= 0)
    modifies store
    ensures store.Valid() && store.maxMemory == old(store.maxMemory) && (store.maxMemory > 0 ==> store.Short() >= 0)
    ensures old(AllSound(store.view)) ==> AllSound(store.view)
    ensures old(store.maxMemory > 0 ==> store.Exact()) && Steady(op) && store.maxMemory > 0 ==> store.Exact()
    ensures store.sampleSize == old(store.sampleSize) && Effect(op, old(store.Memory()), store.view)
  {
    hide Sum, Weigh, KindOf, Counted, Parted, Size, Written, ShortAfter, Prepared, AllSound;
    ghost var before, current := store.view, Current(store.view, op.key, op.first);
    var value := Stored(Str(op.data), op.expiresAt, op.stamp);
    forall ok: bool {
      ShortExactly(op.key, current, value, op.second, ok, store.Short());
    }
    var evicted, ok, gone := store.Set(op.key, op.data, op.expiresAt, op.stamp, op.first, op.second, clock);
    if AllSound(before) {
      WrittenSound(before, op.key, current, value, op.second, store.maxMemory, store.sampleSize, gone, store.view,
        ok, op.first);
    }
  }

  method ApplyPush(store: Store, op: Op, clock: nat -> nat)
    requires op.PushOp? && store.Valid() && (store.maxMemory > 0 ==> store.Short() >= 0)
    modifies store
    ensures store.Valid() && store.maxMemory == old(store.maxMemory) && (store.maxMemory > 0 ==> store.Short() >= 0)
    ensures old(AllSound(store.view)) ==> AllSound(store.view)
    ensures old(store.maxMemory > 0 ==> store.Exact()) && Steady(op) && store.maxMemory > 0 ==> store.Exact()
    ensures store.sampleSize == old(store.sampleSize) && Effect(op, old(store.Memory()), store.view)
  {
    hide Sum, Weigh, KindOf, Counted, Parted, Size, Written, ShortAfter, AllSound, PushedValue, Prepared;
    ghost var before, current := store.view, Current(store.view, op.key, op.first);
    forall ok: bool {
      ShortExactly(op.key, current, PushedValue(current, op.values, op.left, op.stamp), op.second, ok, store.Short());
    }
    var length, evicted, gone := store.Push(op.key, op.values, op.left, op.stamp, op.first, op.second, clock);
    if AllSound(before) && op.values != [] {
      PushedSound(before, op.key, op.values, op.left, op.stamp, op.first, op.second, store.maxMemory, store.sampleSize,
        length, gone, store.view);
    }
  }

  method ApplyWrite(store: Store, op: Op, clock: nat -> nat)
    requires op.WriteOp? && store.Valid() && (store.maxMemory > 0 ==> store.Short() >= 0)
    modifies store
    ensures store.Valid() && store.maxMemory == old(store.maxMemory) && (store.maxMemory > 0 ==> store.Short() >= 0)
    ensures old(AllSound(store.view)) && !WrapsIn(op, old(store.view)) ==> AllSound(store.view)
    ensures old(store.maxMemory > 0 ==> store.Exact()) && Steady(op) && store.maxMemory > 0 ==> store.Exact()
    ensures store.sampleSize == old(store.sampleSize) && Effect(op, old(store.Memory()), store.view)
  {
    hide Sum, Weigh, KindOf, Counted, Parted, Size, WrittenBy, ShortAfter, AllSound, Make, Wraps;
    ghost var before, current := store.view, Current(store.view, op.key, op.first);
    if Checked(op.change).Done? && Make(op.change, op.first, op.stamp, current).Done? {
      forall ok: bool {
        ShortExactly(op.key, current, Make(op.change, op.first, op.stamp, current).value, op.second, ok, store.Short());
      }
    }
    var outcome, evicted, gone := store.Write(op.key, op.change, op.stamp, op.first, op.second, clock);
    if Checked(op.change).Done? {
      assert ChangedBy(before, op.key, op.change, op.stamp, op.first, op.second, store.maxMemory, store.sampleSize,
          outcome, gone, store.view);
    }
    if AllSound(before) && Checked(op.change).Done? && !Wraps(op.change, op.first, current) {
      WrittenBySound(before, op.key, op.change, op.stamp, op.first, op.second, store.maxMemory, store.sampleSize,
        outcome, gone, store.view);
    }
  }

  /** XADD with an automatic ID. */
  predicate Automatic(op: Op) {
    op.WriteOp? && op.change.XAdd? && op.change.rawId == Streams.STAR
  }

  /**
   Over any run of operations, at any clock readings, the counters stay right and the
   running total never exceeds the true one; the two agree when no write sees the
   clock move between its two readings. Collections have members and no deadline, and
   streams are in order, unless an automatic stream ID wraps around. A replacement
   takes the content of `other`. `trace` is what the store held before and after each.
   */
  method Run(store: Store, other: Store, ops: seq<Op>, clock: nat -> nat)
    returns (ghost wrapped: bool, ghost trace: seq<StoreSpec.Memory>)
    requires store.Valid() && other.Valid() && other != store && (store.maxMemory > 0 ==> store.Exact())
    modifies store
    ensures store.Valid() && (store.maxMemory > 0 ==> store.Short() >= 0)
    ensures (forall op | op in ops :: Steady(op)) && store.maxMemory > 0 ==> store.Exact()
    ensures old(AllSound(store.view)) && AllSound(other.view) && !wrapped ==> AllSound(store.view)
    ensures wrapped ==> exists op | op in ops :: Automatic(op)
    ensures |trace| == |ops| + 1 && trace[0] == old(store.Memory()) && trace[|ops|] == store.Memory()
    ensures forall i | 0 <= i < |ops| :: StepsTo(ops[i], other.view, trace[i], trace[i + 1])
  {
    hide AllSound, Sum, Wraps, StepsTo;
    wrapped, trace := false, [store.Memory()];
    for i := 0 to |ops|
      invariant store.Valid() && other.Valid() && (store.maxMemory > 0 ==> store.Short() >= 0)
      invariant (forall op | op in ops :: Steady(op)) && store.maxMemory > 0 ==> store.Exact()
      invariant old(AllSound(store.view)) && AllSound(other.view) && !wrapped ==> AllSound(store.view)
      invariant wrapped ==> exists op | op in ops :: Automatic(op)
      invariant |trace| == i + 1 && trace[0] == old(store.Memory()) && trace[i] == store.Memory()
      invariant forall j | 0 <= j < i :: StepsTo(ops[j], other.view, trace[j], trace[j + 1])
    {
      if WrapsIn(ops[i], store.view) {
        WrapsAutomatic(ops[i], store.view);
        wrapped := true;
      }
      Apply(store, other, ops[i], clock);
      trace := trace + [store.Memory()];
    }
  }

  lemma WrapsAutomatic(op: Op, m: Shard)
    requires WrapsIn(op, m)
    ensures Automatic(op)
  {
  }

  /** A number of INCRs of a key that is not there: it reads as the number of those that found room. */
  method CountUp(store: Store, key: Key, k: nat, first: nat -> Instant, times: nat -> Times, clock: nat -> nat)
    returns (raised: nat)
    requires store.Valid() && key !in store.view && k <= Decimal.MAX_INT
    modifies store`shards, store`kindCounts, store`view, store`usedMemory, store`pendingExpired
    ensures store.Valid() && raised <= k && (store.maxMemory <= 0 ==> raised == k)
    ensures if raised == 0 then key !in store.view
            else key in store.view && ReadsAs(store.view[key], raised) && store.view[key].expiresAt == 0
  {
    hide Parted, Counted, ReadsAs, WrittenBy, Sum, Size, Make;
    raised := 0;
    for i := 0 to k
      invariant store.Valid() && raised <= i && (store.maxMemory <= 0 ==> raised == i)
      invariant if raised == 0 then key !in store.view
                else key in store.view && ReadsAs(store.view[key], raised) && store.view[key].expiresAt == 0
    {
      ghost var before := store.view;
      var outcome, evicted;
      ghost var gone;
      outcome, evicted, gone := store.Write(key, Incr, times(i).stamp, first(i), times(i).second, clock);
      IncrRaises(before, key, times(i).stamp, first(i), times(i).second, store.maxMemory, store.sampleSize,
        outcome, gone, store.view);
      if raised > 0 {
        ReadsBelow(before[key], raised);
      }
      if outcome.Done? {
        raised := raised + 1;
      }
    }
  }

  lemma ReadsBelow(v: Stored, n: int)
    requires ReadsAs(v, n)
    ensures v.payload.Str? && Decimal.ParseInt(v.payload.data).Ok? && Decimal.ParseInt(v.payload.data).value == n
    ensures Raisable(v) <==> n < Decimal.MAX_INT
  {
  }

  /** A value found live at 10 and swept at 11, replaced by a longer one: its size is missing from the total. */
  method TotalFallsShort(hash: Key -> nat, clock: nat -> nat) returns (store: Store)
    ensures fresh(store) && store.Valid() && store.maxMemory > 0
    ensures store.Short() == Size([97], Stored(Str([]), 10, 0)) > 0
  {
    hide Parted, Counted, Sum, Size;
    store := new Store(1, hash);
    store.ConfigureMaxMemory(1000, 20, 0);
    ghost var was, longer := Stored(Str([]), 10, 0), Stored(Str([98]), 10, 0);
    SmallSizes();
    hide Written;
    ghost var before := store.view;
    var evicted, ok, gone := store.Set([97], [], 10, 0, 5, 5, clock);
    RoomInNone(before, [97], None, was, 5, 1000, store.sampleSize, gone, store.view, ok);
    before := store.view;
    assert Current(before, [97], 10) == Some(was) && Prepared(before, [97], 10) == before;
    evicted, ok, gone := store.Set([97], [98], 10, 0, 10, 11, clock);
    RoomInNone(before, [97], Some(was), longer, 11, 1000, store.sampleSize, gone, store.view, ok);
  }

  lemma SmallSizes()
    ensures Size([97], Stored(Str([]), 10, 0)) == 57 && Size([97], Stored(Str([98]), 10, 0)) == 58
  {
  }
}
