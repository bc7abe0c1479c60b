/**
 Strings carried to another store by a snapshot: at a restart and at a full
 resynchronisation (internal/storage/store.go, internal/server/replication.go).
 */
module Resync {
  import opened Options
  import opened Keyspace
  import opened Payloads
  import opened StoreSpec
  import opened Stores
  import RdbFormat
  import Rdb
  import Sorting

  type Item = RdbFormat.Item

  function ItemOf(k: Key, v: Stored): Item
    requires v.payload.Str?
  {
    RdbFormat.Item(k, v.payload.data, v.expiresAt)
  }

  /** The entries are the live strings among the keys seen so far, each once. */
  ghost predicate Exported(entries: seq<Item>, m: Shard, seen: set<Key>, now: int) {
    && (forall i, j | 0 <= i < j < |entries| :: entries[i].key != entries[j].key)
    && (forall e | e in entries ::
          && e.key in seen && e.key in Live(m, now) && m[e.key].payload.Str?
          && e == ItemOf(e.key, m[e.key]))
    && (forall k | k in seen && k in Live(m, now) && m[k].payload.Str? :: ItemOf(k, m[k]) in entries)
  }

  lemma ExportedNone(m: Shard, now: int)
    ensures Exported([], m, {}, now)
  {
  }

  lemma ExportedMore(entries: seq<Item>, m: Shard, seen: set<Key>, now: int, k: Key)
    requires Exported(entries, m, seen, now) && k in m && k !in seen
    ensures
      var next := if Expired(m[k], now) || !m[k].payload.Str? then entries else entries + [ItemOf(k, m[k])];
      Exported(next, m, seen + {k}, now)
  {
    hide Expired;
    forall i | 0 <= i < |entries| ensures entries[i].key != k {
      assert entries[i] in entries;
    }
  }

  /** One shard of `SnapshotStrings`. */
  method ExportShard(store: Store, i: nat, now: int, entries0: seq<Item>) returns (entries: seq<Item>)
    requires store.Valid() && i < |store.shards|
    requires Exported(entries0, store.view, Upto(store.view, store.home, i), now)
    ensures Exported(entries, store.view, Upto(store.view, store.home, i + 1), now)
  {
    hide Exported, Parted, Counted, Upto;
    entries := entries0;
    ghost var seen := Upto(store.view, store.home, i);
    var rest := store.Keys(i);
    UptoNext(store.view, store.home, i, rest);
    while rest != {}
      invariant rest <= store.view.Keys && seen !! rest && seen + rest == Upto(store.view, store.home, i + 1)
      invariant Exported(entries, store.view, seen, now)
      decreases |rest|
    {
      var k :| k in rest;
      var v := store.Lookup(k);
      ExportedMore(entries, store.view, seen, now, k);
      if !Expired(v, now) && v.payload.Str? {
        entries := entries + [ItemOf(k, v)];
      }
      Moved(seen, rest, k);
      seen, rest := seen + {k}, rest - {k};
    }
    assert seen + {} == seen;
  }

  /** `SnapshotStrings`: every live string once. */
  method SnapshotStrings(store: Store, now: int) returns (entries: seq<Item>)
    requires store.Valid()
    ensures Exported(entries, store.view, store.view.Keys, now)
  {
    hide Exported, Parted, Counted;
    entries := [];
    ExportedNone(store.view, now);
    assert Upto(store.view, store.home, 0) == {};
    for i := 0 to |store.shards|
      invariant Exported(entries, store.view, Upto(store.view, store.home, i), now)
    {
      entries := ExportShard(store, i, now, entries);
    }
    assert Upto(store.view, store.home, |store.shards|) == store.view.Keys;
  }

  // ----- from store to store -----

  /** Not out of date at `t`, as the writer and the loader of a snapshot see it. */
  predicate Lasts(v: Stored, t: int) {
    v.expiresAt <= 0 || v.expiresAt > t
  }

  /** The same bytes, and the same deadline if there is one. */
  predicate SameString(v: Stored, w: Stored) {
    v.payload.Str? && v.payload == w.payload && v.expiresAt == if w.expiresAt > 0 then w.expiresAt else 0
  }

  /**
   What a snapshot written at `now` and loaded between `t0` and `t1` leaves of a
   keyspace: its strings that outlive that, and no others.
   */
  ghost predicate Carried(after: Shard, m: Shard, now: int, t0: int, t1: int) {
    && (forall k | k in m && m[k].payload.Str? && Lasts(m[k], now) && Lasts(m[k], t1) ::
          k in after && SameString(after[k], m[k]))
    && (forall k | k in after :: k in m && SameString(after[k], m[k]) && Lasts(m[k], now) && Lasts(m[k], t0))
  }

  /** Keys and strings of at most 512 MiB. */
  ghost predicate StringsFit(m: Shard) {
    forall k | k in m && m[k].payload.Str? :: |k| <= RdbFormat.MAX_OBJECT && |m[k].payload.data| <= RdbFormat.MAX_OBJECT
  }

  lemma LoadCarries(entries: seq<Item>, sorted: seq<Item>, m: Shard, at: int, now: int, clock: nat -> Instant,
                    times: nat -> Times, t0: int, t1: int, lzf: RdbFormat.Lzf)
    requires Exported(entries, m, m.Keys, at) && multiset(sorted) == multiset(entries)
    requires StringsFit(Live(m, at)) && Runs(clock, t0, t1)
    ensures
      var contents := Rdb.ReadPayload(Rdb.SnapshotBytes(sorted, now), lzf);
      && contents.error == None
      && Carried(Rdb.Applied(contents.items, clock, times, map[]), Live(m, at), now, t0, t1)
  {
    hide Rdb.Applied, Rdb.ReadPayload, Rdb.SnapshotBytes, Rdb.Restores, Runs, Expired, Carried;
    assert Rdb.Functional(entries);
    assert Rdb.Fits(entries) by {
      forall i | 0 <= i < |entries|
        ensures |entries[i].key| <= RdbFormat.MAX_OBJECT && |entries[i].value| <= RdbFormat.MAX_OBJECT
      {
        assert entries[i] in entries;
      }
    }
    Rdb.SnapshotLoads(entries, sorted, now, clock, times, t0, t1, lzf);
    var contents := Rdb.ReadPayload(Rdb.SnapshotBytes(sorted, now), lzf);
    RestoresCarried(Rdb.Applied(contents.items, clock, times, map[]), entries, m, at, now, t0, t1);
  }

  lemma RestoresCarried(after: Shard, entries: seq<Item>, m: Shard, at: int, now: int, t0: int, t1: int)
    requires Exported(entries, m, m.Keys, at) && Rdb.Restores(after, entries, now, t0, t1)
    ensures Carried(after, Live(m, at), now, t0, t1)
  {
    hide Expired;
    var live := Live(m, at);
    forall k | k in live && live[k].payload.Str? && Lasts(live[k], now) && Lasts(live[k], t1)
      ensures k in after && SameString(after[k], live[k])
    {
      var e := ItemOf(k, m[k]);
      assert e in entries && Rdb.Outlives(e, now) && Rdb.Outlives(e, t1);
    }
    forall k | k in after
      ensures k in live && SameString(after[k], live[k]) && Lasts(live[k], now) && Lasts(live[k], t0)
    {
      assert Rdb.SavedFrom(entries, k, after[k], now, t0);
    }
  }

  /** The strings of a store as of `at`, written to a snapshot at `now` and loaded into a new store. */
  method SaveAndLoad(store: Store, count: nat, hash: Key -> nat, at: int, now: int, clock: nat -> Instant,
                     times: nat -> Times, ticks: nat -> nat, ghost t0: int, ghost t1: int, lzf: RdbFormat.Lzf)
    returns (loaded: Store, error: Option<RdbFormat.Reason>)
    requires store.Valid() && count > 0 && Runs(clock, t0, t1)
    ensures fresh(loaded) && loaded.Valid() && loaded.maxMemory == 0
    ensures StringsFit(Live(store.view, at)) ==>
              error == None && Carried(loaded.view, Live(store.view, at), now, t0, t1)
  {
    hide Exported, StringsFit, Carried, Live, Runs, Parted, Counted, Rdb.SnapshotBytes, Rdb.ReadPayload, Rdb.Applied;
    hide Rdb.Count, Rdb.Kept, Sorting.SortedBy;
    var entries := SnapshotStrings(store, at);
    var payload, written, skipped;
    ghost var sorted;
    payload, written, skipped, sorted := Rdb.BuildSnapshot(entries, now);
    loaded := new Store(count, hash);
    var loader := new Rdb.Loader(payload, loaded, lzf);
    error := loader.Load(clock, times, ticks);
    if StringsFit(Live(store.view, at)) {
      LoadCarries(entries, sorted, store.view, at, now, clock, times, t0, t1, lzf);
    }
  }

  /**
   A full resynchronisation: the replica ends with the strings of the master, or, if the
   snapshot cannot be loaded, as it was. With a memory limit it drops at `swapped` what is
   out of date.
   */
  method FullResync(master: Store, replica: Store, count: nat, hash: Key -> nat, at: int, now: int,
                    clock: nat -> Instant, times: nat -> Times, ticks: nat -> nat, swapped: int,
                    ghost t0: int, ghost t1: int, lzf: RdbFormat.Lzf)
    returns (error: Option<RdbFormat.Reason>, ghost carried: Shard)
    requires master.Valid() && replica.Valid() && master != replica && count > 0 && Runs(clock, t0, t1)
    modifies replica
    ensures replica.Valid()
    ensures StringsFit(Live(master.view, at)) ==>
              error == None && Carried(carried, Live(master.view, at), now, t0, t1)
    ensures replica.view == if error.Some? then old(replica.view)
                            else if replica.maxMemory > 0 then Live(carried, swapped) else carried
  {
    hide StringsFit, Carried, Live, Runs, Parted, Counted, Sum;
    var loaded;
    loaded, error := SaveAndLoad(master, count, hash, at, now, clock, times, ticks, t0, t1, lzf);
    carried := loaded.view;
    if error.None? {
      replica.ReplaceWith(loaded, swapped);
    }
  }
}
