/** The snapshot of a store (`snapshotAllLocked` in internal/storage/store.go). */
module Snapshots {
  import opened Options
  import opened Order
  import opened Streams
  import opened Keyspace
  import opened CompactHashes
  import opened IntSets
  import opened ZSetSpec
  import opened Sets
  import opened Splices
  import opened Payloads
  import opened Changes
  import opened StoreSpec
  import opened Stores
  import opened Replaying
  import Decimal

  /** What a snapshot holds of a value. */
  datatype Body =
    | Text(data: Bytes)
    | Items(items: seq<Bytes>)
    | Fields(fields: seq<Pair>)
    | Members(members: seq<Bytes>)
    | Scored(scored: seq<Entry>)
    | Records(records: seq<StreamEntry>)

  datatype SnapshotEntry = SnapshotEntry(key: Bytes, body: Body, expiresAt: Decimal.int64)

  /** The value a snapshot's body stands for. */
  ghost function ValueOf(body: Body): Val {
    match body
    case Text(data) => TextOf(data)
    case Items(items) => ListOf(items)
    case Fields(fields) => HashOf(MapOf(fields))
    case Members(members) => SetOf(MembersOf(members))
    case Scored(scored) => ZSetOf(AddAll(map[], scored))
    case Records(records) => StreamOf(records)
  }

  /** The value a payload stands for, whatever its encoding. */
  ghost function Meaning(p: Payload): Val {
    match p
    case Str(data) => TextOf(data)
    case List(items) => ListOf(items)
    case Hash(fields) => HashOf(fields)
    case CompactHash(fields, _) => HashOf(fields)
    case Set(members) => SetOf(members)
    case IntSet(values) => SetOf(Texts(values))
    case ZSet(scores) => ZSetOf(scores)
    case CompactZSet(scores) => ZSetOf(scores)
    case Stream(entries) => StreamOf(entries)
  }

  /** What holds of every entry: collections have members and no deadline, fields are different, streams in order. */
  ghost predicate WellFormed(e: SnapshotEntry) {
    match e.body
    case Text(_) => true
    case Items(items) => items != [] && e.expiresAt == 0
    case Fields(fields) => fields != [] && e.expiresAt == 0 && Distinct(fields)
    case Members(members) => members != [] && e.expiresAt == 0
    case Scored(scored) => scored != [] && e.expiresAt == 0
    case Records(records) => records != [] && e.expiresAt == 0 && Orderly(records)
  }

  // ----- listing collections, which are visited in no particular order -----

  method ListFields(m: map<Bytes, Bytes>) returns (pairs: seq<Pair>)
    ensures MapOf(pairs) == m && Distinct(pairs)
  {
    hide MapOf, Distinct, LeftOf;
    pairs := [];
    MapOfNothing();
    LeftAll(m);
    var rest := m;
    while rest != map[]
      invariant Distinct(pairs) && MapOf(pairs) == m - rest.Keys && LeftOf(rest, m)
      decreases |rest|
    {
      var k :| k in rest;
      TakeOne(m, rest, k);
      DistinctMore(pairs, k, rest[k]);
      MapOfMore(pairs, k, rest[k]);
      pairs := pairs + [(k, rest[k])];
      rest := rest - {k};
    }
    assert m - {} == m;
  }

  lemma DistinctMore(pairs: seq<Pair>, field: Bytes, value: Bytes)
    requires Distinct(pairs) && field !in MapOf(pairs)
    ensures Distinct(pairs + [(field, value)])
  {
    AbsentFrom(pairs, field);
  }

  lemma MapOfNothing()
    ensures MapOf([]) == map[] && Distinct([])
  {
  }

  method ListMembers(s: set<Bytes>) returns (members: seq<Bytes>)
    ensures MembersOf(members) == s
  {
    members := [];
    var rest := s;
    while rest != {}
      invariant MembersOf(members) + rest == s
      decreases |rest|
    {
      var m :| m in rest;
      assert MembersOf(members + [m]) == MembersOf(members) + {m};
      members, rest := members + [m], rest - {m};
    }
  }

  /** `zsetRangeByRank` over all ranks: the one listing of the set. */
  method ListScores(m: Scores) returns (scored: seq<Entry>)
    ensures Lists(scored, m) && AddAll(map[], scored) == m
  {
    hide Lists, AddAll, InsertAt, LeftOf;
    scored := [];
    ListsNothing();
    LeftAll(m);
    var rest := m;
    while rest != map[]
      invariant Lists(scored, m - rest.Keys) && LeftOf(rest, m)
      decreases |rest|
    {
      var k :| k in rest;
      var e := Entry(k, rest[k]);
      TakeOne(m, rest, k);
      InsertListed(scored, m - rest.Keys, e);
      var i := Place(scored, m - rest.Keys, e);
      scored := InsertAt(scored, i, e);
      rest := rest - {k};
    }
    assert m - {} == m;
    AddAllListing(scored, m);
  }

  lemma ListsNothing()
    ensures Lists([], map[])
  {
  }

  method Place(s: seq<Entry>, ghost m: Scores, e: Entry) returns (i: nat)
    requires Lists(s, m)
    ensures i == Order.Below(s, e)
  {
    BelowIsPrefix(s, e);
    i := 0;
    while i < |s| && EntryLess(s[i], e)
      invariant 0 <= i <= |s|
      invariant forall j | 0 <= j < i :: EntryLess(s[j], e)
    {
      i := i + 1;
    }
    assert i > 0 ==> EntryLess(s[i - 1], e);
  }

  method BodyOf(p: Payload) returns (body: Body)
    ensures ValueOf(body) == Meaning(p) && (body.Fields? ==> Distinct(body.fields))
    ensures body.Scored? ==> Lists(body.scored, AddAll(map[], body.scored))
  {
    hide MapOf, AddAll, Distinct, Texts, MembersOf, Lists;
    match p {
      case Str(data) => body := Text(data);
      case List(items) => body := Items(items);
      case Hash(fields) =>
        var pairs := ListFields(fields);
        body := Fields(pairs);
      case CompactHash(fields, _) =>
        var pairs := ListFields(fields);
        body := Fields(pairs);
      case Set(all) =>
        var members := ListMembers(all);
        body := Members(members);
      case IntSet(values) =>
        var members := ListMembers(Texts(values));
        body := Members(members);
      case ZSet(scores) =>
        var scored := ListScores(scores);
        body := Scored(scored);
      case CompactZSet(scores) =>
        var scored := ListScores(scores);
        body := Scored(scored);
      case Stream(entries) => body := Records(entries);
    }
  }

  // ----- the snapshot -----

  ghost predicate DistinctKeys(entries: seq<SnapshotEntry>) {
    forall i, j | 0 <= i < j < |entries| :: entries[i].key != entries[j].key
  }

  /** The entry shows the value. */
  ghost predicate Portrays(e: SnapshotEntry, v: Stored) {
    && ValueOf(e.body) == Meaning(v.payload) && e.expiresAt == v.expiresAt
    && (e.body.Fields? ==> Distinct(e.body.fields))
    && (e.body.Scored? ==> Lists(e.body.scored, AddAll(map[], e.body.scored)))
  }

  /** The entries show what is live of the keys seen so far, each once. */
  ghost predicate Pictures(entries: seq<SnapshotEntry>, m: Shard, seen: set<Key>, now: int) {
    && DistinctKeys(entries)
    && (forall i | 0 <= i < |entries| ::
          entries[i].key in seen && entries[i].key in Live(m, now) && Portrays(entries[i], m[entries[i].key]))
    && (forall k | k in seen && k in Live(m, now) :: exists i | 0 <= i < |entries| :: entries[i].key == k)
  }

  lemma PicturesNone(m: Shard, now: int)
    ensures Pictures([], m, {}, now)
  {
  }

  lemma PicturesMore(entries: seq<SnapshotEntry>, m: Shard, seen: set<Key>, now: int, k: Key, e: SnapshotEntry)
    requires Pictures(entries, m, seen, now) && k in m && k !in seen
    requires !Expired(m[k], now) ==> e.key == k && Portrays(e, m[k])
    ensures Pictures(if Expired(m[k], now) then entries else entries + [e], m, seen + {k}, now)
  {
    hide Portrays, Expired;
    var next := if Expired(m[k], now) then entries else entries + [e];
    forall j | j in seen + {k} && j in Live(m, now) ensures exists i | 0 <= i < |next| :: next[i].key == j {
      if j == k {
        assert next[|entries|].key == k;
      } else {
        var i :| 0 <= i < |entries| && entries[i].key == j;
        assert next[i].key == j;
      }
    }
  }

  /** One shard of `snapshotAllLocked`. */
  method SnapshotShard(store: Store, i: nat, now: int, entries0: seq<SnapshotEntry>)
    returns (entries: seq<SnapshotEntry>)
    requires store.Valid() && i < |store.shards|
    requires Pictures(entries0, store.view, Upto(store.view, store.home, i), now)
    ensures Pictures(entries, store.view, Upto(store.view, store.home, i + 1), now)
  {
    hide Pictures, Parted, Counted, Upto, ValueOf, Meaning;
    entries := entries0;
    ghost var seen := Upto(store.view, store.home, i);
    var rest := store.Keys(i);
    UptoNext(store.view, store.home, i, rest);
    while rest != {}
      invariant rest <= store.view.Keys && seen !! rest && seen + rest == Upto(store.view, store.home, i + 1)
      invariant Pictures(entries, store.view, seen, now)
      decreases |rest|
    {
      var k :| k in rest;
      var v := store.Lookup(k);
      var body := BodyOf(v.payload);
      PicturesMore(entries, store.view, seen, now, k, SnapshotEntry(k, body, v.expiresAt));
      if !Expired(v, now) {
        entries := entries + [SnapshotEntry(k, body, v.expiresAt)];
      }
      Moved(seen, rest, k);
      seen, rest := seen + {k}, rest - {k};
    }
    assert seen + {} == seen;
  }

  /** `SnapshotAll`: every live value once. */
  method SnapshotAll(store: Store, now: int) returns (entries: seq<SnapshotEntry>)
    requires store.Valid()
    ensures Pictures(entries, store.view, store.view.Keys, now)
  {
    hide Pictures, Parted, Counted;
    entries := [];
    PicturesNone(store.view, now);
    assert Upto(store.view, store.home, 0) == {};
    for i := 0 to |store.shards|
      invariant Pictures(entries, store.view, Upto(store.view, store.home, i), now)
    {
      entries := SnapshotShard(store, i, now, entries);
    }
    assert Upto(store.view, store.home, |store.shards|) == store.view.Keys;
  }

  /** An entry that shows a value like every stored one is well formed. */
  lemma PortraysWell(e: SnapshotEntry, v: Stored)
    requires Portrays(e, v) && Sound(v)
    ensures WellFormed(e)
  {
    hide Orderly, Distinct;
    match v.payload
    case Hash(_) => MapOfNothing();
    case CompactHash(_, _) => MapOfNothing();
    case IntSet(values) => TextsInhabited(values);
    case _ =>
  }

  lemma TextsInhabited(values: set<Decimal.int64>)
    requires values != {}
    ensures Texts(values) != {}
  {
    var v :| v in values;
    assert Decimal.FormatInt(v) in Texts(values);
  }

  /** The snapshot of a keyspace that a run can reach is well formed. */
  lemma PicturesWell(entries: seq<SnapshotEntry>, m: Shard, now: int)
    requires Pictures(entries, m, m.Keys, now) && AllSound(m)
    ensures forall i | 0 <= i < |entries| :: WellFormed(entries[i])
  {
    hide Portrays, Sound, WellFormed;
    forall i | 0 <= i < |entries| ensures WellFormed(entries[i]) {
      PortraysWell(entries[i], m[entries[i].key]);
    }
  }
}
