/**
 Stored values, their accounted size (internal/storage/memory.go) and sums over the
 keyspace.
 */
module Keyspace {
  import opened Order
  import opened Decimal
  import opened Streams

  type Key = Bytes

  datatype Kind = KString | KList | KHash | KSet | KZSet | KStream

  const KINDS: seq<Kind> := [KString, KList, KHash, KSet, KZSet, KStream]

  /**
   The payload of a value, in the detail its size depends on. The compact hash keeps
   its bytes in one arena, `slack` bytes of which are out of use; the arena of the
   compact sorted set holds its members and no more.
   */
  datatype Payload =
    | Str(data: Bytes)
    | List(items: seq<Bytes>)
    | Hash(fields: map<Bytes, Bytes>)
    | CompactHash(fields: map<Bytes, Bytes>, slack: nat)
    | Set(members: set<Bytes>)
    | IntSet(values: set<int64>)
    | ZSet(scores: map<Bytes, real>)
    | CompactZSet(scores: map<Bytes, real>)
    | Stream(entries: seq<StreamEntry>)

  /** A value object; `expiresAt` is 0 for no deadline. */
  datatype Stored = Stored(payload: Payload, expiresAt: int64, lastAccessed: int)

  function KindOf(v: Stored): Kind {
    match v.payload
    case Str(_) => KString
    case List(_) => KList
    case Hash(_) => KHash
    case CompactHash(_, _) => KHash
    case Set(_) => KSet
    case IntSet(_) => KSet
    case ZSet(_) => KZSet
    case CompactZSet(_) => KZSet
    case Stream(_) => KStream
  }

  predicate Expired(v: Stored, now: int) {
    v.expiresAt > 0 && now > v.expiresAt
  }

  function Lengths(items: seq<Bytes>): nat {
    if items == [] then 0 else Lengths(items[..|items| - 1]) + |items[|items| - 1]|
  }

  function RecordLengths(entries: seq<StreamEntry>): nat {
    if entries == [] then 0
    else
      var last := entries[|entries| - 1];
      RecordLengths(entries[..|entries| - 1]) + |IdText(last.id)| + Lengths(last.values)
  }

  ghost function MemberLengths(members: set<Bytes>): nat {
    if members == {} then 0 else var k :| k in members; |k| + MemberLengths(members - {k})
  }

  ghost function FieldLengths(fields: map<Bytes, Bytes>): nat {
    if fields == map[] then 0 else var k :| k in fields; |k| + |fields[k]| + FieldLengths(fields - {k})
  }

  lemma {:induction false} MemberLengthsRemove(members: set<Bytes>, m: Bytes)
    requires m in members
    ensures MemberLengths(members) == |m| + MemberLengths(members - {m})
    decreases |members|
  {
    var j :| j in members && MemberLengths(members) == |j| + MemberLengths(members - {j});
    if j != m {
      MemberLengthsRemove(members - {j}, m);
      MemberLengthsRemove(members - {m}, j);
      assert members - {j} - {m} == members - {m} - {j};
    }
  }

  lemma {:induction false} FieldLengthsRemove(fields: map<Bytes, Bytes>, f: Bytes)
    requires f in fields
    ensures FieldLengths(fields) == |f| + |fields[f]| + FieldLengths(fields - {f})
    decreases |fields|
  {
    var j :| j in fields && FieldLengths(fields) == |j| + |fields[j]| + FieldLengths(fields - {j});
    if j != f {
      FieldLengthsRemove(fields - {j}, f);
      FieldLengthsRemove(fields - {f}, j);
      assert fields - {j} - {f} == fields - {f} - {j};
    }
  }

  lemma FieldLengthsPut(fields: map<Bytes, Bytes>, f: Bytes, v: Bytes)
    ensures FieldLengths(fields[f := v]) ==
            FieldLengths(fields) + |v| + if f in fields then -|fields[f]| else |f|
  {
    FieldLengthsRemove(fields[f := v], f);
    assert fields[f := v] - {f} == fields - {f};
    if f in fields {
      FieldLengthsRemove(fields, f);
    } else {
      assert fields - {f} == fields;
    }
  }

  /** `approximateBaseValueObjectSize` */
  function BaseSize(key: Key, expiresAt: int): nat {
    48 + |key| + if expiresAt > 0 then 8 else 0
  }

  /** `approximateValueObjectSize` */
  ghost function Size(key: Key, v: Stored): (n: nat)
    ensures n >= 48
  {
    BaseSize(key, v.expiresAt) +
    match v.payload
    case Str(data) => |data|
    case List(items) => 32 + |items| * 16 + Lengths(items)
    case Hash(fields) => 32 + |fields| * 24 + FieldLengths(fields)
    case CompactHash(fields, slack) => 32 + |fields| * 24 + FieldLengths(fields) + slack
    case Set(members) => 32 + |members| * 16 + MemberLengths(members)
    case IntSet(values) => 32 + |values| * 8
    case ZSet(scores) => 32 + |scores| * 24 + MemberLengths(scores.Keys)
    case CompactZSet(scores) => 32 + |scores| * 24 + MemberLengths(scores.Keys)
    case Stream(entries) => 32 + |entries| * 32 + RecordLengths(entries)
  }

  /** What a string and its deadline add to the size of a key. */
  lemma StringSize(key: Key, v: Stored)
    requires v.payload.Str?
    ensures Size(key, v) == 48 + |key| + |v.payload.data| + if v.expiresAt > 0 then 8 else 0
  {
  }

  /** What one more item, field, member or record adds to the accounted size, and a new value of a field. */
  lemma ItemSize(key: Key, deadline: int64, at: int, items: seq<Bytes>, item: Bytes)
    ensures Size(key, Stored(List(items + [item]), deadline, at)) ==
            Size(key, Stored(List(items), deadline, at)) + 16 + |item|
  {
    assert (items + [item])[..|items|] == items;
  }

  lemma FieldSize(key: Key, deadline: int64, at: int, fields: map<Bytes, Bytes>, slack: nat, f: Bytes, v: Bytes)
    ensures
      var more := if f in fields then |v| - |fields[f]| else 24 + |f| + |v|;
      && Size(key, Stored(Hash(fields[f := v]), deadline, at)) == Size(key, Stored(Hash(fields), deadline, at)) + more
      && Size(key, Stored(CompactHash(fields[f := v], slack), deadline, at)) ==
         Size(key, Stored(CompactHash(fields, slack), deadline, at)) + more
  {
    hide FieldLengths;
    FieldLengthsPut(fields, f, v);
    MapGrows(fields, f, v);
  }

  lemma MapGrows<T>(m: map<Bytes, T>, k: Bytes, v: T)
    ensures |m[k := v]| == |m| + if k in m then 0 else 1
  {
    assert m[k := v].Keys == m.Keys + {k};
    assert |m| == |m.Keys| && |m[k := v]| == |m[k := v].Keys|;
  }

  /** A byte out of use in the arena of a compact hash counts like one in use. */
  lemma SlackSize(key: Key, deadline: int64, at: int, fields: map<Bytes, Bytes>, slack: nat)
    ensures Size(key, Stored(CompactHash(fields, slack), deadline, at)) ==
            Size(key, Stored(Hash(fields), deadline, at)) + slack
  {
  }

  lemma MemberSize(key: Key, deadline: int64, at: int, members: set<Bytes>, m: Bytes)
    requires m !in members
    ensures Size(key, Stored(Set(members + {m}), deadline, at)) ==
            Size(key, Stored(Set(members), deadline, at)) + 16 + |m|
  {
    hide MemberLengths;
    MemberLengthsRemove(members + {m}, m);
    assert members + {m} - {m} == members;
  }

  lemma IntegerSize(key: Key, deadline: int64, at: int, values: set<int64>, v: int64)
    requires v !in values
    ensures Size(key, Stored(IntSet(values + {v}), deadline, at)) ==
            Size(key, Stored(IntSet(values), deadline, at)) + 8
  {
  }

  lemma ScoreSize(key: Key, deadline: int64, at: int, scores: map<Bytes, real>, m: Bytes, score: real)
    ensures
      var more := if m in scores then 0 else 24 + |m|;
      && Size(key, Stored(ZSet(scores[m := score]), deadline, at)) ==
         Size(key, Stored(ZSet(scores), deadline, at)) + more
      && Size(key, Stored(CompactZSet(scores[m := score]), deadline, at)) ==
         Size(key, Stored(CompactZSet(scores), deadline, at)) + more
  {
    hide MemberLengths;
    MapGrows(scores, m, score);
    assert scores[m := score].Keys == scores.Keys + {m};
    if m in scores {
      assert scores.Keys + {m} == scores.Keys;
    } else {
      MemberLengthsRemove(scores.Keys + {m}, m);
      assert scores.Keys + {m} - {m} == scores.Keys;
    }
  }

  lemma RecordSize(key: Key, deadline: int64, at: int, entries: seq<StreamEntry>, e: StreamEntry)
    ensures Size(key, Stored(Stream(entries + [e]), deadline, at)) ==
            Size(key, Stored(Stream(entries), deadline, at)) + 32 + |IdText(e.id)| + Lengths(e.values)
  {
    assert (entries + [e])[..|entries|] == entries;
  }

  /** An empty collection of any kind. */
  lemma EmptySize(key: Key, deadline: int64, at: int)
    ensures
      var empty := 48 + |key| + (if deadline > 0 then 8 else 0) + 32;
      && Size(key, Stored(List([]), deadline, at)) == empty
      && Size(key, Stored(Hash(map[]), deadline, at)) == Size(key, Stored(CompactHash(map[], 0), deadline, at)) == empty
      && Size(key, Stored(Set({}), deadline, at)) == Size(key, Stored(IntSet({}), deadline, at)) == empty
      && Size(key, Stored(ZSet(map[]), deadline, at)) == Size(key, Stored(CompactZSet(map[]), deadline, at)) == empty
      && Size(key, Stored(Stream([]), deadline, at)) == empty
  {
  }

  // ----- sums -----

  type Shard = map<Key, Stored>

  /** What a sum over the keyspace counts. */
  datatype Weight =
    | AllSizes
    | OfKind(kind: Kind)
    /** The sizes of the keys that may be evicted. */
    | Evictable(protected: set<Key>)
    /** Of those, the non-empty ones last accessed before a given moment. */
    | Staler(protected: set<Key>, moment: int)

  ghost function Weigh(w: Weight, k: Key, v: Stored): nat {
    match w
    case AllSizes => Size(k, v)
    case OfKind(kind) => if KindOf(v) == kind then 1 else 0
    case Evictable(protected) => if k in protected then 0 else Size(k, v)
    case Staler(protected, moment) =>
      if k in protected || k == [] || v.lastAccessed >= moment then 0 else Size(k, v)
  }

  ghost function Sum(m: Shard, w: Weight): nat {
    if m == map[] then 0
    else var k :| k in m; Weigh(w, k, m[k]) + Sum(m - {k}, w)
  }

  lemma {:induction false} SumRemove(m: Shard, w: Weight, k: Key)
    requires k in m
    ensures Sum(m, w) == Weigh(w, k, m[k]) + Sum(m - {k}, w)
    decreases |m|
  {
    hide Weigh;
    var j :| j in m && Sum(m, w) == Weigh(w, j, m[j]) + Sum(m - {j}, w);
    if j != k {
      SumRemove(m - {j}, w, k);
      SumRemove(m - {k}, w, j);
      assert m - {j} - {k} == m - {k} - {j};
    }
  }

  lemma SumPut(m: Shard, w: Weight, k: Key, v: Stored)
    ensures Sum(m[k := v], w) == Weigh(w, k, v) + Sum(m - {k}, w)
    ensures Sum(m[k := v], w) == Sum(m, w) + Weigh(w, k, v) - if k in m then Weigh(w, k, m[k]) else 0
  {
    hide Weigh;
    SumRemove(m[k := v], w, k);
    assert m[k := v] - {k} == m - {k};
    if k in m { SumRemove(m, w, k); } else { assert m - {k} == m; }
  }

  /** A positive sum has a key that counts. */
  lemma {:induction false} SumWitness(m: Shard, w: Weight) returns (k: Key)
    requires Sum(m, w) > 0
    ensures k in m && Weigh(w, k, m[k]) > 0
    decreases |m|
  {
    hide Weigh;
    k :| k in m && Sum(m, w) == Weigh(w, k, m[k]) + Sum(m - {k}, w);
    if Weigh(w, k, m[k]) == 0 {
      k := SumWitness(m - {k}, w);
    }
  }

  /** A weight that gives no less to any key gives no less in sum. */
  lemma {:induction false} SumMonotone(m: Shard, w: Weight, v: Weight)
    requires forall k | k in m :: Weigh(w, k, m[k]) <= Weigh(v, k, m[k])
    ensures Sum(m, w) <= Sum(m, v)
    decreases |m|
  {
    hide Weigh;
    if k :| k in m {
      SumRemove(m, w, k);
      SumRemove(m, v, k);
      SumMonotone(m - {k}, w, v);
    }
  }
}
