/**
 What the write commands make of the value stored under a key (internal/storage:
 `Increment`, `SetBit`, `HSet`, `SAdd`, `ZAdd`, `XAdd`, `hashDel` and `setRemove`).
 */
module Payloads {
  import opened Options
  import opened Order
  import opened Decimal
  import opened Streams
  import opened Keyspace
  import opened CompactHashes
  import opened IntSets
  import opened ZSetSpec

  datatype Outcome<+T> =
    | Done(value: T)
    | Absent | Syntax | WrongType | NotInteger | BadStreamId | SmallStreamId | NotHyperLogLog | OutOfMemory

  /** The last moment to which every duration in nanoseconds can be added: in 292 million years. */
  const LAST_INSTANT: int := MAX_INT - 9_223_372_036_854

  /** A clock reading in milliseconds. */
  type Instant = x: int | 0 <= x <= LAST_INSTANT witness 0

  /** The clock reads between `t0` and `t1`. */
  ghost predicate Runs(clock: nat -> Instant, t0: int, t1: int) {
    forall i :: t0 <= clock(i) <= t1
  }

  /** The clock readings of a command after its first: the access time and the two of the write. */
  datatype Times = Times(stamp: int, first: int, second: int)

  const HASH_MAX_ENTRIES: nat := 8
  const HASH_MAX_STRING: nat := 64
  const INT_SET_MAX_ENTRIES: nat := 512
  const ZSET_MAX_ENTRIES: nat := 8
  const ZSET_MAX_MEMBER: nat := 64

  // ----- hashes -----

  type Fields = map<Bytes, Bytes>

  predicate IsHash(p: Payload) {
    p.Hash? || p.CompactHash?
  }

  /** The fields set one after the other. */
  function SetAll(pairs: seq<Pair>, fields: Fields): Fields {
    if pairs == [] then fields
    else SetAll(pairs[..|pairs| - 1], fields)[pairs[|pairs| - 1].0 := pairs[|pairs| - 1].1]
  }

  /** The bytes a compact hash has out of use then. */
  function SlackAll(pairs: seq<Pair>, fields: Fields, slack: nat): nat {
    if pairs == [] then slack
    else
      var n := |pairs| - 1;
      SlackAfter(SetAll(pairs[..n], fields), SlackAll(pairs[..n], fields, slack), pairs[n].0, pairs[n].1)
  }

  predicate SmallPairs(pairs: seq<Pair>) {
    forall p | p in pairs :: |p.0| <= HASH_MAX_STRING && |p.1| <= HASH_MAX_STRING
  }

  /** `hashSet`: a compact hash stays so as long as its fields are few and the new ones short. */
  function SetFields(p: Payload, pairs: seq<Pair>): (r: Payload)
    requires IsHash(p)
    ensures IsHash(r) && r.fields == SetAll(pairs, p.fields)
  {
    match p
    case Hash(fields) => Hash(SetAll(pairs, fields))
    case CompactHash(fields, slack) =>
      if SmallPairs(pairs) && |SetAll(pairs, fields)| <= HASH_MAX_ENTRIES
      then CompactHash(SetAll(pairs, fields), SlackAll(pairs, fields, slack))
      else Hash(SetAll(pairs, fields))
  }

  /** `newHashValueForPairs` */
  function NewHash(pairs: seq<Pair>): (r: Payload)
    ensures IsHash(r) && r.fields == SetAll(pairs, map[])
  {
    var fields := SetAll(pairs, map[]);
    if SmallPairs(pairs) && |fields| <= HASH_MAX_ENTRIES then CompactHash(fields, 0) else Hash(fields)
  }

  /** `hashDel`: a compact hash that loses a field is laid out anew. */
  function LessFields(p: Payload, fields: seq<Bytes>): (r: Payload)
    requires IsHash(p)
    ensures r.Hash? == p.Hash? && IsHash(r)
  {
    var rest := p.fields - set f | f in fields;
    if p.Hash? then Hash(rest) else CompactHash(rest, if rest == p.fields then p.slack else 0)
  }

  // ----- sets -----

  predicate IsSet(p: Payload) {
    p.Set? || p.IntSet?
  }

  /** The members of a set, whatever its encoding. */
  function MembersIn(p: Payload): set<Bytes>
    requires IsSet(p)
  {
    if p.Set? then p.members else Texts(p.values)
  }

  /** `setAdd`: integers stay together as long as they are not too many and nothing else joins them. */
  function AddMembers(p: Payload, members: seq<Bytes>): (r: Payload)
    requires IsSet(p)
    ensures IsSet(r)
  {
    match p
    case Set(all) => Set(all + set m | m in members)
    case IntSet(values) =>
      if !AllInts(members) then Set(Texts(values) + set m | m in members)
      else
        var all := values + IntsAmong(members);
        if |all| > INT_SET_MAX_ENTRIES then Set(Texts(all)) else IntSet(all)
  }

  /** `newSetValueForMembers` */
  function NewSet(members: seq<Bytes>): (r: Payload)
    ensures IsSet(r)
  {
    if AllInts(members) && |IntsAmong(members)| <= INT_SET_MAX_ENTRIES then IntSet(IntsAmong(members))
    else Set(set m | m in members)
  }

  /** `setRemove` */
  function LessMembers(p: Payload, members: seq<Bytes>): (r: Payload)
    requires IsSet(p)
    ensures r.Set? == p.Set? && IsSet(r)
  {
    match p
    case Set(all) => Set(all - set m | m in members)
    case IntSet(values) => IntSet(set v | v in values && FormatInt(v) !in members)
  }

  /** The encodings hold the members a plain set would. */
  lemma AddedMembers(p: Payload, members: seq<Bytes>)
    requires IsSet(p)
    ensures MembersIn(AddMembers(p, members)) == MembersIn(p) + set m | m in members
    ensures MembersIn(NewSet(members)) == set m | m in members
  {
    hide FormatInt, ParseMember;
    if AllInts(members) {
      ParsedTexts(members);
      if p.IntSet? {
        TextsUnion(p.values, IntsAmong(members));
      }
    }
  }

  lemma LostMembers(p: Payload, members: seq<Bytes>)
    requires IsSet(p)
    ensures MembersIn(LessMembers(p, members)) == MembersIn(p) - set m | m in members
  {
    if p.IntSet? {
      hide FormatInt;
      var rest := set v | v in p.values && FormatInt(v) !in members;
      forall m ensures m in Texts(rest) <==> m in Texts(p.values) && m !in members {
      }
    }
  }

  // ----- sorted sets -----

  predicate IsZSet(p: Payload) {
    p.ZSet? || p.CompactZSet?
  }

  /** The kind a value is counted under. */
  lemma KindMeans(v: Stored)
    ensures KindOf(v) == KString <==> v.payload.Str?
    ensures KindOf(v) == KList <==> v.payload.List?
    ensures KindOf(v) == KHash <==> IsHash(v.payload)
    ensures KindOf(v) == KSet <==> IsSet(v.payload)
    ensures KindOf(v) == KZSet <==> IsZSet(v.payload)
    ensures KindOf(v) == KStream <==> v.payload.Stream?
  {
  }

  predicate ShortMembers(batch: seq<Entry>) {
    forall e | e in batch :: |e.member| <= ZSET_MAX_MEMBER
  }

  /** `zsetAdd` */
  function AddScores(p: Payload, batch: seq<Entry>): (r: Payload)
    requires IsZSet(p)
    ensures IsZSet(r) && r.scores == AddAll(p.scores, batch)
  {
    var all := AddAll(p.scores, batch);
    if p.CompactZSet? && ShortMembers(batch) && |all| <= ZSET_MAX_ENTRIES then CompactZSet(all) else ZSet(all)
  }

  /** `newZSetValueForEntries` */
  function NewZSet(batch: seq<Entry>): (r: Payload)
    ensures IsZSet(r) && r.scores == AddAll(map[], batch)
  {
    AddScores(CompactZSet(map[]), batch)
  }
}
