/**
 Replaying a log on a store (internal/aof/loader.go with the handlers of
 internal/command), against replaying it on logical values.
 */
module Recovery {
  import opened Options
  import opened Order
  import opened Streams
  import opened Keyspace
  import opened CompactHashes
  import opened ZSetSpec
  import opened Payloads
  import opened Changes
  import opened StoreSpec
  import opened Stores
  import opened Replaying
  import opened Snapshots
  import opened AofRewrite
  import AofLoader

  // ----- keyspaces and what they hold -----

  /** What a keyspace holds, whatever the encodings. */
  ghost function Shown(m: Shard): Keys {
    map k | k in m :: Held(Meaning(m[k].payload), m[k].expiresAt)
  }

  /** The logical keyspace holds what the store has under the key. */
  ghost predicate Agrees(keys: Keys, key: Key, current: Option<Stored>) {
    if key in keys
    then current.Some? && keys[key] == Held(Meaning(current.value.payload), current.value.expiresAt)
    else current.None?
  }

  /** The keyspace after a write, or nothing if it is refused. */
  ghost function Leaves(keys: Keys, key: Key, made: Outcome<Stored>): Option<Keys> {
    match made
    case Done(v) => Some(keys[key := Held(Meaning(v.payload), v.expiresAt)])
    case _ => None
  }

  lemma ShownNothing()
    ensures Shown(map[]) == map[]
  {
  }

  lemma ShownPut(m: Shard, key: Key, v: Stored)
    ensures Shown(m[key := v]) == Shown(m)[key := Held(Meaning(v.payload), v.expiresAt)]
  {
    hide Meaning;
  }

  /** The look at a key before a write. */
  lemma ShownPrepared(m: Shard, key: Key, now: int)
    ensures Shown(Prepared(m, key, now)) == Due(Shown(m), key, now)
    ensures Agrees(Due(Shown(m), key, now), key, Current(m, key, now))
  {
    hide Meaning;
  }

  // ----- the replayed commands are the store's own -----

  lemma {:induction false} SetAllMerges(pairs: seq<Pair>, fields: Fields)
    ensures SetAll(pairs, fields) == fields + MapOf(pairs)
  {
    if pairs != [] {
      SetAllMerges(pairs[..|pairs| - 1], fields);
    }
  }

  /** HSET replayed does to the meaning of a value what `HSet` does to the value. */
  lemma HashReplayed(pairs: seq<Pair>, key: Key, keys: Keys, now: Instant, stamp: int, current: Option<Stored>,
                     text: ScoreText)
    requires pairs != [] && Agrees(keys, key, current)
    ensures DoHash(key, FlatFields(pairs), keys) == Leaves(keys, key, Make(HSet(pairs), now, stamp, current))
  {
    hide SetFields, NewHash, FlatFields, FieldsOf, MapOf, SetAll;
    var fields := if current.Some? && IsHash(current.value.payload) then current.value.payload.fields else map[];
    SetAllMerges(pairs, fields);
    FieldsBack(pairs, [], fields);
    assert FlatFields(pairs) + [] == FlatFields(pairs);
    NoneLeft(fields + MapOf(pairs), map[], text);
  }

  /** SADD likewise. */
  lemma MembersReplayed(members: seq<Bytes>, key: Key, keys: Keys, now: Instant, stamp: int, current: Option<Stored>)
    requires members != [] && Agrees(keys, key, current)
    ensures DoMembers(key, members, keys) == Leaves(keys, key, Make(SAdd(members), now, stamp, current))
  {
    hide AddMembers, NewSet;
    var p := if current.Some? && IsSet(current.value.payload) then current.value.payload else Set({});
    AddedMembers(p, members);
    SetMeaning(AddMembers(p, members));
    SetMeaning(NewSet(members));
    SetMeaning(p);
    assert {} + MembersOf(members) == MembersOf(members);
    hide MembersIn;
  }

  lemma SetMeaning(p: Payload)
    requires IsSet(p)
    ensures Meaning(p) == SetOf(MembersIn(p))
  {
  }

  /** The arguments of a ZADD read as the batch. */
  ghost predicate ReadAs(args: seq<Bytes>, batch: seq<Entry>, text: ScoreText) {
    && |args| == 2 * |batch|
    && forall i | 0 <= i < |batch| ::
         args[2 * i + 1] == batch[i].member && text.parse(args[2 * i]) == Some(batch[i].score)
  }

  lemma {:induction false} ScoresAdded(args: seq<Bytes>, batch: seq<Entry>, done: nat, scores: Scores, text: ScoreText)
    requires ReadAs(args, batch, text) && done <= |batch|
    ensures ScoresOf(args[2 * done..], AddAll(scores, batch[..done]), text) == Some(AddAll(scores, batch))
    decreases |batch| - done
  {
    if done == |batch| {
      assert batch[..done] == batch;
    } else {
      ScoresAdded(args, batch, done + 1, scores, text);
      var rest, more := args[2 * done..], batch[..done + 1];
      assert rest[0] == args[2 * done] && rest[1] == args[2 * done + 1] && rest[2..] == args[2 * (done + 1)..];
      assert more[..done] == batch[..done] && more[done] == batch[done];
      assert AddAll(scores, more) == AddAll(scores, batch[..done])[rest[1] := batch[done].score];
    }
  }

  /** ZADD likewise. */
  lemma ScoresReplayed(args: seq<Bytes>, batch: seq<Entry>, key: Key, keys: Keys, now: Instant, stamp: int,
                       current: Option<Stored>, text: ScoreText)
    requires batch != [] && ReadAs(args, batch, text) && Agrees(keys, key, current)
    ensures DoScores(key, args, keys, text) == Leaves(keys, key, Make(ZAdd(batch), now, stamp, current))
  {
    hide AddScores, NewZSet, ScoresOf, AddAll;
    var scores := if current.Some? && IsZSet(current.value.payload) then current.value.payload.scores else map[];
    ScoresAdded(args, batch, 0, scores, text);
    assert args[0..] == args && batch[..0] == [];
    NothingAdded(scores);
  }

  lemma NothingAdded(scores: Scores)
    ensures AddAll(scores, []) == scores
  {
  }

  /** XADD likewise. */
  lemma RecordReplayed(rawId: Bytes, values: seq<Bytes>, key: Key, keys: Keys, now: Instant, stamp: int,
                       current: Option<Stored>)
    requires values != [] && |values| % 2 == 0 && Agrees(keys, key, current)
    ensures DoRecord(key, [rawId] + values, keys, now) ==
              Leaves(keys, key, Make(XAdd(rawId, values), now, stamp, current))
  {
    hide ParseId;
    assert ([rawId] + values)[1..] == values;
  }

  /** RPUSH likewise. */
  lemma PushReplayed(values: seq<Bytes>, key: Key, keys: Keys, stamp: int, current: Option<Stored>)
    requires Agrees(keys, key, current) && (current.Some? ==> current.value.payload.List?)
    ensures DoPush(key, values, keys) == Leaves(keys, key, Done(PushedValue(current, values, false, stamp)))
  {
    hide Pushed;
    PushedRight(if current.Some? then current.value.payload.items else [], values);
  }

  /** SET replaces whatever there is. */
  lemma SetShown(m: Shard, key: Key, v: Stored, now: int, first: int)
    requires v.payload.Str?
    ensures Shown(Prepared(m, key, first)[key := v]) ==
              Due(Shown(m), key, now)[key := Held(TextOf(v.payload.data), v.expiresAt)]
  {
    hide Meaning;
    assert Meaning(v.payload) == TextOf(v.payload.data) by { StringMeaning(v.payload); }
  }

  lemma StringMeaning(p: Payload)
    requires p.Str?
    ensures Meaning(p) == TextOf(p.data)
  {
  }

  // ----- the handlers -----

  /** The command went through with these values in the keyspace, or was refused. */
  ghost predicate Obeyed(ok: bool, m: Shard, expected: Option<Keys>) {
    if ok then expected == Some(Shown(m)) else expected == None
  }

  /** What a write of a changed value shows. */
  lemma WriteShown(m: Shard, key: Key, change: Change, now: Instant, stamp: int, second: int, limit: int, n: int,
                   outcome: Outcome<Stored>, gone: seq<Key>, after: Shard)
    requires Checked(change).Done? && limit <= 0
    requires WrittenBy(m, key, c => Make(change, now, stamp, c), now, second, limit, n, outcome, gone, after)
    ensures
      var keys, current := Due(Shown(m), key, now), Current(m, key, now);
      && Agrees(keys, key, current)
      && Obeyed(outcome.Done?, after, Leaves(keys, key, Make(change, now, stamp, current)))
  {
    hide Make, Shown, Meaning, Due, Prepared, Current, Agrees, Size;
    ShownPrepared(m, key, now);
    var made := Make(change, now, stamp, Current(m, key, now));
    if made.Done? {
      ShownPut(Prepared(m, key, now), key, made.value);
    }
  }

  /** What `pushList` shows. */
  lemma PushShown(m: Shard, key: Key, values: seq<Bytes>, stamp: int, now: int, second: int, limit: int, n: int,
                  length: Outcome<int>, gone: seq<Key>, after: Shard)
    requires limit <= 0 && PushedInto(m, key, values, false, stamp, now, second, limit, n, length, gone, after)
    ensures Obeyed(length.Done?, after, DoPush(key, values, Due(Shown(m), key, now)))
  {
    hide Shown, Due, Prepared, Current, Size, PushedValue;
    ShownPrepared(m, key, now);
    var keys, current := Due(Shown(m), key, now), Current(m, key, now);
    if current.Some? && !current.value.payload.List? {
      NoList(current.value.payload);
    } else {
      PushReplayed(values, key, keys, stamp, current);
      ShownPut(Prepared(m, key, now), key, PushedValue(current, values, false, stamp));
    }
  }

  lemma NoList(p: Payload)
    requires !p.List?
    ensures !Meaning(p).ListOf?
  {
  }

  /** `handleSet` */
  method HandleSet(store: Store, key: Key, args: seq<Bytes>, now: Instant, times: Times, ticks: nat -> nat)
    returns (ok: bool)
    requires store.Valid() && args != []
    modifies store`shards, store`kindCounts, store`view, store`usedMemory, store`pendingExpired
    ensures store.Valid()
    ensures store.maxMemory <= 0 ==>
              Obeyed(ok, store.view, DoSet(key, args, Due(Shown(old(store.view)), key, now), now))
  {
    hide Expiry, Shown, Due, Prepared, Parted, Counted, Size;
    match Expiry(args[1..], now)
    case None => ok := false;
    case Some(deadline) =>
      var evicted;
      ghost var gone;
      evicted, ok, gone := store.Set(key, args[0], deadline, times.stamp, times.first, times.second, ticks);
      if store.maxMemory <= 0 {
        SetShown(old(store.view), key, Stored(Str(args[0]), deadline, times.stamp), now, times.first);
      }
  }

  /** `handleRPush` */
  method HandlePush(store: Store, key: Key, args: seq<Bytes>, now: Instant, times: Times, ticks: nat -> nat)
    returns (ok: bool)
    requires store.Valid() && args != []
    modifies store`shards, store`kindCounts, store`view, store`usedMemory, store`pendingExpired
    ensures store.Valid()
    ensures store.maxMemory <= 0 ==> Obeyed(ok, store.view, DoPush(key, args, Due(Shown(old(store.view)), key, now)))
  {
    hide Shown, Due, Parted, Counted, Size, DoPush, PushedInto, PushedValue;
    var length, evicted;
    ghost var gone;
    length, evicted, gone := store.Push(key, args, false, times.stamp, now, times.second, ticks);
    ok := length.Done?;
    if store.maxMemory <= 0 {
      PushShown(old(store.view), key, args, times.stamp, now, times.second, store.maxMemory, store.sampleSize,
        length, gone, store.view);
    }
  }

  /** The fields and values of an HSET. */
  method PairsOf(args: seq<Bytes>) returns (pairs: seq<Pair>)
    requires |args| % 2 == 0
    ensures FlatFields(pairs) == args && |args| == 2 * |pairs|
  {
    pairs := [];
    var i := 0;
    while i < |args|
      invariant 0 <= i <= |args| && i == 2 * |pairs|
      invariant FlatFields(pairs) == args[..i]
    {
      ghost var before := pairs;
      pairs := pairs + [(args[i], args[i + 1])];
      assert pairs[..|before|] == before;
      i := i + 2;
    }
    assert args[..i] == args;
  }

  /** `handleHSet` */
  method HandleHash(store: Store, key: Key, args: seq<Bytes>, now: Instant, times: Times, ticks: nat -> nat,
                    ghost text: ScoreText)
    returns (ok: bool)
    requires store.Valid() && args != []
    modifies store`shards, store`kindCounts, store`view, store`usedMemory, store`pendingExpired
    ensures store.Valid()
    ensures store.maxMemory <= 0 ==> Obeyed(ok, store.view, DoHash(key, args, Due(Shown(old(store.view)), key, now)))
  {
    hide Shown, Due, Parted, Counted, Size, WrittenBy, Make, FlatFields, FieldsOf, Agrees, Leaves;
    if |args| % 2 != 0 {
      return false;
    }
    var pairs := PairsOf(args);
    var outcome, evicted;
    ghost var gone;
    outcome, evicted, gone := store.Write(key, HSet(pairs), times.stamp, now, times.second, ticks);
    ok := outcome.Done?;
    if store.maxMemory <= 0 {
      WriteShown(old(store.view), key, HSet(pairs), now, times.stamp, times.second, store.maxMemory, store.sampleSize,
        outcome, gone, store.view);
      HashReplayed(pairs, key, Due(Shown(old(store.view)), key, now), now, times.stamp,
        Current(old(store.view), key, now), text);
    }
  }

  /** `handleSAdd` */
  method HandleMembers(store: Store, key: Key, args: seq<Bytes>, now: Instant, times: Times, ticks: nat -> nat)
    returns (ok: bool)
    requires store.Valid() && args != []
    modifies store`shards, store`kindCounts, store`view, store`usedMemory, store`pendingExpired
    ensures store.Valid()
    ensures store.maxMemory <= 0 ==> Obeyed(ok, store.view, DoMembers(key, args, Due(Shown(old(store.view)), key, now)))
  {
    hide Shown, Due, Parted, Counted, Size, WrittenBy, Make, DoMembers, Agrees, Leaves;
    var outcome, evicted;
    ghost var gone;
    outcome, evicted, gone := store.Write(key, SAdd(args), times.stamp, now, times.second, ticks);
    ok := outcome.Done?;
    if store.maxMemory <= 0 {
      WriteShown(old(store.view), key, SAdd(args), now, times.stamp, times.second, store.maxMemory, store.sampleSize,
        outcome, gone, store.view);
      MembersReplayed(args, key, Due(Shown(old(store.view)), key, now), now, times.stamp,
        Current(old(store.view), key, now));
    }
  }

  /** The scores and members of a ZADD, or nothing if one of the scores cannot be read. */
  method EntriesOf(args: seq<Bytes>, text: ScoreText) returns (batch: Option<seq<Entry>>)
    requires |args| % 2 == 0
    ensures if batch.Some? then ReadAs(args, batch.value, text)
            else exists i :: 0 <= i && 2 * i < |args| && text.parse(args[2 * i]) == None
  {
    var entries: seq<Entry> := [];
    while 2 * |entries| < |args|
      invariant 2 * |entries| <= |args| && ReadAs(args[..2 * |entries|], entries, text)
      decreases |args| - |entries|
    {
      var i := |entries|;
      var score := text.parse(args[2 * i]);
      if score.None? {
        assert text.parse(args[2 * i]) == None;
        return None;
      }
      ReadMore(args, entries, Entry(args[2 * i + 1], score.value), text);
      entries := entries + [Entry(args[2 * i + 1], score.value)];
    }
    assert args[..|args|] == args;
    return Some(entries);
  }

  lemma ReadMore(args: seq<Bytes>, batch: seq<Entry>, e: Entry, text: ScoreText)
    requires 2 * |batch| + 1 < |args| && ReadAs(args[..2 * |batch|], batch, text)
    requires args[2 * |batch| + 1] == e.member && text.parse(args[2 * |batch|]) == Some(e.score)
    ensures ReadAs(args[..2 * |batch| + 2], batch + [e], text)
  {
    var front, more := args[..2 * |batch|], args[..2 * |batch| + 2];
    forall i | 0 <= i < |batch|
      ensures more[2 * i + 1] == batch[i].member && text.parse(more[2 * i]) == Some(batch[i].score)
    {
      assert front[2 * i + 1] == more[2 * i + 1] && front[2 * i] == more[2 * i];
    }
  }

  /** A ZADD with a score that cannot be read is refused. */
  lemma {:induction false} ScoresUnread(args: seq<Bytes>, i: nat, scores: Scores, text: ScoreText)
    requires 2 * i + 1 < |args| && text.parse(args[2 * i]) == None
    ensures ScoresOf(args, scores, text) == None
    decreases i
  {
    if i > 0 && text.parse(args[0]).Some? {
      assert args[2..][2 * (i - 1)] == args[2 * i];
      ScoresUnread(args[2..], i - 1, scores[args[1] := text.parse(args[0]).value], text);
    }
  }

  /** `handleZAdd` */
  method HandleScores(store: Store, key: Key, args: seq<Bytes>, now: Instant, times: Times, ticks: nat -> nat,
                      text: ScoreText)
    returns (ok: bool)
    requires store.Valid() && args != []
    modifies store`shards, store`kindCounts, store`view, store`usedMemory, store`pendingExpired
    ensures store.Valid()
    ensures store.maxMemory <= 0 ==>
              Obeyed(ok, store.view, DoScores(key, args, Due(Shown(old(store.view)), key, now), text))
  {
    hide Shown, Due, Parted, Counted, Size, WrittenBy, Make, Agrees, Leaves, ScoresOf, ReadAs;
    if |args| % 2 != 0 {
      return false;
    }
    var batch := EntriesOf(args, text);
    if batch.None? {
      RefusedUnread(key, args, Due(Shown(old(store.view)), key, now), text);
      return false;
    }
    BatchThere(args, batch.value, text);
    var outcome, evicted;
    ghost var gone;
    outcome, evicted, gone := store.Write(key, ZAdd(batch.value), times.stamp, now, times.second, ticks);
    ok := outcome.Done?;
    if store.maxMemory <= 0 {
      WriteShown(old(store.view), key, ZAdd(batch.value), now, times.stamp, times.second, store.maxMemory,
        store.sampleSize, outcome, gone, store.view);
      ScoresReplayed(args, batch.value, key, Due(Shown(old(store.view)), key, now), now, times.stamp,
        Current(old(store.view), key, now), text);
    }
  }

  lemma BatchThere(args: seq<Bytes>, batch: seq<Entry>, text: ScoreText)
    requires args != [] && ReadAs(args, batch, text)
    ensures batch != []
  {
  }

  lemma RefusedUnread(key: Key, args: seq<Bytes>, keys: Keys, text: ScoreText)
    requires |args| % 2 == 0 && exists i :: 0 <= i && 2 * i < |args| && text.parse(args[2 * i]) == None
    ensures DoScores(key, args, keys, text) == None
  {
    hide ScoresOf;
    var i :| 0 <= i && 2 * i < |args| && text.parse(args[2 * i]) == None;
    match Replaying.Found(keys, key, ZSetOf(map[]))
    case ZSetOf(scores) => ScoresUnread(args, i, scores, text);
    case _ =>
  }

  /** `handleXAdd` */
  method HandleRecord(store: Store, key: Key, args: seq<Bytes>, now: Instant, times: Times, ticks: nat -> nat)
    returns (ok: bool)
    requires store.Valid() && args != []
    modifies store`shards, store`kindCounts, store`view, store`usedMemory, store`pendingExpired
    ensures store.Valid()
    ensures store.maxMemory <= 0 ==>
              Obeyed(ok, store.view, DoRecord(key, args, Due(Shown(old(store.view)), key, now), now))
  {
    hide Shown, Due, Parted, Counted, Size, WrittenBy, Make, Agrees, Leaves, Grown;
    var change := XAdd(args[0], args[1..]);
    var outcome, evicted;
    ghost var gone;
    outcome, evicted, gone := store.Write(key, change, times.stamp, now, times.second, ticks);
    ok := outcome.Done?;
    if store.maxMemory <= 0 && Checked(change).Done? {
      WriteShown(old(store.view), key, change, now, times.stamp, times.second, store.maxMemory, store.sampleSize,
        outcome, gone, store.view);
      RecordReplayed(args[0], args[1..], key, Due(Shown(old(store.view)), key, now), now, times.stamp,
        Current(old(store.view), key, now));
      assert [args[0]] + args[1..] == args;
    }
  }

  /** A request of the log carried out on the store, its clock first read at `now`. */
  method Perform(store: Store, c: Command, now: Instant, times: Times, ticks: nat -> nat, text: ScoreText)
    returns (ok: bool)
    requires store.Valid()
    modifies store`shards, store`kindCounts, store`view, store`usedMemory, store`pendingExpired
    ensures store.Valid()
    ensures store.maxMemory <= 0 ==> Obeyed(ok, store.view, Execute(c, Shown(old(store.view)), now, text))
  {
    hide Shown, Due, Parted, Counted, DoSet, DoPush, DoHash, DoMembers, DoScores, DoRecord, Obeyed;
    if |c| < 3 {
      ObeyedNot(store.view);
      return false;
    }
    var name, key, args := c[0], c[1], c[2..];
    if name == SET {
      ok := HandleSet(store, key, args, now, times, ticks);
    } else if name == RPUSH {
      ok := HandlePush(store, key, args, now, times, ticks);
    } else if name == HSET {
      ok := HandleHash(store, key, args, now, times, ticks, text);
    } else if name == SADD {
      ok := HandleMembers(store, key, args, now, times, ticks);
    } else if name == ZADD {
      ok := HandleScores(store, key, args, now, times, ticks, text);
    } else if name == XADD {
      ok := HandleRecord(store, key, args, now, times, ticks);
    } else {
      ObeyedNot(store.view);
      ok := false;
    }
  }

  lemma ObeyedNot(m: Shard)
    ensures Obeyed(false, m, None)
  {
  }

  // ----- the file -----

  /** `LoadFile` with the store's own commands: it ends as on logical values, and leaves what those say. */
  method LoadOnto(store: Store, file: Bytes, clock: nat -> Instant, times: nat -> Times, ticks: nat -> nat,
                  text: ScoreText)
    returns (outcome: AofLoader.Outcome)
    requires store.Valid()
    modifies store`shards, store`kindCounts, store`view, store`usedMemory, store`pendingExpired
    ensures store.Valid()
    ensures store.maxMemory <= 0 ==>
              var r := AofLoader.Load(file, Progress(Shown(old(store.view)), 0), Executor(clock, text));
              outcome == r.outcome && (!outcome.ReplayFailed? ==> Shown(store.view) == r.state.keys)
  {
    hide AofLoader.Parse, Shown, Parted, Counted, Execute, Request;
    var pos, count := 0, 0;
    ghost var r := AofLoader.Load(file, Progress(Shown(store.view), 0), Executor(clock, text));
    assert file[0..] == file;
    while true
      invariant pos <= |file| && store.Valid()
      invariant store.maxMemory <= 0 ==>
                  var later := AofLoader.Load(file[pos..], Progress(Shown(store.view), count), Executor(clock, text));
                  r.outcome == later.outcome && r.state == later.state
      decreases |file| - pos
    {
      var parsed := AofLoader.ParseValue(file[pos..], 0);
      match parsed
      case End(torn) => return AofLoader.Loaded(torn);
      case Refused(e) =>
        if AofLoader.TornTerminator(e) { return AofLoader.Loaded(true); }
        return AofLoader.ParseFailed(e);
      case Got(v, n) =>
        var c := Request(v);
        if c.None? { return AofLoader.ReplayFailed; }
        var ok := Perform(store, c.value, clock(count), times(count), ticks, text);
        if !ok { return AofLoader.ReplayFailed; }
        assert file[pos..][n..] == file[pos + n..];
        pos, count := pos + n, count + 1;
    }
  }
}
