/** What a store comes back with after its append-only file has been rewritten. */
module Persistence {
  import opened Keyspace
  import opened ZSetSpec
  import opened Payloads
  import opened Changes
  import opened StoreSpec
  import opened Stores
  import opened Replaying
  import opened Snapshots
  import opened AofRewrite
  import opened Recovery
  import AofLoader
  import Resp

  // ----- through the file and back -----

  /** A string out of date when the file is rewritten. */
  predicate Past(v: Stored, now: Instant) {
    v.payload.Str? && 0 < v.expiresAt <= now
  }

  /** The rewrite drops what the store still holds as live exactly in the millisecond of the deadline. */
  lemma RewriteMillisecond(v: Stored, now: Instant)
    ensures Past(v, now) && !Expired(v, now) <==> v.payload.Str? && v.expiresAt > 0 && now == v.expiresAt
  {
  }

  /** The time to live is what it was at the rewrite, counted from a moment of the replay between `t0` and `t1`. */
  ghost predicate LivesOn(h: Held, v: Stored, now: Instant, t0: int, t1: int) {
    if v.expiresAt > 0 then t0 <= h.deadline - Duration(v.expiresAt - now) <= t1 else h.deadline == 0
  }

  /** The same keys with the same values and as long to live, but for strings out of date by then. */
  ghost predicate Recovered(keys: Keys, m: Shard, now: Instant, t0: int, t1: int) {
    && (forall k :: k in keys <==> k in m && !Past(m[k], now))
    && (forall k | k in keys :: keys[k].value == Meaning(m[k].payload) && LivesOn(keys[k], m[k], now, t0, t1))
  }

  ghost predicate AllScoresPrintable(scores: Scores, text: ScoreText) {
    forall x | x in scores :: Printable(text, scores[x])
  }

  /** The scores in the keyspace can all be read off their texts. */
  ghost predicate ScoresPrintable(m: Shard, text: ScoreText) {
    forall k | k in m && IsZSet(m[k].payload) :: AllScoresPrintable(m[k].payload.scores, text)
  }

  lemma EntryRecovered(e: SnapshotEntry, v: Stored, keys: Keys, now: Instant, t0: int, t1: int)
    requires Portrays(e, v) && Sound(v)
    ensures Gone(e, now) <==> Past(v, now)
    ensures Holds(keys, e, now, t0, t1) ==>
              keys[e.key].value == Meaning(v.payload) && LivesOn(keys[e.key], v, now, t0, t1)
  {
    hide Inhabited, Duration;
  }

  /** What replaying a snapshot restores is what the snapshot was taken of. */
  lemma PictureRecovered(entries: seq<SnapshotEntry>, m: Shard, at: int, keys: Keys, now: Instant, t0: int, t1: int)
    requires Pictures(entries, m, m.Keys, at) && AllSound(m) && Restored(keys, entries, now, t0, t1)
    ensures Recovered(keys, Live(m, at), now, t0, t1)
  {
    hide Portrays, Sound, Gone, Past, Holds, LivesOn, Meaning;
    forall i | 0 <= i < |entries|
      ensures Gone(entries[i], now) <==> Past(m[entries[i].key], now)
      ensures !Gone(entries[i], now) ==>
                var k := entries[i].key;
                k in keys && keys[k].value == Meaning(m[k].payload) && LivesOn(keys[k], m[k], now, t0, t1)
    {
      EntryRecovered(entries[i], m[entries[i].key], keys, now, t0, t1);
      if !Gone(entries[i], now) {
        assert Holds(keys, entries[i], now, t0, t1);
        HoldsKey(keys, entries[i], now, t0, t1);
      }
    }
    forall k | k in Live(m, at) && !Past(m[k], now) ensures k in keys {
      var i :| 0 <= i < |entries| && entries[i].key == k;
    }
    forall k | k in keys
      ensures k in Live(m, at) && !Past(m[k], now)
      ensures keys[k].value == Meaning(m[k].payload) && LivesOn(keys[k], m[k], now, t0, t1)
    {
      var i :| 0 <= i < |entries| && entries[i].key == k && !Gone(entries[i], now);
    }
  }

  lemma HoldsKey(keys: Keys, e: SnapshotEntry, now: Instant, t0: int, t1: int)
    requires Holds(keys, e, now, t0, t1)
    ensures e.key in keys
  {
  }

  /**
   Any run of the store, its snapshot at `at` rewritten to a file at `now`, and the file
   loaded into an empty store: what was live comes back, unless an automatic stream ID
   has wrapped around on the way. The file loads exactly when every command is within
   the limits of the parser.
   */
  method RewriteAfterRun(count: nat, hash: Key -> nat, other: Store, ops: seq<Op>, ticks: nat -> nat, at: int,
                         now: Instant, ghost clock: nat -> Instant, ghost t0: int, ghost t1: int, text: ScoreText)
    returns (store: Store, commands: seq<Command>, ghost wrapped: bool)
    requires count > 0 && other.Valid() && AllSound(other.view) && Runs(clock, t0, t1)
    ensures store.Valid() && (wrapped ==> exists op | op in ops :: Automatic(op))
    ensures forall i | 0 <= i < |commands| :: commands[i] != []
    ensures !wrapped && ScoresPrintable(Live(store.view, at), text) && (forall c | c in commands :: Countable(c)) ==>
              var r := AofLoader.Load(Resp.EncodeAll(Frames(commands)), START, Executor(clock, text));
              && (r.outcome.Loaded? <==> forall c | c in commands :: Loadable(c))
              && (r.outcome.Loaded? ==> Recovered(r.state.keys, Live(store.view, at), now, t0, t1))
  {
    hide Parted, Counted, Sum, AllSound, Pictures, WellFormed, Restored, Recovered, ScoresPrintable, Countable;
    hide Loadable;
    hide AofLoader.Load, Frames, Resp.EncodeAll, Executor, Automatic, DistinctKeys, AllWell;
    store := new Store(count, hash);
    NothingSound();
    ghost var trace;
    wrapped, trace := Stores.Run(store, other, ops, ticks);
    if !wrapped {
      assert AllSound(store.view);
    }
    var entries := SnapshotAll(store, at);
    commands := RewriteAndLoad(entries, now, clock, t0, t1, text);
    if !wrapped && ScoresPrintable(Live(store.view, at), text) {
      SnapshotWell(entries, store.view, at, text);
      ghost var r := AofLoader.Load(Resp.EncodeAll(Frames(commands)), START, Executor(clock, text));
      if Restored(r.state.keys, entries, now, t0, t1) {
        PictureRecovered(entries, store.view, at, r.state.keys, now, t0, t1);
      }
    }
  }

  /**
   The same with the file loaded into a new store, by that store's own commands: the
   store that comes up holds what was live in the one before, under the same keys and
   with as long to live.
   */
  method Restart(count: nat, hash: Key -> nat, other: Store, ops: seq<Op>, ticks: nat -> nat, at: int, now: Instant,
                 clock: nat -> Instant, times: nat -> Times, ghost t0: int, ghost t1: int, text: ScoreText)
    returns (store: Store, restarted: Store, commands: seq<Command>, outcome: AofLoader.Outcome, ghost wrapped: bool)
    requires count > 0 && other.Valid() && AllSound(other.view) && Runs(clock, t0, t1)
    ensures store.Valid() && restarted.Valid() && (wrapped ==> exists op | op in ops :: Automatic(op))
    ensures !wrapped && ScoresPrintable(Live(store.view, at), text) && (forall c | c in commands :: Countable(c)) ==>
              && (outcome.Loaded? <==> forall c | c in commands :: Loadable(c))
              && (outcome.Loaded? ==> Recovered(Shown(restarted.view), Live(store.view, at), now, t0, t1))
  {
    hide Parted, Counted, AllSound, Recovered, ScoresPrintable, Countable, Loadable, Shown, Live, Runs;
    hide AofLoader.Load, Frames, Resp.EncodeAll, Executor, Automatic;
    store, commands, wrapped := RewriteAfterRun(count, hash, other, ops, ticks, at, now, clock, t0, t1, text);
    restarted := new Store(count, hash);
    ShownNothing();
    outcome := LoadOnto(restarted, Resp.EncodeAll(Frames(commands)), clock, times, ticks, text);
  }

  lemma SnapshotWell(entries: seq<SnapshotEntry>, m: Shard, at: int, text: ScoreText)
    requires Pictures(entries, m, m.Keys, at) && AllSound(m) && ScoresPrintable(Live(m, at), text)
    ensures AllWell(entries, text)
  {
    hide Portrays, Sound, WellFormed, Printed, Expired;
    PicturesWell(entries, m, at);
    forall i | 0 <= i < |entries| ensures Printed(entries[i], text) {
      PortraysPrinted(entries[i], Live(m, at)[entries[i].key], text);
    }
  }

  lemma PortraysPrinted(e: SnapshotEntry, v: Stored, text: ScoreText)
    requires Portrays(e, v)
    requires IsZSet(v.payload) ==> AllScoresPrintable(v.payload.scores, text)
    ensures Printed(e, text)
  {
    hide AddAll, Printable;
    if e.body.Scored? {
      var scored, scores := e.body.scored, AddAll(map[], e.body.scored);
      assert IsZSet(v.payload) && scores == v.payload.scores;
      forall i | 0 <= i < |scored| ensures Printable(text, scored[i].score) {
        assert scored[i].member in scores && scores[scored[i].member] == scored[i].score;
      }
    }
  }

  lemma NothingSound()
    ensures AllSound(map[])
  {
  }
}
