/** Rewriting the append-only file from a snapshot (internal/aof/rewrite.go). */
module AofRewrite {
  import opened Options
  import opened Order
  import opened Decimal
  import opened Resp
  import opened Streams
  import opened Replaying
  import opened Sorting
  import opened CompactHashes
  import opened ZSetSpec
  import opened Payloads
  import opened Snapshots
  import AofLoader
  import Decoder

  // ----- the commands -----

  function FlatFields(fields: seq<Pair>): seq<Bytes> {
    if fields == [] then [] else FlatFields(fields[..|fields| - 1]) + [fields[|fields| - 1].0, fields[|fields| - 1].1]
  }

  function FlatScores(scored: seq<Entry>, text: ScoreText): seq<Bytes> {
    if scored == [] then []
    else
      var last := scored[|scored| - 1];
      FlatScores(scored[..|scored| - 1], text) + [text.format(last.score), last.member]
  }

  function RecordCommand(key: Bytes, r: StreamEntry): Command {
    [XADD, key, IdText(r.id)] + r.values
  }

  /** `rewriteFramesForEntry`, for fields and members already sorted */
  function CommandsOf(e: SnapshotEntry, now: Instant, text: ScoreText): seq<Command>
  {
    match e.body
    case Text(data) =>
      if e.expiresAt > 0 && e.expiresAt <= now then []
      else if e.expiresAt > 0 then [[SET, e.key, data, PX, FormatInt(e.expiresAt - now)]]
      else [[SET, e.key, data]]
    case Items(items) => if items == [] then [] else [[RPUSH, e.key] + items]
    case Fields(fields) => if fields == [] then [] else [[HSET, e.key] + FlatFields(fields)]
    case Members(members) => if members == [] then [] else [[SADD, e.key] + members]
    case Scored(scored) => if scored == [] then [] else [[ZADD, e.key] + FlatScores(scored, text)]
    case Records(records) => seq(|records|, i requires 0 <= i < |records| => RecordCommand(e.key, records[i]))
  }

  /** A string out of date at the rewrite. */
  predicate Gone(e: SnapshotEntry, now: Instant) {
    e.body.Text? && e.expiresAt > 0 && e.expiresAt <= now
  }

  /** The deadline of a replayed value: as far from the replay at `t` as it was from the rewrite. */
  ghost function Renewed(e: SnapshotEntry, now: Instant, t: int): int {
    if e.body.Text? && e.expiresAt > 0 then t + Duration(e.expiresAt - now) else 0
  }

  // ----- replaying them -----

  lemma {:induction false} FieldsBack(fields: seq<Pair>, tail: seq<Bytes>, start: map<Bytes, Bytes>)
    ensures |FlatFields(fields)| == 2 * |fields|
    ensures FieldsOf(FlatFields(fields) + tail, start) == FieldsOf(tail, start + MapOf(fields))
    decreases |fields|
  {
    if fields == [] {
      assert FlatFields(fields) + tail == tail;
      assert start + map[] == start;
    } else {
      var n := |fields| - 1;
      var last := fields[n];
      var pair := [last.0, last.1];
      FieldsBack(fields[..n], pair + tail, start);
      assert FlatFields(fields) + tail == FlatFields(fields[..n]) + (pair + tail);
      var mid := start + MapOf(fields[..n]);
      assert (pair + tail)[2..] == tail;
      assert mid[last.0 := last.1] == start + MapOf(fields);
    }
  }

  /** Every score has a text that is some number's. */
  ghost predicate Readable(scored: seq<Entry>, text: ScoreText) {
    forall i | 0 <= i < |scored| :: text.parse(text.format(scored[i].score)).Some?
  }

  /** The scores as their texts are read. */
  ghost function AsRead(scored: seq<Entry>, text: ScoreText): (read: seq<Entry>)
    requires Readable(scored, text)
  {
    seq(|scored|, i requires 0 <= i < |scored| =>
      Entry(scored[i].member, text.parse(text.format(scored[i].score)).value))
  }

  /** A ZADD takes the scores as they are read, and is refused if one of them cannot be. */
  lemma {:induction false} ScoresTaken(scored: seq<Entry>, tail: seq<Bytes>, start: map<Bytes, real>, text: ScoreText)
    ensures |FlatScores(scored, text)| == 2 * |scored|
    ensures ScoresOf(FlatScores(scored, text) + tail, start, text) ==
            if Readable(scored, text) then ScoresOf(tail, start + AddAll(map[], AsRead(scored, text)), text) else None
    decreases |scored|
  {
    if scored == [] {
      assert FlatScores(scored, text) + tail == tail;
      assert start + map[] == start;
    } else {
      hide ScoresOf, Readable, AsRead;
      var last, front := scored[|scored| - 1], scored[..|scored| - 1];
      var pair := [text.format(last.score), last.member];
      ScoresTaken(front, pair + tail, start, text);
      assert FlatScores(scored, text) + tail == FlatScores(front, text) + (pair + tail);
      ReadableMore(scored, start, text);
      if Readable(front, text) {
        OneTaken(pair, tail, start + AddAll(map[], AsRead(front, text)), text);
      }
    }
  }

  lemma OneTaken(pair: seq<Bytes>, tail: seq<Bytes>, scores: map<Bytes, real>, text: ScoreText)
    requires |pair| == 2
    ensures ScoresOf(pair + tail, scores, text) ==
            match text.parse(pair[0])
            case None => None
            case Some(score) => ScoresOf(tail, scores[pair[1] := score], text)
  {
    assert (pair + tail)[2..] == tail;
  }

  lemma ReadableMore(scored: seq<Entry>, start: map<Bytes, real>, text: ScoreText)
    requires scored != []
    ensures
      var n := |scored| - 1;
      var score := text.parse(text.format(scored[n].score));
      && (Readable(scored, text) <==> Readable(scored[..n], text) && score.Some?)
      && (Readable(scored, text) ==>
          start + AddAll(map[], AsRead(scored, text)) ==
          (start + AddAll(map[], AsRead(scored[..n], text)))[scored[n].member := score.value])
  {
    var n := |scored| - 1;
    var front := scored[..n];
    if Readable(front, text) && text.parse(text.format(scored[n].score)).Some? {
      assert forall i | 0 <= i < n :: text.parse(text.format(front[i].score)).Some?;
      assert Readable(scored, text);
      assert AsRead(scored, text)[..n] == AsRead(front, text);
    }
  }

  lemma ScoresBack(scored: seq<Entry>, tail: seq<Bytes>, start: map<Bytes, real>, text: ScoreText)
    requires AllPrintable(scored, text)
    ensures |FlatScores(scored, text)| == 2 * |scored|
    ensures ScoresOf(FlatScores(scored, text) + tail, start, text) ==
              ScoresOf(tail, start + AddAll(map[], scored), text)
  {
    hide FlatScores, ScoresOf, AddAll;
    ScoresTaken(scored, tail, start, text);
    assert forall i | 0 <= i < |scored| :: Printable(text, scored[i].score);
    assert AsRead(scored, text) == scored;
  }

  /** The scores of different members come back exactly when each is read off its text. */
  lemma ScoresBackExactly(scored: seq<Entry>, text: ScoreText)
    requires forall i, j | 0 <= i < j < |scored| :: scored[i].member != scored[j].member
    ensures ScoresOf(FlatScores(scored, text), map[], text) == Some(AddAll(map[], scored)) <==>
            AllPrintable(scored, text)
  {
    hide FlatScores, AddAll;
    var args := FlatScores(scored, text);
    assert args + [] == args;
    ScoresTaken(scored, [], map[], text);
    if Readable(scored, text) {
      var read := AsRead(scored, text);
      assert map[] + AddAll(map[], read) == AddAll(map[], read);
      if AddAll(map[], read) == AddAll(map[], scored) {
        forall i | 0 <= i < |scored| ensures Printable(text, scored[i].score) {
          AddedAt(read, i);
          AddedAt(scored, i);
        }
      }
      if AllPrintable(scored, text) {
        assert forall i | 0 <= i < |scored| :: Printable(text, scored[i].score);
        assert read == scored;
      }
    } else {
      var i :| 0 <= i < |scored| && !text.parse(text.format(scored[i].score)).Some?;
      assert !Printable(text, scored[i].score);
    }
  }

  lemma {:induction false} AddedAt(scored: seq<Entry>, i: nat)
    requires forall i, j | 0 <= i < j < |scored| :: scored[i].member != scored[j].member
    requires i < |scored|
    ensures scored[i].member in AddAll(map[], scored) && AddAll(map[], scored)[scored[i].member] == scored[i].score
  {
    var n := |scored| - 1;
    if i < n {
      AddedAt(scored[..n], i);
      assert scored[..n][i].member != scored[n].member;
    }
  }

  lemma NoneLeft(fields: map<Bytes, Bytes>, scores: map<Bytes, real>, text: ScoreText)
    ensures FieldsOf([], fields) == fields && ScoresOf([], scores, text) == Some(scores)
  {
  }

  lemma TextReplays(e: SnapshotEntry, now: Instant, keys: Keys, t: Instant, text: ScoreText)
    requires WellFormed(e) && e.body.Text? && !Gone(e, now) && e.key !in keys
    ensures Execute(CommandsOf(e, now, text)[0], keys, t, text)
            == Some(keys[e.key := Held(ValueOf(e.body), Renewed(e, now, t))])
  {
    hide FormatInt, ParseInt, Span, Execute;
    var c := CommandsOf(e, now, text)[0];
    var args := if e.expiresAt > 0 then [e.body.data, PX, FormatInt(e.expiresAt - now)] else [e.body.data];
    if e.expiresAt > 0 {
      ParseFormat(e.expiresAt - now);
      assert args[1..] == [PX, args[2]] && Upper(PX) == PX != EX;
    }
    assert c == [SET, e.key] + args;
    Named(SET, e.key, args, keys, t, text);
  }

  lemma FieldsReplay(e: SnapshotEntry, now: Instant, keys: Keys, t: Instant, text: ScoreText)
    requires WellFormed(e) && e.body.Fields? && e.key !in keys
    ensures Execute(CommandsOf(e, now, text)[0], keys, t, text) == Some(keys[e.key := Held(ValueOf(e.body), 0)])
  {
    hide Execute, FlatFields, FieldsOf, MapOf;
    NoneLeft(MapOf(e.body.fields), map[], text);
    var args := FlatFields(e.body.fields);
    FieldsBack(e.body.fields, [], map[]);
    assert args == args + [];
    assert map[] + MapOf(e.body.fields) == MapOf(e.body.fields);
    Named(HSET, e.key, args, keys, t, text);
  }

  lemma ScoresReplay(e: SnapshotEntry, now: Instant, keys: Keys, t: Instant, text: ScoreText)
    requires WellFormed(e) && e.body.Scored? && e.key !in keys && AllPrintable(e.body.scored, text)
    ensures Execute(CommandsOf(e, now, text)[0], keys, t, text) == Some(keys[e.key := Held(ValueOf(e.body), 0)])
  {
    hide Execute, FlatScores, AllPrintable, ScoresOf, AddAll;
    NoneLeft(MapOf([]), AddAll(map[], e.body.scored), text);
    var args := FlatScores(e.body.scored, text);
    ScoresBack(e.body.scored, [], map[], text);
    assert args == args + [];
    assert map[] + AddAll(map[], e.body.scored) == AddAll(map[], e.body.scored);
    Named(ZADD, e.key, args, keys, t, text);
  }

  /** The scores of an entry can all be read off their texts. */
  ghost predicate Printed(e: SnapshotEntry, text: ScoreText) {
    e.body.Scored? ==> AllPrintable(e.body.scored, text)
  }

  /** One command, on a key that is not there yet. */
  lemma OneReplays(e: SnapshotEntry, now: Instant, keys: Keys, t: Instant, text: ScoreText)
    requires WellFormed(e) && !e.body.Records? && !Gone(e, now) && e.key !in keys && Printed(e, text)
    ensures |CommandsOf(e, now, text)| == 1
    ensures Execute(CommandsOf(e, now, text)[0], keys, t, text)
            == Some(keys[e.key := Held(ValueOf(e.body), Renewed(e, now, t))])
  {
    hide Execute, FlatFields, FlatScores, FormatInt, Duration, AllPrintable, MapOf, AddAll;
    match e.body
    case Text(_) => TextReplays(e, now, keys, t, text);
    case Items(items) =>
      Named(RPUSH, e.key, items, keys, t, text);
      assert [] + items == items;
    case Fields(_) => FieldsReplay(e, now, keys, t, text);
    case Members(members) =>
      Named(SADD, e.key, members, keys, t, text);
      assert {} + MembersOf(members) == MembersOf(members);
    case Scored(_) => ScoresReplay(e, now, keys, t, text);
  }

  /** The records of a stream, one command each. */
  lemma {:induction false} RecordsReplay(e: SnapshotEntry, now: Instant, done: seq<Command>, n: nat,
                                          start: Keys, keys: Keys, clock: nat -> Instant, text: ScoreText)
    requires WellFormed(e) && e.body.Records? && 1 <= n <= |e.body.records| && e.key !in keys
    requires Run(done, start, clock, text) == Some(keys)
    ensures Run(done + CommandsOf(e, now, text)[..n], start, clock, text)
            == Some(keys[e.key := Held(StreamOf(e.body.records[..n]), 0)])
    decreases n
  {
    hide Run, ParseId, IdText;
    var records, all := e.body.records, CommandsOf(e, now, text);
    var r := records[n - 1];
    IdRoundTrip(r.id);
    var before := all[..n - 1];
    assert all[..n] == before + [all[n - 1]];
    assert done + all[..n] == (done + before) + [RecordCommand(e.key, r)];
    var held := if n == 1 then keys else keys[e.key := Held(StreamOf(records[..n - 1]), 0)];
    assert Run(done + before, start, clock, text) == Some(held) by {
      if n == 1 {
        assert done + before == done;
      } else {
        RecordsReplay(e, now, done, n - 1, start, keys, clock, text);
      }
    }
    RunMore(done + before, RecordCommand(e.key, r), start, clock, text);
    RecordReplays(e, n, keys, held, clock(|done + before|), text);
  }

  lemma RecordReplays(e: SnapshotEntry, n: nat, keys: Keys, held: Keys, t: Instant, text: ScoreText)
    requires WellFormed(e) && e.body.Records? && 1 <= n <= |e.body.records| && e.key !in keys
    requires held == if n == 1 then keys else keys[e.key := Held(StreamOf(e.body.records[..n - 1]), 0)]
    ensures Execute(RecordCommand(e.key, e.body.records[n - 1]), held, t, text)
            == Some(keys[e.key := Held(StreamOf(e.body.records[..n]), 0)])
  {
    hide ParseId, IdText, Execute;
    var records := e.body.records;
    var r := records[n - 1];
    IdRoundTrip(r.id);
    var args := [IdText(r.id)] + r.values;
    assert RecordCommand(e.key, r) == [XADD, e.key] + args && args[1..] == r.values;
    Named(XADD, e.key, args, held, t, text);
    assert records[..n] == records[..n - 1] + [r];
    assert n > 1 ==> records[n - 2].id.Less(r.id);
    assert IdText(r.id) != STAR by { DashedText(r.id); }
    assert Grown(records[..n - 1], IdText(r.id), r.values, t) == Some(records[..n]);
    assert Found(held, e.key, StreamOf([])) == StreamOf(records[..n - 1]) && Deadline(held, e.key) == 0;
    assert held[e.key := Held(StreamOf(records[..n]), 0)] == keys[e.key := Held(StreamOf(records[..n]), 0)];
  }

  /** The commands of one entry rebuild its value. */
  lemma EntryReplays(e: SnapshotEntry, now: Instant, done: seq<Command>, start: Keys, keys: Keys, clock: nat -> Instant,
                     text: ScoreText)
    requires WellFormed(e) && e.key !in keys && Printed(e, text)
    requires Run(done, start, clock, text) == Some(keys)
    ensures Run(done + CommandsOf(e, now, text), start, clock, text) ==
            Some(if Gone(e, now) then keys
                 else keys[e.key := Held(ValueOf(e.body), Renewed(e, now, clock(|done|)))])
  {
    hide Run, Execute, AllPrintable;
    var commands := CommandsOf(e, now, text);
    if Gone(e, now) {
      assert done + commands == done;
    } else if e.body.Records? {
      var n := |e.body.records|;
      RecordsReplay(e, now, done, n, start, keys, clock, text);
      assert commands[..n] == commands && e.body.records[..n] == e.body.records;
    } else {
      OneReplays(e, now, keys, clock(|done|), text);
      assert commands == [commands[0]];
      RunMore(done, commands[0], start, clock, text);
    }
  }

  // ----- the rewrite -----

  lemma SameDistinct(a: seq<Pair>, b: seq<Pair>)
    requires multiset(a) == multiset(b) && Distinct(a)
    ensures Distinct(b)
  {
    SameMembers(a, b);
    forall i, j | 0 <= i < j < |a| ensures a[i] != a[j] {
      assert a[i].0 != a[j].0;
    }
    SameTwice(b, a);
    forall i, j | 0 <= i < j < |b| ensures b[i].0 != b[j].0 {
      assert b[i] in a && b[j] in a;
      var p :| 0 <= p < |a| && a[p] == b[i];
      var q :| 0 <= q < |a| && a[q] == b[j];
      assert p != q;
    }
  }

  lemma MapOfIn(fields: seq<Pair>, k: Bytes)
    requires Distinct(fields)
    ensures k in MapOf(fields) ==> (k, MapOf(fields)[k]) in fields
    ensures forall p | p in fields && p.0 == k :: k in MapOf(fields) && MapOf(fields)[k] == p.1
  {
    hide MapOf;
    MapOfHas(fields, k);
    if i :| 0 <= i < |fields| && fields[i].0 == k {
      MapOfAt(fields, i);
      assert fields[i] == (k, MapOf(fields)[k]);
      forall p | p in fields && p.0 == k ensures p == fields[i] {
        var j :| 0 <= j < |fields| && fields[j] == p;
        assert fields[j].0 == fields[i].0;
      }
    }
  }

  /** The order of its fields does not matter to a hash. */
  lemma SameFields(a: seq<Pair>, b: seq<Pair>)
    requires multiset(a) == multiset(b) && Distinct(a)
    ensures Distinct(b) && MapOf(a) == MapOf(b)
  {
    hide MapOf, Distinct;
    SameMembers(a, b);
    SameDistinct(a, b);
    forall k ensures k in MapOf(a) <==> k in MapOf(b)
             ensures k in MapOf(a) ==> MapOf(a)[k] == MapOf(b)[k]
    {
      MapOfIn(a, k);
      MapOfIn(b, k);
    }
  }

  /** The fields or members of an entry, sorted. */
  method Prepare(e: SnapshotEntry) returns (p: SnapshotEntry)
    ensures p.key == e.key && p.expiresAt == e.expiresAt && p.body.Text? == e.body.Text?
    ensures WellFormed(e) ==> WellFormed(p) && ValueOf(p.body) == ValueOf(e.body)
    ensures p.body.Scored? ==> p.body == e.body
  {
    hide MapOf, AddAll, SortedBy;
    p := e;
    match e.body {
      case Fields(fields) =>
        var sorted := SortBy(fields, (f: Pair) => f.0);
        SameMembers(fields, sorted);
        if Distinct(fields) {
          SameFields(fields, sorted);
        }
        p := e.(body := Fields(sorted));
      case Members(members) =>
        var sorted := SortBy(members, (m: Bytes) => m);
        SameMembers(members, sorted);
        p := e.(body := Members(sorted));
      case _ =>
    }
  }

  ghost function AllCommands(entries: seq<SnapshotEntry>, now: Instant, text: ScoreText): seq<Command>
  {
    if entries == [] then []
    else AllCommands(entries[..|entries| - 1], now, text) + CommandsOf(entries[|entries| - 1], now, text)
  }

  /** `prepared` are the entries with their fields and members in some order. */
  ghost predicate SameEntries(prepared: seq<SnapshotEntry>, entries: seq<SnapshotEntry>) {
    && |prepared| == |entries|
    && forall i | 0 <= i < |entries| ::
         && prepared[i].key == entries[i].key && prepared[i].expiresAt == entries[i].expiresAt
         && prepared[i].body.Text? == entries[i].body.Text?
         && (WellFormed(entries[i]) ==>
             WellFormed(prepared[i]) && ValueOf(prepared[i].body) == ValueOf(entries[i].body))
         && (prepared[i].body.Scored? ==> prepared[i].body == entries[i].body)
  }

  lemma SameEntriesNone(sorted: seq<SnapshotEntry>)
    ensures SameEntries([], sorted[..0])
  {
  }

  lemma SameEntriesMore(prepared: seq<SnapshotEntry>, sorted: seq<SnapshotEntry>, i: nat, p: SnapshotEntry)
    requires i < |sorted| && SameEntries(prepared, sorted[..i])
    requires p.key == sorted[i].key && p.expiresAt == sorted[i].expiresAt && p.body.Text? == sorted[i].body.Text?
    requires WellFormed(sorted[i]) ==> WellFormed(p) && ValueOf(p.body) == ValueOf(sorted[i].body)
    requires p.body.Scored? ==> p.body == sorted[i].body
    ensures SameEntries(prepared + [p], sorted[..i + 1])
  {
    hide WellFormed, ValueOf;
  }

  /** `GenerateRewrite` */
  method GenerateRewrite(entries: seq<SnapshotEntry>, now: Instant, text: ScoreText)
    returns (commands: seq<Command>, ghost sorted: seq<SnapshotEntry>, ghost prepared: seq<SnapshotEntry>)
    ensures multiset(sorted) == multiset(entries) && SortedBy(sorted, (e: SnapshotEntry) => e.key)
    ensures SameEntries(prepared, sorted)
    ensures commands == AllCommands(prepared, now, text)
  {
    hide WellFormed, ValueOf, CommandsOf, LexLess, SameEntries, SortedBy;
    var order := SortBy(entries, (e: SnapshotEntry) => e.key);
    sorted := order;
    SameMembers(entries, sorted);
    commands, prepared := [], [];
    SameEntriesNone(sorted);
    for i := 0 to |order|
      invariant |prepared| == i && SameEntries(prepared, sorted[..i])
      invariant commands == AllCommands(prepared, now, text)
    {
      var p := Prepare(order[i]);
      assert order[i] == sorted[i];
      SameEntriesMore(prepared, sorted, i, p);
      assert (prepared + [p])[..i] == prepared;
      prepared := prepared + [p];
      commands := commands + CommandsOf(p, now, text);
    }
    assert sorted[..|sorted|] == sorted;
  }

  // ----- the rewritten file, replayed -----

  /** The keyspace holds the entry's value, its time to live counted from a moment between `t0` and `t1`. */
  ghost predicate Holds(keys: Keys, e: SnapshotEntry, now: Instant, t0: int, t1: int) {
    && e.key in keys && keys[e.key].value == ValueOf(e.body)
    && (if e.body.Text? && e.expiresAt > 0
        then t0 <= keys[e.key].deadline - Duration(e.expiresAt - now) <= t1
        else keys[e.key].deadline == 0)
  }

  /** The keyspace is what the entries describe, apart from strings out of date at the rewrite. */
  ghost predicate Restored(keys: Keys, entries: seq<SnapshotEntry>, now: Instant, t0: int, t1: int) {
    && (forall i | 0 <= i < |entries| && !Gone(entries[i], now) :: Holds(keys, entries[i], now, t0, t1))
    && (forall k | k in keys :: exists i | 0 <= i < |entries| :: entries[i].key == k && !Gone(entries[i], now))
  }

  /** Entries with different keys, each well formed and with scores that can be read off their texts. */
  ghost predicate AllWell(entries: seq<SnapshotEntry>, text: ScoreText) {
    && DistinctKeys(entries)
    && forall i | 0 <= i < |entries| :: WellFormed(entries[i]) && Printed(entries[i], text)
  }

  /** Replaying a rewritten file on an empty store rebuilds the keyspace it was made from. */
  lemma {:induction false} RewriteRestores(entries: seq<SnapshotEntry>, now: Instant, clock: nat -> Instant,
                                            t0: int, t1: int, text: ScoreText)
    requires AllWell(entries, text) && Runs(clock, t0, t1)
    ensures
      var r := Run(AllCommands(entries, now, text), map[], clock, text);
      r.Some? && Restored(r.value, entries, now, t0, t1)
    decreases |entries|
  {
    hide WellFormed, ValueOf, CommandsOf, Run, Duration, Printed;
    if entries == [] {
      RunNone(map[], clock, text);
    } else {
      var n := |entries| - 1;
      var e, done := entries[n], AllCommands(entries[..n], now, text);
      RewriteRestores(entries[..n], now, clock, t0, t1, text);
      var keys := Run(done, map[], clock, text).value;
      assert e.key !in keys;
      EntryReplays(e, now, done, map[], keys, clock, text);
      assert t0 <= clock(|done|) <= t1;
      RestoredMore(keys, entries, now, t0, t1, clock(|done|));
    }
  }

  lemma RunNone(keys: Keys, clock: nat -> Instant, text: ScoreText)
    ensures Run([], keys, clock, text) == Some(keys)
  {
  }

  lemma RestoredMore(keys: Keys, entries: seq<SnapshotEntry>, now: Instant, t0: int, t1: int, t: int)
    requires entries != [] && DistinctKeys(entries) && t0 <= t <= t1
    requires Restored(keys, entries[..|entries| - 1], now, t0, t1)
    ensures
      var e := entries[|entries| - 1];
      var next := if Gone(e, now) then keys else keys[e.key := Held(ValueOf(e.body), Renewed(e, now, t))];
      Restored(next, entries, now, t0, t1)
  {
    hide ValueOf, Duration;
    var n := |entries| - 1;
    var e := entries[n];
    var next := if Gone(e, now) then keys else keys[e.key := Held(ValueOf(e.body), Renewed(e, now, t))];
    forall i | 0 <= i < |entries| && !Gone(entries[i], now) ensures Holds(next, entries[i], now, t0, t1) {
      if i < n {
        assert Holds(keys, entries[..n][i], now, t0, t1);
        assert entries[i].key != e.key;
      }
    }
    forall k | k in next ensures exists i | 0 <= i < |entries| :: entries[i].key == k && !Gone(entries[i], now) {
      if k in keys {
        var i :| 0 <= i < n && entries[..n][i].key == k && !Gone(entries[..n][i], now);
        assert entries[i].key == k && !Gone(entries[i], now);
      }
    }
  }

  // ----- through the file -----

  /** A command whose frame a parser accepts: the limits on elements and on bulk strings. */
  ghost predicate Loadable(c: Command) {
    |c| <= AofLoader.MAX_ELEMENTS && forall i | 0 <= i < |c| :: |c[i]| <= AofLoader.MAX_BULK
  }

  function Frames(commands: seq<Command>): seq<Value>
    requires forall i | 0 <= i < |commands| :: commands[i] != []
  {
    seq(|commands|, i requires 0 <= i < |commands| => Frame(commands[i]))
  }

  lemma FrameStorable(c: Command)
    requires c != [] && Loadable(c)
    ensures AofLoader.Storable(Frame(c), 0)
  {
  }

  /** The keyspace, and how many commands it has seen. */
  datatype Progress = Progress(keys: Keys, count: nat)

  const START := Progress(map[], 0)

  /** The executor the loader is given. */
  function Executor(clock: nat -> Instant, text: ScoreText): (Progress, Value) -> Option<Progress> {
    (p: Progress, v: Value) => Performed(p, v, clock, text)
  }

  function Performed(p: Progress, v: Value, clock: nat -> Instant, text: ScoreText): Option<Progress> {
    match Request(v)
    case None => None
    case Some(c) =>
      match Execute(c, p.keys, clock(p.count), text)
      case None => None
      case Some(keys) => Some(Progress(keys, p.count + 1))
  }

  /** Replaying the frames of commands is running the commands. */
  lemma {:induction false} FramesRun(commands: seq<Command>, clock: nat -> Instant, text: ScoreText)
    requires forall i | 0 <= i < |commands| :: commands[i] != []
    requires Run(commands, map[], clock, text).Some?
    ensures AofLoader.ReplayAll(NormalAll(Frames(commands)), START, Executor(clock, text)) ==
            Some(Progress(Run(commands, map[], clock, text).value, |commands|))
    decreases |commands|
  {
    hide Execute, Frame, Normal, Request;
    var values := NormalAll(Frames(commands));
    if commands != [] {
      var n := |commands| - 1;
      FramesRun(commands[..n], clock, text);
      assert Frames(commands)[..n] == Frames(commands[..n]);
      FrameCarries(commands[n]);
      AofLoader.ReplayMore(NormalAll(Frames(commands[..n])), Normal(Frame(commands[n])), START, Executor(clock, text));
    }
  }

  /** A file of frames of commands that run without a refusal loads to what the commands leave. */
  lemma FileRuns(commands: seq<Command>, clock: nat -> Instant, text: ScoreText)
    requires forall i | 0 <= i < |commands| :: commands[i] != [] && Loadable(commands[i])
    requires Run(commands, map[], clock, text).Some?
    ensures
      var r := AofLoader.Load(EncodeAll(Frames(commands)), START, Executor(clock, text));
      r.outcome.Loaded? && r.state == Progress(Run(commands, map[], clock, text).value, |commands|)
  {
    hide AofLoader.Storable, AofLoader.Load, EncodeAll, Frame, Request, Run, Execute, AofLoader.ReplayAll;
    var frames := Frames(commands);
    forall v | v in frames ensures AofLoader.Storable(v, 0) {
      var i :| 0 <= i < |frames| && frames[i] == v;
      FrameStorable(commands[i]);
    }
    var all := EncodeAll(frames);
    FramesRun(commands, clock, text);
    AllWhole(frames);
    assert frames[..|frames|] == frames;
    AofLoader.PrefixLoads(frames, |all|, START, Executor(clock, text));
    assert all[..|all|] == all;
  }

  /** Lengths that fit a machine word. */
  ghost predicate Countable(c: Command) {
    |c| <= MAX_INT && forall i | 0 <= i < |c| :: |c[i]| <= MAX_INT
  }

  /** A command over the limits is written all the same, and refused when the file is read. */
  lemma FrameRefused(c: Command, rest: Bytes)
    requires c != [] && !Loadable(c) && Countable(c)
    ensures
      var r := AofLoader.Parse(Encode(Frame(c)) + rest, 0);
      r.Refused? && !AofLoader.TornTerminator(r.error)
  {
    hide AofLoader.Parse, Encode;
    var elements := Frame(c).elements;
    if |c| > AofLoader.MAX_ELEMENTS {
      AofLoader.ArrayRefused(elements, rest);
    } else {
      var j := FirstTooLong(c, 0);
      BulkInFrame(c, rest, j);
      ArrayRefusedAt(elements, rest, j, Decoder.BulkTooLong(|c[j]|));
    }
  }

  lemma {:induction false} FirstTooLong(c: Command, i: nat) returns (j: nat)
    requires i <= |c| && forall k | 0 <= k < i :: |c[k]| <= AofLoader.MAX_BULK
    requires exists k :: 0 <= k < |c| && |c[k]| > AofLoader.MAX_BULK
    ensures j < |c| && |c[j]| > AofLoader.MAX_BULK && forall k | 0 <= k < j :: |c[k]| <= AofLoader.MAX_BULK
    decreases |c| - i
  {
    if |c[i]| > AofLoader.MAX_BULK {
      return i;
    }
    j := FirstTooLong(c, i + 1);
  }

  lemma BulkInFrame(c: Command, rest: Bytes, j: nat)
    requires c != [] && Countable(c) && j < |c| && |c[j]| > AofLoader.MAX_BULK
    ensures
      var elements := Frame(c).elements;
      AofLoader.Parse(Encode(elements[j]) + (EncodeAll(elements[j + 1..]) + rest), 1) ==
      AofLoader.Refused(Decoder.BulkTooLong(|c[j]|))
  {
    hide AofLoader.Parse, FormatInt, EncodeAll;
    AofLoader.BulkRefused(c[j], EncodeAll(Frame(c).elements[j + 1..]) + rest, 1);
  }

  lemma ArrayRefusedAt(elements: seq<Value>, rest: Bytes, j: nat, e: Decoder.Failure)
    requires j < |elements| <= AofLoader.MAX_ELEMENTS && forall k | 0 <= k < j :: AofLoader.Storable(elements[k], 1)
    requires AofLoader.Parse(Encode(elements[j]) + (EncodeAll(elements[j + 1..]) + rest), 1) == AofLoader.Refused(e)
    ensures AofLoader.Parse(Encode(Array(elements)) + rest, 0) == AofLoader.Refused(Decoder.Element(j, e))
  {
    hide FormatInt, ParseInt, AofLoader.ReadLine, EncodeAll, AofLoader.ParseElements, AofLoader.Storable;
    var header := [42] + FormatInt(|elements|) + CRLF;
    var buf := Encode(Array(elements)) + rest;
    AofLoader.NumberRead(42, |elements|, EncodeAll(elements) + rest);
    assert buf == header + (EncodeAll(elements) + rest);
    assert buf == header + EncodeAll(elements) + rest;
    Decoder.NothingEncoded();
    AofLoader.ElementRefused(buf, header, elements, rest, 0, j, e);
  }

  /** A file with a command over the limits cannot be loaded, whatever the executor. */
  lemma {:induction false} FileRefused<S>(commands: seq<Command>, state: S, replay: (S, Value) -> Option<S>)
    requires forall i | 0 <= i < |commands| :: commands[i] != [] && Countable(commands[i])
    requires exists i :: 0 <= i < |commands| && !Loadable(commands[i])
    ensures !AofLoader.Load(EncodeAll(Frames(commands)), state, replay).outcome.Loaded?
    decreases |commands|
  {
    hide AofLoader.Parse, Encode, EncodeAll, Frame, Loadable, Countable;
    var frames := Frames(commands);
    var file, tail := EncodeAll(frames), EncodeAll(frames[1..]);
    Decoder.EncodeAllHead(frames);
    if Loadable(commands[0]) {
      FrameStorable(commands[0]);
      AofLoader.ReadBack(frames[0], tail, 0);
      assert file[|Encode(frames[0])|..] == tail;
      assert frames[1..] == Frames(commands[1..]);
      var i :| 0 <= i < |commands| && !Loadable(commands[i]);
      assert commands[1..][i - 1] == commands[i];
      match replay(state, Normal(frames[0]))
      case None =>
      case Some(next) => FileRefused(commands[1..], next, replay);
    } else {
      FrameRefused(commands[0], tail);
    }
  }

  lemma {:induction false} AllWhole(vs: seq<Value>)
    ensures AofLoader.Whole(vs, |EncodeAll(vs)|) == |vs|
    decreases |vs|
  {
    if vs != [] {
      hide Encode;
      Decoder.EncodeAllHead(vs);
      AllWhole(vs[1..]);
    }
  }

  // ----- from the snapshot through the file to the keyspace -----

  lemma PreparedRestores(keys: Keys, prepared: seq<SnapshotEntry>, entries: seq<SnapshotEntry>, now: Instant,
                         t0: int, t1: int)
    requires SameEntries(prepared, entries) && forall i | 0 <= i < |entries| :: WellFormed(entries[i])
    requires Restored(keys, prepared, now, t0, t1)
    ensures Restored(keys, entries, now, t0, t1)
  {
    hide WellFormed, ValueOf, Duration;
    forall i | 0 <= i < |entries| && !Gone(entries[i], now) ensures Holds(keys, entries[i], now, t0, t1) {
      assert Holds(keys, prepared[i], now, t0, t1);
    }
    forall k | k in keys ensures exists i | 0 <= i < |entries| :: entries[i].key == k && !Gone(entries[i], now) {
      var i :| 0 <= i < |prepared| && prepared[i].key == k && !Gone(prepared[i], now);
      assert entries[i].key == k && !Gone(entries[i], now);
    }
  }

  /** The order of the entries does not matter either. */
  lemma SortedRestores(keys: Keys, sorted: seq<SnapshotEntry>, entries: seq<SnapshotEntry>, now: Instant,
                       t0: int, t1: int)
    requires multiset(sorted) == multiset(entries) && Restored(keys, sorted, now, t0, t1)
    ensures Restored(keys, entries, now, t0, t1)
  {
    hide Holds, Gone;
    SameMembers(sorted, entries);
    forall i | 0 <= i < |entries| && !Gone(entries[i], now) ensures Holds(keys, entries[i], now, t0, t1) {
      assert entries[i] in sorted;
      var j :| 0 <= j < |sorted| && sorted[j] == entries[i];
    }
    forall k | k in keys ensures exists i | 0 <= i < |entries| :: entries[i].key == k && !Gone(entries[i], now) {
      var j :| 0 <= j < |sorted| && sorted[j].key == k && !Gone(sorted[j], now);
      assert sorted[j] in entries;
      var i :| 0 <= i < |entries| && entries[i] == sorted[j];
    }
  }

  lemma SortedWell(sorted: seq<SnapshotEntry>, entries: seq<SnapshotEntry>, text: ScoreText)
    requires multiset(sorted) == multiset(entries) && AllWell(entries, text)
    ensures AllWell(sorted, text)
  {
    hide WellFormed, Printed;
    SameMembers(sorted, entries);
    forall i, j | 0 <= i < j < |entries| ensures entries[i] != entries[j] {
      assert entries[i].key != entries[j].key;
    }
    SameTwice(sorted, entries);
    forall i | 0 <= i < |sorted| ensures WellFormed(sorted[i]) && Printed(sorted[i], text) {
      assert sorted[i] in entries;
    }
    forall i, j | 0 <= i < j < |sorted| ensures sorted[i].key != sorted[j].key {
      assert sorted[i] in entries && sorted[j] in entries;
      var p :| 0 <= p < |entries| && entries[p] == sorted[i];
      var q :| 0 <= q < |entries| && entries[q] == sorted[j];
      assert p != q;
    }
  }

  lemma {:induction false} CommandsNamed(entries: seq<SnapshotEntry>, now: Instant, text: ScoreText)
    ensures forall i | 0 <= i < |AllCommands(entries, now, text)| :: AllCommands(entries, now, text)[i] != []
  {
    if entries != [] {
      var n := |entries| - 1;
      CommandsNamed(entries[..n], now, text);
      CommandNamed(entries[n], now, text);
      hide CommandsOf;
    }
  }

  lemma CommandNamed(e: SnapshotEntry, now: Instant, text: ScoreText)
    ensures forall i | 0 <= i < |CommandsOf(e, now, text)| :: CommandsOf(e, now, text)[i] != []
  {
    hide FlatFields, FlatScores, FormatInt, IdText;
  }

  /**
   A snapshot rewritten to a file and the file loaded into an empty store: the keyspace
   is the one the snapshot was taken of. The file loads exactly when every command is
   within the limits of the parser, which the rewrite does not look at.
   */
  method RewriteAndLoad(entries: seq<SnapshotEntry>, now: Instant, ghost clock: nat -> Instant,
                        ghost t0: int, ghost t1: int, text: ScoreText)
    returns (commands: seq<Command>)
    requires Runs(clock, t0, t1)
    ensures forall i | 0 <= i < |commands| :: commands[i] != []
    ensures AllWell(entries, text) && (forall i | 0 <= i < |commands| :: Countable(commands[i])) ==>
              var r := AofLoader.Load(EncodeAll(Frames(commands)), START, Executor(clock, text));
              && (r.outcome.Loaded? <==> forall i | 0 <= i < |commands| :: Loadable(commands[i]))
              && (r.outcome.Loaded? ==> Restored(r.state.keys, entries, now, t0, t1))
  {
    hide AllWell, ValueOf, CommandsOf, Run, AllCommands, Restored, Request, Frame, EncodeAll;
    hide AofLoader.Load;
    hide SortedBy, SameEntries, Execute, Loadable;
    ghost var sorted, prepared;
    commands, sorted, prepared := GenerateRewrite(entries, now, text);
    CommandsNamed(prepared, now, text);
    if AllWell(entries, text) && forall i | 0 <= i < |commands| :: Countable(commands[i]) {
      CommandsRestore(entries, sorted, prepared, commands, now, clock, t0, t1, text);
      if forall i | 0 <= i < |commands| :: Loadable(commands[i]) {
        FileRuns(commands, clock, text);
      } else {
        FileRefused(commands, START, Executor(clock, text));
      }
    }
  }

  /** The commands of a rewrite restore the entries it was given, in whatever order. */
  lemma CommandsRestore(entries: seq<SnapshotEntry>, sorted: seq<SnapshotEntry>, prepared: seq<SnapshotEntry>,
                        commands: seq<Command>, now: Instant, clock: nat -> Instant, t0: int, t1: int, text: ScoreText)
    requires AllWell(entries, text) && multiset(sorted) == multiset(entries) && SameEntries(prepared, sorted)
    requires commands == AllCommands(prepared, now, text) && Runs(clock, t0, t1)
    ensures
      var r := Run(commands, map[], clock, text);
      r.Some? && Restored(r.value, entries, now, t0, t1)
  {
    hide WellFormed, Printed, ValueOf, Run, AllCommands, Restored, SameEntries, DistinctKeys;
    SortedWell(sorted, entries, text);
    PreparedWell(prepared, sorted, text);
    RewriteRestores(prepared, now, clock, t0, t1, text);
    PreparedRestores(Run(commands, map[], clock, text).value, prepared, sorted, now, t0, t1);
    SortedRestores(Run(commands, map[], clock, text).value, sorted, entries, now, t0, t1);
  }

  lemma PreparedWell(prepared: seq<SnapshotEntry>, sorted: seq<SnapshotEntry>, text: ScoreText)
    requires SameEntries(prepared, sorted) && AllWell(sorted, text)
    ensures AllWell(prepared, text)
  {
    hide WellFormed, ValueOf, AllPrintable;
    assert forall i | 0 <= i < |sorted| :: WellFormed(sorted[i]) && Printed(sorted[i], text);
  }
}
