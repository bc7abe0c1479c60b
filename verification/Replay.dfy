/**
 What the commands of a rewritten append-only file do to the keyspace: SET, RPUSH,
 HSET, SADD, ZADD and XADD on logical values (internal/command/commands.go,
 internal/storage/store.go).
 */
module Replaying {
  import opened Options
  import opened Order
  import opened Decimal
  import opened Resp
  import opened Streams
  import opened Payloads

  /** A logical value, whatever its encoding. */
  datatype Val =
    | TextOf(data: Bytes)
    | ListOf(items: seq<Bytes>)
    | HashOf(fields: map<Bytes, Bytes>)
    | SetOf(members: set<Bytes>)
    | ZSetOf(scores: map<Bytes, real>)
    | StreamOf(entries: seq<StreamEntry>)

  /** A value with its deadline, 0 for none. */
  datatype Held = Held(value: Val, deadline: int)

  type Keys = map<Bytes, Held>

  /** The text of a score and its reading (`strconv.FormatFloat` and `ParseFloat`). */
  datatype ScoreText = ScoreText(format: real -> Bytes, parse: Bytes -> Option<real>)

  /** The text of a score is read as the score. */
  predicate Printable(text: ScoreText, score: real) {
    text.parse(text.format(score)) == Some(score)
  }

  ghost predicate AllPrintable(scored: seq<Entry>, text: ScoreText) {
    forall i | 0 <= i < |scored| :: Printable(text, scored[i].score)
  }

  /** A request: a command's name and its arguments. */
  type Command = seq<Bytes>

  const SET: Bytes := [83, 69, 84]
  const RPUSH: Bytes := [82, 80, 85, 83, 72]
  const HSET: Bytes := [72, 83, 69, 84]
  const SADD: Bytes := [83, 65, 68, 68]
  const ZADD: Bytes := [90, 65, 68, 68]
  const XADD: Bytes := [88, 65, 68, 68]
  const EX: Bytes := [69, 88]
  const PX: Bytes := [80, 88]
  const PXAT: Bytes := [80, 88, 65, 84]

  /** A product in 64 bits. */
  function Wrap64(n: int): int64 {
    (n + MAX_ABS) % (2 * MAX_ABS) - MAX_ABS
  }

  /** A millisecond and a second in nanoseconds. */
  const NANOS: int := 1_000_000
  const SECOND: int := 1_000_000_000

  /** A time of so many units after it has gone through a duration in nanoseconds, in milliseconds. */
  function Span(count: int, unit: int): (millis: int)
    ensures -9_223_372_036_855 <= millis <= 9_223_372_036_854
  {
    Wrap64(count * unit) / NANOS
  }

  function Duration(millis: int): int {
    Span(millis, NANOS)
  }

  /** Whole milliseconds come out unchanged exactly when the nanoseconds fit 64 bits: for the next 292 years. */
  lemma {:induction false} SpanExactly(count: nat, unit: int, millis: nat)
    requires count * unit == millis * NANOS
    ensures Span(count, unit) == millis <==> millis * NANOS <= MAX_INT
  {
    var n := millis * NANOS;
    if n <= MAX_INT {
      assert (n + MAX_ABS) % (2 * MAX_ABS) == n + MAX_ABS;
      assert n / NANOS == millis;
    } else {
      assert Wrap64(n) <= MAX_INT < n;
      assert Wrap64(n) / NANOS <= MAX_INT / NANOS;
      assert MAX_INT / NANOS < millis;
    }
  }

  lemma DurationExactly(millis: nat)
    ensures Duration(millis) == millis <==> millis * NANOS <= MAX_INT
  {
    SpanExactly(millis, NANOS, millis);
  }

  /** A time to live of some three hundred years does not come out. */
  lemma LongLifeWraps()
    ensures Duration(10_000_000_000_000) != 10_000_000_000_000
  {
    DurationExactly(10_000_000_000_000);
  }

  // ----- arguments -----

  function FieldsOf(args: seq<Bytes>, fields: map<Bytes, Bytes>): map<Bytes, Bytes>
    decreases |args|
  {
    if |args| < 2 then fields else FieldsOf(args[2..], fields[args[0] := args[1]])
  }

  function MembersOf(args: seq<Bytes>): set<Bytes> {
    set m | m in args
  }

  /** The scores and members of a ZADD, or nothing if one of the scores cannot be read. */
  function ScoresOf(args: seq<Bytes>, scores: map<Bytes, real>, text: ScoreText): Option<map<Bytes, real>>
    decreases |args|
  {
    if |args| < 2 then Some(scores)
    else
      match text.parse(args[0])
      case None => None
      case Some(score) => ScoresOf(args[2..], scores[args[1] := score], text)
  }

  /** An entry added under an ID (`add`). */
  function Grown(entries: seq<StreamEntry>, rawId: Bytes, values: seq<Bytes>, now: Instant): Option<seq<StreamEntry>> {
    match Admitted(entries, rawId, now)
    case Added(id) => Some(entries + [StreamEntry(id, values)])
    case _ => None
  }

  function Upper(text: Bytes): (upper: Bytes)
    ensures |upper| == |text| && forall i | 0 <= i < |text| :: upper[i] < 97 || upper[i] > 122
    ensures forall i | 0 <= i < |text| :: upper[i] == text[i] || (65 <= upper[i] <= 90 && text[i] == upper[i] + 32)
  {
    seq(|text|, i requires 0 <= i < |text| => if 97 <= text[i] <= 122 then text[i] - 32 else text[i])
  }

  /** `ParseExpiryMillis`: the deadline that the options of a SET ask for, 0 for none. */
  function Expiry(options: seq<Bytes>, now: Instant): Option<int64> {
    if options == [] then Some(0)
    else if |options| != 2 then None
    else
      var number := ParseInt(options[1]);
      if number.Err? || number.value <= 0 then None
      else
        var unit := Upper(options[0]);
        if unit == EX then Some(now + Span(number.value, SECOND))
        else if unit == PX then Some(now + Span(number.value, NANOS))
        else if unit == PXAT then Some(number.value)
        else None
  }

  /** A number and a unit with which a SET sets a deadline. */
  ghost predicate Asks(options: seq<Bytes>, unit: Bytes, n: int) {
    |options| == 2 && Denotes(options[1], n) && n > 0 && Upper(options[0]) == unit
  }

  /** EX is so many seconds from now and PX so many milliseconds, where these fit; PXAT is a moment. */
  lemma ExpiryMeans(options: seq<Bytes>, n: int, now: Instant)
    ensures Asks(options, EX, n) ==> (Expiry(options, now) == Some(now + n * 1000) <==> n * SECOND <= MAX_INT)
    ensures Asks(options, PX, n) ==> (Expiry(options, now) == Some(now + n) <==> n * NANOS <= MAX_INT)
    ensures Asks(options, PXAT, n) ==> Expiry(options, now) == Some(n)
  {
    hide ParseInt, Denotes, Span, Upper;
    assert EX[0] == 69 && PX[0] == 80 && |PX| == 2 && |PXAT| == 4;
    if |options| == 2 && Denotes(options[1], n) && n > 0 {
      DenotesInt(options[1], n);
      ParseIntMeaning(options[1], n);
      SpanExactly(n, SECOND, n * 1000);
      SpanExactly(n, NANOS, n);
    }
  }

  lemma DenotesInt(text: Bytes, n: int)
    requires Denotes(text, n)
    ensures -MAX_ABS <= n <= MAX_INT
  {
  }

  /** Everything else is refused, except that there need not be a deadline. */
  lemma ExpiryRefuses(options: seq<Bytes>, now: Instant)
    ensures Expiry(options, now) == None <==>
              options != [] && forall n :: !Asks(options, EX, n) && !Asks(options, PX, n) && !Asks(options, PXAT, n)
    ensures options == [] ==> Expiry(options, now) == Some(0)
  {
    hide ParseInt, Denotes, Span, Upper;
    if |options| == 2 {
      forall n: int64 {
        ParseIntMeaning(options[1], n);
      }
      forall n | Denotes(options[1], n) ensures ParseInt(options[1]).Ok? && ParseInt(options[1]).value == n {
        DenotesInt(options[1], n);
        ParseIntMeaning(options[1], n);
      }
      if Expiry(options, now).Some? {
        var n := ParseInt(options[1]).value;
        assert Denotes(options[1], n);
        assert Asks(options, EX, n) || Asks(options, PX, n) || Asks(options, PXAT, n);
      }
    }
  }

  // ----- commands -----

  /** The keyspace without the value under a key, if that is out of date. */
  function Due(keys: Keys, key: Bytes, now: int): Keys {
    if key in keys && 0 < keys[key].deadline < now then keys - {key} else keys
  }

  function Deadline(keys: Keys, key: Bytes): int {
    if key in keys then keys[key].deadline else 0
  }

  /** The value a command of another kind would find, or the empty one of its own kind. */
  function Found(keys: Keys, key: Bytes, empty: Val): Val {
    if key in keys then keys[key].value else empty
  }

  function DoSet(key: Bytes, args: seq<Bytes>, keys: Keys, now: Instant): Option<Keys>
    requires args != []
  {
    match Expiry(args[1..], now)
    case None => None
    case Some(deadline) => Some(keys[key := Held(TextOf(args[0]), deadline)])
  }

  function DoPush(key: Bytes, args: seq<Bytes>, keys: Keys): Option<Keys> {
    match Found(keys, key, ListOf([]))
    case ListOf(items) => Some(keys[key := Held(ListOf(items + args), Deadline(keys, key))])
    case _ => None
  }

  function DoHash(key: Bytes, args: seq<Bytes>, keys: Keys): Option<Keys> {
    match Found(keys, key, HashOf(map[]))
    case HashOf(fields) =>
      if |args| % 2 != 0 then None
      else Some(keys[key := Held(HashOf(FieldsOf(args, fields)), Deadline(keys, key))])
    case _ => None
  }

  function DoMembers(key: Bytes, args: seq<Bytes>, keys: Keys): Option<Keys> {
    match Found(keys, key, SetOf({}))
    case SetOf(members) => Some(keys[key := Held(SetOf(members + MembersOf(args)), Deadline(keys, key))])
    case _ => None
  }

  function DoScores(key: Bytes, args: seq<Bytes>, keys: Keys, text: ScoreText): Option<Keys> {
    match Found(keys, key, ZSetOf(map[]))
    case ZSetOf(scores) =>
      if |args| % 2 != 0 then None
      else
        (match ScoresOf(args, scores, text)
         case None => None
         case Some(now) => Some(keys[key := Held(ZSetOf(now), Deadline(keys, key))]))
    case _ => None
  }

  function DoRecord(key: Bytes, args: seq<Bytes>, keys: Keys, now: Instant): Option<Keys>
    requires args != []
  {
    match Found(keys, key, StreamOf([]))
    case StreamOf(entries) =>
      if |args| < 3 || |args| % 2 == 0 then None
      else
        (match Grown(entries, args[0], args[1..], now)
         case None => None
         case Some(grown) => Some(keys[key := Held(StreamOf(grown), Deadline(keys, key))]))
    case _ => None
  }

  /** What a command leaves at time `now`; nothing if it is refused. */
  function Execute(c: Command, before: Keys, now: Instant, text: ScoreText): Option<Keys> {
    if |c| < 3 then None
    else
      var name, key, args := c[0], c[1], c[2..];
      var keys := Due(before, key, now);
      if name == SET then DoSet(key, args, keys, now)
      else if name == RPUSH then DoPush(key, args, keys)
      else if name == HSET then DoHash(key, args, keys)
      else if name == SADD then DoMembers(key, args, keys)
      else if name == ZADD then DoScores(key, args, keys, text)
      else if name == XADD then DoRecord(key, args, keys, now)
      else None
  }

  lemma Named(name: Bytes, key: Bytes, args: seq<Bytes>, keys: Keys, now: Instant, text: ScoreText)
    requires args != [] && Due(keys, key, now) == keys
    ensures name == SET ==> Execute([name, key] + args, keys, now, text) == DoSet(key, args, keys, now)
    ensures name == RPUSH ==> Execute([name, key] + args, keys, now, text) == DoPush(key, args, keys)
    ensures name == HSET ==> Execute([name, key] + args, keys, now, text) == DoHash(key, args, keys)
    ensures name == SADD ==> Execute([name, key] + args, keys, now, text) == DoMembers(key, args, keys)
    ensures name == ZADD ==> Execute([name, key] + args, keys, now, text) == DoScores(key, args, keys, text)
    ensures name == XADD ==> Execute([name, key] + args, keys, now, text) == DoRecord(key, args, keys, now)
  {
    hide DoSet, DoPush, DoHash, DoMembers, DoScores, DoRecord;
    var c := [name, key] + args;
    assert c[2..] == args;
    assert SET[0] == 83 && |SET| == 3 && |RPUSH| == 5 && |HSET| == 4 && |SADD| == 4 && |ZADD| == 4 && |XADD| == 4;
    assert HSET[0] == 72 && SADD[0] == 83 && ZADD[0] == 90 && XADD[0] == 88;
  }

  /** A run of commands, the i-th at `clock(i)`. */
  ghost function Run(commands: seq<Command>, keys: Keys, clock: nat -> Instant, text: ScoreText): Option<Keys> {
    if commands == [] then Some(keys)
    else
      var n := |commands| - 1;
      match Run(commands[..n], keys, clock, text)
      case None => None
      case Some(k) => Execute(commands[n], k, clock(n), text)
  }

  lemma RunMore(commands: seq<Command>, c: Command, keys: Keys, clock: nat -> Instant, text: ScoreText)
    ensures Run(commands + [c], keys, clock, text) ==
            match Run(commands, keys, clock, text)
            case None => None
            case Some(k) => Execute(c, k, clock(|commands|), text)
  {
    assert (commands + [c])[..|commands|] == commands;
  }

  // ----- frames -----

  /** `rewriteCommand` */
  function Frame(c: Command): Value
    requires c != []
  {
    Array([TextBulk(c[0])] + seq(|c| - 1, i requires 0 <= i < |c| - 1 => Bulk(c[i + 1])))
  }

  /** The request a frame carries, as the executor reads it. */
  function Request(v: Value): Option<Command> {
    if v.Array? && (forall i | 0 <= i < |v.elements| :: v.elements[i].Bulk? || v.elements[i].TextBulk?)
    then Some(seq(|v.elements|, i requires 0 <= i < |v.elements| => v.elements[i].data))
    else None
  }

  /** A command is read off its frame, also as a parser gives it. */
  lemma FrameCarries(c: Command)
    requires c != []
    ensures Request(Frame(c)) == Some(c) && Request(Normal(Frame(c))) == Some(c)
  {
    var f := Frame(c);
    forall i | 0 <= i < |f.elements| {
      NormalAllAt(f.elements, i);
    }
    hide NormalAll;
    var g := Normal(f);
    assert |g.elements| == |c|;
    forall i | 0 <= i < |c| ensures f.elements[i].data == c[i] && g.elements[i] == Bulk(c[i]) {
    }
    assert Request(f).value == c && Request(g).value == c;
  }
}
