/**
 The write commands that make a value from the one they find: INCR, SETBIT, HSET,
 SADD, ZADD, XADD and PFADD (internal/storage/store.go, bitmap.go, hash.go, set.go,
 hyperloglog.go).
 */
module Changes {
  import opened Options
  import opened Order
  import Decimal
  import opened Streams
  import opened Keyspace
  import opened CompactHashes
  import opened ZSetSpec
  import opened Payloads
  import opened Bitmaps
  import HyperLogLogs

  datatype Change =
    | Incr
    | SetBit(offset: int, bit: int)
    | HSet(pairs: seq<Pair>)
    | SAdd(members: seq<Bytes>)
    | ZAdd(batch: seq<Entry>)
    | XAdd(rawId: Bytes, values: seq<Bytes>)
    | PfAdd(sums: seq<HyperLogLogs.Hash>)

  /** The check of the arguments, before the key is looked at. */
  function Checked(change: Change): Outcome<()> {
    match change
    case Incr => Done(())
    case SetBit(offset, bit) =>
      if 0 <= offset <= MAX_BIT_OFFSET && (bit == 0 || bit == 1) then Done(()) else NotInteger
    case HSet(pairs) => if pairs == [] then Syntax else Done(())
    case SAdd(members) => if members == [] then Syntax else Done(())
    case ZAdd(batch) => if batch == [] then Syntax else Done(())
    case XAdd(_, values) => if values == [] || |values| % 2 != 0 then Syntax else Done(())
    case PfAdd(_) => Done(())
  }

  const ONE: Bytes := [49]

  function Incremented(data: Bytes): Outcome<Bytes> {
    var parsed := Decimal.ParseInt(data);
    if parsed.Err? || parsed.value == Decimal.MAX_INT then NotInteger else Done(Decimal.FormatInt(parsed.value + 1))
  }

  /** The new payload under a key that is not there. */
  function Started(change: Change, now: Instant): Outcome<Payload>
    requires Checked(change).Done?
  {
    match change
    case Incr => Done(Str(ONE))
    case SetBit(offset, bit) => Done(Str(SetBitIn([], offset, bit)))
    case HSet(pairs) => Done(NewHash(pairs))
    case SAdd(members) => Done(NewSet(members))
    case ZAdd(batch) => Done(NewZSet(batch))
    case XAdd(rawId, values) => Appended([], rawId, values, now)
    case PfAdd(sums) => Hashed(HyperLogLogs.Fresh(), sums)
  }

  /** The new payload in place of the one there is. */
  function Changed(change: Change, now: Instant, p: Payload): Outcome<Payload>
    requires Checked(change).Done?
  {
    match change
    case Incr =>
      if !p.Str? then WrongType
      else (match Incremented(p.data) case Done(data) => Done(Str(data)) case _ => NotInteger)
    case SetBit(offset, bit) => if p.Str? then Done(Str(SetBitIn(p.data, offset, bit))) else WrongType
    case HSet(pairs) => if IsHash(p) then Done(SetFields(p, pairs)) else WrongType
    case SAdd(members) => if IsSet(p) then Done(AddMembers(p, members)) else WrongType
    case ZAdd(batch) => if IsZSet(p) then Done(AddScores(p, batch)) else WrongType
    case XAdd(rawId, values) => if p.Stream? then Appended(p.entries, rawId, values, now) else WrongType
    case PfAdd(sums) => if p.Str? then Hashed(p.data, sums) else WrongType
  }

  function Hashed(data: Bytes, sums: seq<HyperLogLogs.Hash>): Outcome<Payload> {
    match HyperLogLogs.Added(data, sums)
    case None => NotHyperLogLog
    case Some(after) => Done(Str(after))
  }

  function Appended(entries: seq<StreamEntry>, rawId: Bytes, values: seq<Bytes>, now: Instant): Outcome<Payload> {
    match Admitted(entries, rawId, now)
    case Added(id) => Done(Stream(entries + [StreamEntry(id, values)]))
    case BadId => BadStreamId
    case TooSmall => SmallStreamId
  }

  /** The value a command stores: `now` is the clock reading of the write, `stamp` that of a new counter. */
  function Make(change: Change, now: Instant, stamp: int, current: Option<Stored>): Outcome<Stored>
    requires Checked(change).Done?
  {
    match current
    case None =>
      (match Started(change, now)
       case Done(p) => Done(Stored(p, 0, if change.Incr? then stamp else now))
       case refused => Refused(refused))
    case Some(v) =>
      match Changed(change, now, v.payload)
      case Done(p) => Done(Stored(p, v.expiresAt, now))
      case refused => Refused(refused)
  }

  function Refused<T, U>(o: Outcome<T>): Outcome<U>
    requires !o.Done?
  {
    match o
    case Absent => Absent
    case Syntax => Syntax
    case WrongType => WrongType
    case NotInteger => NotInteger
    case BadStreamId => BadStreamId
    case SmallStreamId => SmallStreamId
    case NotHyperLogLog => NotHyperLogLog
    case OutOfMemory => OutOfMemory
  }

  // ----- INCR -----

  /** The value is a string that reads as the number. */
  ghost predicate ReadsAs(v: Stored, n: int) {
    v.payload.Str? && Decimal.ParseInt(v.payload.data).Ok? && Decimal.ParseInt(v.payload.data).value == n
  }

  /** The value holds a number that can be raised. */
  ghost predicate Raisable(v: Stored) {
    v.payload.Str? && Decimal.ParseInt(v.payload.data).Ok? && Decimal.ParseInt(v.payload.data).value < Decimal.MAX_INT
  }

  /**
   INCR makes 1 of nothing and one more of a number, whose deadline stays; it refuses what
   is no string, and a string that is no number or the greatest one.
   */
  lemma IncrMakes(now: Instant, stamp: int, current: Option<Stored>)
    ensures
      var made := Make(Incr, now, stamp, current);
      match current
      case None => made.Done? && ReadsAs(made.value, 1) && made.value.expiresAt == 0
      case Some(v) =>
        if !v.payload.Str? then made == WrongType
        else if !Raisable(v) then made == NotInteger
        else
          && made.Done? && made.value.expiresAt == v.expiresAt
          && ReadsAs(made.value, Decimal.ParseInt(v.payload.data).value + 1)
  {
    hide Decimal.FormatInt, Decimal.ParseInt;
    OneReads();
    match current
    case Some(v) =>
      if Raisable(v) {
        Decimal.ParseFormat(Decimal.ParseInt(v.payload.data).value + 1);
      }
    case None =>
  }

  lemma OneReads()
    ensures Decimal.ParseInt(ONE) == Decimal.Ok(1)
  {
    assert Decimal.Digits(ONE) == ONE && ONE[1..] == [];
    assert Decimal.Scan([], 1, Decimal.Limit(false)) == Decimal.Value(1);
  }

  // ----- what holds of every stored value -----

  /** Entries in order, under IDs that can be read back, each with fields and values. */
  ghost predicate Orderly(entries: seq<StreamEntry>) {
    && Increasing(entries)
    && forall i | 0 <= i < |entries| ::
         Natural(entries[i].id) && |entries[i].values| >= 2 && |entries[i].values| % 2 == 0
  }

  ghost predicate Inhabited(p: Payload) {
    match p
    case Str(_) => true
    case List(items) => items != []
    case Hash(fields) => fields != map[]
    case CompactHash(fields, _) => fields != map[]
    case Set(members) => members != {}
    case IntSet(values) => values != {}
    case ZSet(scores) => scores != map[]
    case CompactZSet(scores) => scores != map[]
    case Stream(entries) => entries != [] && Orderly(entries)
  }

  /** Collections have members and no deadline, streams are in order. */
  ghost predicate Sound(v: Stored) {
    Inhabited(v.payload) && (!v.payload.Str? ==> v.expiresAt == 0)
  }

  /** An automatic ID that wraps around. */
  predicate Wraps(change: Change, now: Instant, current: Option<Stored>) {
    && change.XAdd? && change.rawId == STAR
    && current.Some? && current.value.payload.Stream? && Exhausted(current.value.payload.entries, now)
  }

  lemma {:induction false} SetAllHas(pairs: seq<Pair>, fields: Fields)
    ensures pairs != [] || fields != map[] ==> SetAll(pairs, fields) != map[]
  {
    if pairs != [] {
      assert pairs[|pairs| - 1].0 in SetAll(pairs, fields);
    }
  }

  lemma {:induction false} AddAllHas(m: Scores, batch: seq<Entry>)
    ensures batch != [] ==> AddAll(m, batch) != map[]
  {
    if batch != [] {
      assert batch[|batch| - 1].member in AddAll(m, batch);
    }
  }

  lemma MembersHas(p: Payload, m: Bytes)
    requires IsSet(p) && m in MembersIn(p)
    ensures Inhabited(p)
  {
  }

  lemma AddMembersHas(p: Payload, members: seq<Bytes>)
    requires IsSet(p) && members != []
    ensures Inhabited(AddMembers(p, members)) && Inhabited(NewSet(members))
  {
    AddedMembers(p, members);
    hide AddMembers, NewSet, MembersIn, Inhabited;
    MembersHas(AddMembers(p, members), members[0]);
    MembersHas(NewSet(members), members[0]);
  }

  lemma AppendedOrderly(entries: seq<StreamEntry>, rawId: Bytes, values: seq<Bytes>, now: Instant)
    requires Orderly(entries) && values != [] && |values| % 2 == 0
    requires Appended(entries, rawId, values, now).Done? && !(rawId == STAR && Exhausted(entries, now))
    ensures Inhabited(Appended(entries, rawId, values, now).value)
  {
    hide ParseId;
    AdmittedInOrder(entries, rawId, values, now);
    ParsedNatural(rawId);
  }

  /** A command stores what holds of every value if it finds such a value, and no stream ID wraps around. */
  lemma MakeSound(change: Change, now: Instant, stamp: int, current: Option<Stored>)
    requires Checked(change).Done? && (current.Some? ==> Sound(current.value))
    requires Make(change, now, stamp, current).Done? && !Wraps(change, now, current)
    ensures Sound(Make(change, now, stamp, current).value)
  {
    hide SetBitIn, SetFields, NewHash, AddMembers, NewSet, AddScores, NewZSet, Appended, Orderly, Incremented;
    hide HyperLogLogs.Added;
    match change
    case Incr =>
    case PfAdd(_) =>
    case SetBit(_, _) =>
    case HSet(pairs) =>
      SetAllHas(pairs, if current.Some? && IsHash(current.value.payload) then current.value.payload.fields else map[]);
    case SAdd(members) =>
      AddMembersHas(if current.Some? && IsSet(current.value.payload) then current.value.payload else Set({}), members);
    case ZAdd(batch) =>
      AddAllHas(if current.Some? && IsZSet(current.value.payload) then current.value.payload.scores else map[], batch);
    case XAdd(rawId, values) =>
      var entries := if current.Some? && current.value.payload.Stream? then current.value.payload.entries else [];
      assert Orderly([]) by { NoEntries(); }
      AppendedOrderly(entries, rawId, values, now);
  }

  lemma NoEntries()
    ensures Orderly([])
  {
  }

  /** Where an ID wraps around, the stream is out of order from then on. */
  lemma WrapBreaks(change: Change, now: Instant, stamp: int, current: Option<Stored>)
    requires Checked(change).Done? && current.Some? && Sound(current.value) && Wraps(change, now, current)
    ensures Make(change, now, stamp, current).Done? && !Sound(Make(change, now, stamp, current).value)
  {
    AdmittedInOrder(current.value.payload.entries, change.rawId, change.values, now);
  }
}
