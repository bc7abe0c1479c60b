/** Building and loading RDB snapshots (internal/rdb/snapshot.go and loader.go). */
module Rdb {
  import opened Options
  import opened Order
  import opened Decimal
  import opened RdbFormat
  import opened Sorting
  import Keyspace
  import Payloads
  import StoreSpec
  import opened Stores

  type Instant = Payloads.Instant
  type Times = Payloads.Times
  type Shard = Keyspace.Shard

  /** REDIS0011 */
  const HEADER: Bytes := [82, 69, 68, 73, 83, 48, 48, 49, 49]
  const MAX_VERSION := 11

  const AUX: byte := 0xFA
  const RESIZE_DB: byte := 0xFB
  const EXPIRE_MILLIS: byte := 0xFC
  const EXPIRE_SECONDS: byte := 0xFD
  const SELECT_DB: byte := 0xFE
  const END: byte := 0xFF

  const MAX_MILLIS: int := 0x7fff_ffff_ffff_ffff

  // ----- writing -----

  predicate Lapsed(e: Item, now: int) {
    e.expiresAt > 0 && e.expiresAt <= now
  }

  /** The bytes of one entry. */
  function EntryBytes(e: Item): Bytes {
    (if e.expiresAt > 0 then [EXPIRE_MILLIS] + LittleEndian(e.expiresAt, 8) else [])
    + [0] + Str(e.key) + Str(e.value)
  }

  /** An item as it is read back: without a deadline it has none. */
  function Settled(e: Item): Item {
    if e.expiresAt < 0 then e.(expiresAt := 0) else e
  }

  ghost function Emitted(e: Item, now: int): Bytes {
    if Lapsed(e, now) then [] else EntryBytes(e)
  }

  ghost function EntriesBytes(items: seq<Item>, now: int): Bytes {
    if items == [] then [] else Emitted(items[0], now) + EntriesBytes(items[1..], now)
  }

  const TRAILER: Bytes := [END, 0, 0, 0, 0, 0, 0, 0, 0]

  ghost function SnapshotBytes(sorted: seq<Item>, now: int): Bytes {
    if sorted == [] then HEADER + TRAILER
    else HEADER + [SELECT_DB] + Length(0) + EntriesBytes(sorted, now) + TRAILER
  }

  /** The items a writer at `now` does not skip, as they are read back. */
  ghost function Kept(items: seq<Item>, now: int): seq<Item> {
    if items == [] then []
    else (if Lapsed(items[0], now) then [] else [Settled(items[0])]) + Kept(items[1..], now)
  }

  // ----- reading -----

  /** What the loader does with the next marker. */
  datatype Step = Loads(item: Item, rest: Bytes) | Skip(rest: Bytes) | Done | Halt(reason: Reason)

  /** `readEntry` */
  function ReadEntry(kind: byte, expiresAt: int64, b: Bytes, lzf: Lzf): (r: Step)
    ensures r.Loads? ==> |r.rest| < |b|
    ensures r.Loads? || r.Halt?
  {
    if kind != 0 then Halt(UnsupportedType)
    else match ReadString(b, lzf)
      case Failed(reason) => Halt(reason)
      case Got(key, afterKey) =>
        match ReadString(afterKey, lzf)
        case Failed(reason) => Halt(reason)
        case Got(value, rest) => Loads(Item(key, value, expiresAt), rest)
  }

  /** `readExpiringEntry` */
  function ReadExpiring(expiresAt: int64, b: Bytes, lzf: Lzf): (r: Step)
    ensures r.Loads? ==> |r.rest| < |b|
    ensures r.Loads? || r.Halt?
  {
    if b == [] then Halt(Truncated) else ReadEntry(b[0], expiresAt, b[1..], lzf)
  }

  predicate IsValueType(marker: byte) {
    marker <= 4 || 9 <= marker <= 14
  }

  /** `skipAuxField` */
  function TwoStrings(b: Bytes, lzf: Lzf): (r: Step)
    ensures r.Skip? || r.Halt?
    ensures r.Skip? ==> |r.rest| < |b|
  {
    match ReadString(b, lzf)
    case Failed(reason) => Halt(reason)
    case Got(_, r1) =>
      match ReadString(r1, lzf)
      case Failed(reason) => Halt(reason)
      case Got(_, r2) => Skip(r2)
  }

  /** `skipResizeDBMetadata` */
  function TwoLengths(b: Bytes): (r: Step)
    ensures r.Skip? || r.Halt?
    ensures r.Skip? ==> |r.rest| < |b|
  {
    match ReadLength(b)
    case Failed(reason) => Halt(reason)
    case Got(_, r1) =>
      match ReadLength(r1)
      case Failed(reason) => Halt(reason)
      case Got(_, r2) => Skip(r2)
  }

  /** An entry behind its deadline, in seconds or in milliseconds. */
  function ReadTimed(seconds: bool, b: Bytes, lzf: Lzf): (r: Step)
    ensures r.Loads? ==> |r.rest| < |b|
    ensures r.Loads? || r.Halt?
  {
    var size := if seconds then 4 else 8;
    if |b| < size then Halt(Truncated)
    else
      var number := FromLittleEndian(b[..size]);
      LittleEndianBound(b[..size]);
      RadixValues();
      if seconds then ReadExpiring(number * 1000, b[size..], lzf)
      else if number > MAX_MILLIS then Halt(BadExpiry)
      else ReadExpiring(number, b[size..], lzf)
  }

  /** `processMarker` */
  function NextStep(b: Bytes, lzf: Lzf): (r: Step)
    ensures r.Loads? || r.Skip? ==> |r.rest| < |b|
  {
    if b == [] then Halt(Truncated)
    else
      var marker, r := b[0], b[1..];
      if marker == AUX then TwoStrings(r, lzf)
      else if marker == RESIZE_DB then TwoLengths(r)
      else if marker == SELECT_DB then
        match ReadLength(r)
        case Failed(reason) => Halt(reason)
        case Got(index, r1) => if index.0 != 0 then Halt(UnsupportedDB) else Skip(r1)
      else if marker == EXPIRE_SECONDS then ReadTimed(true, r, lzf)
      else if marker == EXPIRE_MILLIS then ReadTimed(false, r, lzf)
      else if marker == END then
        if |r| == 0 || |r| == 8 then Done else Halt(BadChecksum)
      else if !IsValueType(marker) then Halt(UnsupportedOpcode)
      else ReadEntry(marker, 0, r, lzf)
  }

  /** The entries a payload holds, up to its end or to what cannot be read. */
  datatype Contents = Contents(items: seq<Item>, error: Option<Reason>)

  function ReadEntries(b: Bytes, lzf: Lzf): Contents
    decreases |b|
  {
    match NextStep(b, lzf)
    case Done => Contents([], None)
    case Halt(reason) => Contents([], Some(reason))
    case Skip(rest) => ReadEntries(rest, lzf)
    case Loads(item, rest) =>
      var later := ReadEntries(rest, lzf);
      Contents([item] + later.items, later.error)
  }

  /** `validateHeader` */
  predicate HeaderOk(header: Bytes)
    requires |header| == 9
  {
    && header[..5] == HEADER[..5]
    && ParseInt(header[5..]).Ok?
    && 1 <= ParseInt(header[5..]).value <= MAX_VERSION
  }

  function ReadPayload(b: Bytes, lzf: Lzf): Contents {
    if |b| < 9 then Contents([], Some(Truncated))
    else if !HeaderOk(b[..9]) then Contents([], Some(BadHeader))
    else ReadEntries(b[9..], lzf)
  }

  // ----- what was written is read back -----

  ghost predicate Fits(items: seq<Item>) {
    forall i | 0 <= i < |items| :: |items[i].key| <= MAX_OBJECT && |items[i].value| <= MAX_OBJECT
  }

  lemma ReadEntryBack(e: Item, expiresAt: int64, rest: Bytes, lzf: Lzf)
    requires |e.key| <= MAX_OBJECT && |e.value| <= MAX_OBJECT
    ensures ReadEntry(0, expiresAt, Str(e.key) + Str(e.value) + rest, lzf) ==
              Loads(Item(e.key, e.value, expiresAt), rest)
  {
    hide Str, ReadString;
    StringRoundTrip(e.key, Str(e.value) + rest, lzf);
    StringRoundTrip(e.value, rest, lzf);
    assert Str(e.key) + Str(e.value) + rest == Str(e.key) + (Str(e.value) + rest);
  }

  lemma {:induction false} RadixValues()
    ensures Radix(4) == 0x1_0000_0000 && Radix(8) == 0x1_0000_0000_0000_0000
  {
    assert Radix(0) == 1 && Radix(1) == 0x100 && Radix(2) == 0x1_0000 && Radix(3) == 0x100_0000;
    assert Radix(4) == 0x1_0000_0000 && Radix(5) == 0x100_0000_0000 && Radix(6) == 0x1_0000_0000_0000;
    assert Radix(7) == 0x100_0000_0000_0000;
  }

  lemma EntryBack(e: Item, rest: Bytes, lzf: Lzf)
    requires |e.key| <= MAX_OBJECT && |e.value| <= MAX_OBJECT
    ensures NextStep(EntryBytes(e) + rest, lzf) == Loads(Settled(e), rest)
  {
    hide Str, ReadString, LittleEndian, FromLittleEndian, ReadLength, ReadEntry;
    var body := Str(e.key) + Str(e.value) + rest;
    ReadEntryBack(e, Settled(e).expiresAt, rest, lzf);
    var b := EntryBytes(e) + rest;
    if e.expiresAt > 0 {
      RadixValues();
      LittleEndianInverse(e.expiresAt, 8);
      var stamp := LittleEndian(e.expiresAt, 8);
      assert b == [EXPIRE_MILLIS] + (stamp + ([0] + body));
      assert b[1..] == stamp + ([0] + body);
      assert b[1..][..8] == stamp && b[1..][8..] == [0] + body;
      assert ([0] + body)[1..] == body;
    } else {
      assert b == [0] + body;
      assert b[1..] == body;
    }
  }

  lemma TrailerEnds(lzf: Lzf)
    ensures ReadEntries(TRAILER, lzf) == Contents([], None)
  {
    assert TRAILER[0] == END && |TRAILER[1..]| == 8;
  }

  lemma {:induction false} EntriesBack(items: seq<Item>, now: int, lzf: Lzf)
    requires Fits(items)
    ensures ReadEntries(EntriesBytes(items, now) + TRAILER, lzf) == Contents(Kept(items, now), None)
    decreases |items|
  {
    hide NextStep, EntryBytes;
    if items == [] {
      assert [] + TRAILER == TRAILER;
      TrailerEnds(lzf);
    } else {
      var e, later := items[0], EntriesBytes(items[1..], now);
      EntriesBack(items[1..], now, lzf);
      if Lapsed(e, now) {
        assert [] + later + TRAILER == later + TRAILER;
      } else {
        EntryBack(e, later + TRAILER, lzf);
        assert EntryBytes(e) + later + TRAILER == EntryBytes(e) + (later + TRAILER);
      }
    }
  }

  /** Reading a snapshot gives the items its writer kept, in order. */
  lemma SnapshotBack(sorted: seq<Item>, now: int, lzf: Lzf)
    requires Fits(sorted)
    ensures ReadPayload(SnapshotBytes(sorted, now), lzf) == Contents(Kept(sorted, now), None)
  {
    hide ReadEntries, EntriesBytes, NextStep;
    HeaderValid();
    var b := SnapshotBytes(sorted, now);
    assert b[..9] == HEADER;
    if sorted == [] {
      assert b[9..] == TRAILER;
      TrailerEnds(lzf);
    } else {
      var body := EntriesBytes(sorted, now) + TRAILER;
      assert b[9..] == [SELECT_DB] + Length(0) + body;
      SelectSkipped(body, lzf);
      EntriesBack(sorted, now, lzf);
    }
  }

  lemma HeaderValid()
    ensures |HEADER| == 9 && HeaderOk(HEADER)
  {
    var v := HEADER[5..];
    assert v == [48, 48, 49, 49];
    assert Digits(v) == v;
    var limit := Limit(false);
    assert Scan([], 11, limit) == Value(11);
    assert [49][1..] == [] && Scan([49], 1, limit) == Value(11);
    assert [49, 49][1..] == [49] && Scan([49, 49], 0, limit) == Value(11);
    assert [48, 49, 49][1..] == [49, 49] && Scan([48, 49, 49], 0, limit) == Value(11);
    assert v[1..] == [48, 49, 49] && Scan(v, 0, limit) == Value(11);
  }

  lemma SelectSkipped(body: Bytes, lzf: Lzf)
    ensures ReadEntries([SELECT_DB] + Length(0) + body, lzf) == ReadEntries(body, lzf)
  {
    hide ReadLength, Length;
    LengthRoundTrip(0, body);
    var b := [SELECT_DB] + Length(0) + body;
    assert b[1..] == Length(0) + body;
    assert NextStep(b, lzf) == Skip(body);
  }

  // ----- the writer -----

  lemma SameItems(a: seq<Item>, b: seq<Item>)
    requires multiset(a) == multiset(b)
    ensures |a| == |b| && forall e :: e in a <==> e in b
  {
    SameMembers(a, b);
  }

  lemma {:induction false} EntriesAppend(items: seq<Item>, e: Item, now: int)
    ensures EntriesBytes(items + [e], now) == EntriesBytes(items, now) + Emitted(e, now)
    decreases |items|
  {
    hide Emitted;
    if items == [] {
      assert items + [e] == [e] && [e][1..] == [];
      assert EntriesBytes([e], now) == Emitted(e, now) + EntriesBytes([], now);
    } else {
      EntriesAppend(items[1..], e, now);
      assert (items + [e])[1..] == items[1..] + [e];
      assert EntriesBytes(items + [e], now) == Emitted(items[0], now) + EntriesBytes(items[1..] + [e], now);
    }
  }

  lemma {:induction false} KeptAppend(items: seq<Item>, e: Item, now: int)
    ensures Kept(items + [e], now) == Kept(items, now) + if Lapsed(e, now) then [] else [Settled(e)]
    decreases |items|
  {
    hide Lapsed, Settled;
    var tail := if Lapsed(e, now) then [] else [Settled(e)];
    if items == [] {
      assert items + [e] == [e] && [e][1..] == [];
      assert tail + [] == tail && [] + tail == tail;
    } else {
      var head := if Lapsed(items[0], now) then [] else [Settled(items[0])];
      KeptAppend(items[1..], e, now);
      assert (items + [e])[1..] == items[1..] + [e];
      assert head + (Kept(items[1..], now) + tail) == head + Kept(items[1..], now) + tail;
    }
  }

  /** The loop of `BuildSnapshot`. */
  method WriteEntries(sorted: seq<Item>, now: int) returns (payload: Bytes, written: nat, skipped: nat)
    ensures payload == EntriesBytes(sorted, now)
    ensures written == |Kept(sorted, now)| && written + skipped == |sorted|
  {
    hide EntryBytes, EntriesBytes, Kept;
    payload, written, skipped := [], 0, 0;
    NothingWritten(now);
    for i := 0 to |sorted|
      invariant payload == EntriesBytes(sorted[..i], now)
      invariant written == |Kept(sorted[..i], now)| && written + skipped == i
    {
      var e := sorted[i];
      assert sorted[..i + 1] == sorted[..i] + [e];
      EntriesAppend(sorted[..i], e, now);
      KeptAppend(sorted[..i], e, now);
      if Lapsed(e, now) {
        skipped := skipped + 1;
        continue;
      }
      payload := payload + EntryBytes(e);
      written := written + 1;
    }
    assert sorted[..|sorted|] == sorted;
  }

  lemma NothingWritten(now: int)
    ensures EntriesBytes([], now) == [] && Kept([], now) == []
  {
  }

  /** `BuildSnapshot` */
  method BuildSnapshot(entries: seq<Item>, now: int)
    returns (payload: Bytes, written: nat, skipped: nat, ghost sorted: seq<Item>)
    ensures multiset(sorted) == multiset(entries) && SortedBy(sorted, (e: Item) => e.key)
    ensures payload == SnapshotBytes(sorted, now)
    ensures written == |Kept(sorted, now)| && written + skipped == |entries|
  {
    if entries == [] {
      return HEADER + TRAILER, 0, 0, [];
    }
    hide LexLess, EntryBytes;
    var order := SortBy(entries, (e: Item) => e.key);
    sorted := order;
    SameItems(entries, sorted);
    payload, written, skipped := WriteEntries(order, now);
    payload := HEADER + [SELECT_DB] + Length(0) + payload;
    payload := payload + TRAILER;
  }

  // ----- the loader -----

  /** An item in the store, last accessed at `stamp`. */
  function StoredOf(e: Item, stamp: int): Keyspace.Stored {
    Keyspace.Stored(Keyspace.Str(e.value), e.expiresAt, stamp)
  }

  /** What loading items does to a keyspace, the i-th of them read at `clock(i)`; the last comes last. */
  ghost function Applied(items: seq<Item>, clock: nat -> Instant, times: nat -> Times, before: Shard): Shard {
    if items == [] then before
    else
      var n := |items| - 1;
      var m := Applied(items[..n], clock, times, before);
      if Lapsed(items[n], clock(n)) then m else m[items[n].key := StoredOf(items[n], times(n).stamp)]
  }

  ghost function Count(items: seq<Item>, clock: nat -> Instant): nat {
    if items == [] then 0
    else Count(items[..|items| - 1], clock) + if Lapsed(items[|items| - 1], clock(|items| - 1)) then 0 else 1
  }

  lemma AppliedMore(items: seq<Item>, e: Item, clock: nat -> Instant, times: nat -> Times, before: Shard)
    ensures Applied(items + [e], clock, times, before) ==
            var m := Applied(items, clock, times, before);
            if Lapsed(e, clock(|items|)) then m else m[e.key := StoredOf(e, times(|items|).stamp)]
  {
    assert (items + [e])[..|items|] == items;
  }

  lemma CountMore(items: seq<Item>, e: Item, clock: nat -> Instant)
    ensures Count(items + [e], clock) == Count(items, clock) + if Lapsed(e, clock(|items|)) then 0 else 1
  {
    assert (items + [e])[..|items|] == items;
  }

  /** What a load has done so far. */
  datatype Tally = Tally(view: Shard, loaded: nat, skipped: nat)

  /** What one entry does under a memory limit, with which the store may have no room for it. */
  ghost predicate Took(e: Item, now: int, stamp: int, limit: int, before: Tally, after: Tally, error: Option<Reason>) {
    if Lapsed(e, now) then error == None && after == before.(skipped := before.skipped + 1)
    else if error == None then
      && (limit <= 0 ==> after.view == before.view[e.key := StoredOf(e, stamp)])
      && after.loaded == before.loaded + 1 && after.skipped == before.skipped
    else error == Some(NoRoom) && limit > 0
  }

  /** How a load of the contents ends: as they say, if there is no memory limit. */
  ghost predicate Ended(contents: Contents, clock: nat -> Instant, times: nat -> Times, limit: int, before: Shard,
                        after: Tally, error: Option<Reason>) {
    && (error == contents.error || (error == Some(NoRoom) && limit > 0))
    && (error != Some(NoRoom) ==>
        after.loaded == Count(contents.items, clock) && after.loaded + after.skipped == |contents.items|)
    && (limit <= 0 ==> after.view == Applied(contents.items, clock, times, before))
  }

  /** As far as the load has come. */
  ghost predicate Reached(done: seq<Item>, clock: nat -> Instant, times: nat -> Times, limit: int, before: Shard,
                          after: Tally) {
    && after.loaded == Count(done, clock) && after.loaded + after.skipped == |done|
    && (limit <= 0 ==> after.view == Applied(done, clock, times, before))
  }

  lemma ReachedMore(done: seq<Item>, clock: nat -> Instant, times: nat -> Times, limit: int, before: Shard,
                    now: Tally, e: Item, after: Tally)
    requires Reached(done, clock, times, limit, before, now)
    requires Took(e, clock(|done|), times(|done|).stamp, limit, now, after, None)
    ensures Reached(done + [e], clock, times, limit, before, after)
  {
    hide Applied, Count;
    AppliedMore(done, e, clock, times, before);
    CountMore(done, e, clock);
  }

  lemma ReachedNone(clock: nat -> Instant, times: nat -> Times, limit: int, start: Tally)
    requires start.loaded == start.skipped == 0
    ensures Reached([], clock, times, limit, start.view, start)
  {
  }

  lemma ReachedCount(done: seq<Item>, clock: nat -> Instant, times: nat -> Times, limit: int, before: Shard,
                     after: Tally)
    requires Reached(done, clock, times, limit, before, after)
    ensures after.loaded + after.skipped == |done|
  {
  }

  lemma ReachedEnd(all: Contents, clock: nat -> Instant, times: nat -> Times, limit: int, before: Shard, after: Tally)
    requires all.error == None && Reached(all.items, clock, times, limit, before, after)
    ensures Ended(all, clock, times, limit, before, after, None)
  {
  }

  /** A load that stops at a marker it cannot read or an entry it cannot store. */
  lemma StoppedAt(all: Contents, done: seq<Item>, step: Step, clock: nat -> Instant, times: nat -> Times, limit: int,
                  before: Shard, now: Tally, after: Tally, error: Option<Reason>)
    requires Reached(done, clock, times, limit, before, now) && error.Some?
    requires match step
             case Halt(reason) => error == Some(reason) && after == now && all == Contents(done, error)
             case Loads(e, _) => Took(e, clock(|done|), times(|done|).stamp, limit, now, after, error)
             case _ => false
    ensures Ended(all, clock, times, limit, before, after, error)
  {
  }

  class Loader {
    var reader: Bytes
    const store: Store
    var loaded: nat
    var skipped: nat
    var seenEOF: bool
    const lzf: Lzf

    constructor (payload: Bytes, store: Store, lzf: Lzf)
      ensures reader == payload && this.store == store && loaded == skipped == 0 && !seenEOF && this.lzf == lzf
    {
      reader, this.store, loaded, skipped, seenEOF := payload, store, 0, 0, false;
      this.lzf := lzf;
    }

    /** `readByte` */
    method TakeByte() returns (b: byte, error: Option<Reason>)
      modifies `reader
      ensures if old(reader) == [] then error == Some(Truncated)
              else error == None && b == old(reader)[0] && reader == old(reader)[1..]
    {
      if |reader| == 0 {
        return 0, Some(Truncated);
      }
      b, reader := reader[0], reader[1..];
      error := None;
    }

    /** `n` bytes as they are, at most eight of them. */
    method TakeFixed(n: nat) returns (b: Bytes, error: Option<Reason>)
      modifies `reader
      ensures if |old(reader)| < n then error == Some(Truncated)
              else error == None && b == old(reader)[..n] && reader == old(reader)[n..]
    {
      if |reader| < n {
        return [], Some(Truncated);
      }
      b, reader := reader[..n], reader[n..];
      error := None;
    }

    /** `readLength` */
    method TakeLength() returns (n: nat, special: bool, error: Option<Reason>)
      modifies `reader
      ensures
        match ReadLength(old(reader))
        case Failed(reason) => error == Some(reason)
        case Got(head, rest) => error == None && (n, special) == head && reader == rest
    {
      hide FromBigEndian4;
      n, special := 0, false;
      var first;
      first, error := TakeByte();
      if error.Some? { return; }
      var form: int, low: int := first / 64, first % 64;
      if form == 0 {
        n := low;
      } else if form == 1 {
        var second;
        second, error := TakeByte();
        if error.Some? { return; }
        n := low * 256 + second;
      } else if form == 2 {
        var b;
        b, error := TakeFixed(4);
        if error.Some? { return; }
        n := FromBigEndian4(b);
        assert old(reader)[1..][..4] == old(reader)[1..5] && old(reader)[1..][4..] == old(reader)[5..];
      } else {
        n, special := low, true;
      }
    }

    /** `readBytes` */
    method TakeBytes(n: nat) returns (b: Bytes, error: Option<Reason>)
      modifies `reader
      ensures
        match ReadBytes(old(reader), n)
        case Failed(reason) => error == Some(reason)
        case Got(value, rest) => error == None && b == value && reader == rest
    {
      if n == 0 {
        return [], None;
      }
      if n > MAX_OBJECT {
        return [], Some(TooLong);
      }
      b, error := TakeFixed(n);
    }

    /** `readString`: a plain string, a small integer or a compressed string. */
    method TakeString() returns (text: Bytes, error: Option<Reason>)
      modifies `reader
      ensures
        match ReadString(old(reader), lzf)
        case Failed(reason) => error == Some(reason)
        case Got(value, rest) => error == None && text == value && reader == rest
    {
      hide ReadLength, ReadBytes, SignedText, ReadCompressed;
      text := [];
      var n, special;
      n, special, error := TakeLength();
      if error.Some? { return; }
      if !special {
        text, error := TakeBytes(n);
      } else if n == 0 || n == 1 || n == 2 {
        var size := if n == 2 then 4 else n + 1;
        text, error := TakeFixed(size);
        if error.Some? { return; }
        text := SignedText(text, size);
      } else if n == 3 {
        text, error := TakeCompressed();
      } else {
        error := Some(BadString);
      }
    }

    method TakeCompressed() returns (text: Bytes, error: Option<Reason>)
      modifies `reader
      ensures
        match ReadCompressed(old(reader), lzf)
        case Failed(reason) => error == Some(reason)
        case Got(value, rest) => error == None && text == value && reader == rest
    {
      hide ReadLength, ReadBytes;
      text := [];
      var packed, full, special;
      packed, special, error := TakeLength();
      if error.Some? { return; }
      if special { return [], Some(BadString); }
      full, special, error := TakeLength();
      if error.Some? { return; }
      if special { return [], Some(BadString); }
      if full > MAX_OBJECT { return [], Some(TooLong); }
      var payload;
      payload, error := TakeBytes(packed);
      if error.Some? { return; }
      match lzf(payload, full)
      case None => error := Some(BadString);
      case Some(plain) => text := plain;
    }

    ghost function State(): Tally
      reads this, store
    {
      Tally(store.view, loaded, skipped)
    }

    /** The end of `readEntry`: the entry goes into the store, unless it is out of date. */
    method Put(e: Item, now: int, times: Times, ticks: nat -> nat) returns (error: Option<Reason>)
      requires store.Valid()
      modifies `loaded, `skipped
      modifies store`shards, store`kindCounts, store`view, store`usedMemory, store`pendingExpired
      ensures store.Valid() && Took(e, now, times.stamp, store.maxMemory, old(State()), State(), error)
    {
      hide StoreSpec.Parted, StoreSpec.Counted, Keyspace.Size, StoreSpec.Freed;
      if Lapsed(e, now) {
        skipped := skipped + 1;
        return None;
      }
      var evicted, ok;
      ghost var gone;
      evicted, ok, gone := store.Set(e.key, e.value, e.expiresAt, times.stamp, times.first, times.second, ticks);
      if !ok {
        return Some(NoRoom);
      }
      loaded := loaded + 1;
      error := None;
    }

    /** `readEntry` */
    method TakeEntry(kind: byte, expiresAt: int64, now: int, times: Times, ticks: nat -> nat)
      returns (error: Option<Reason>)
      requires store.Valid()
      modifies `reader, `loaded, `skipped
      modifies store`shards, store`kindCounts, store`view, store`usedMemory, store`pendingExpired
      ensures store.Valid()
      ensures
        match ReadEntry(kind, expiresAt, old(reader), lzf)
        case Loads(e, rest) =>
          reader == rest && Took(e, now, times.stamp, store.maxMemory, old(State()), State(), error)
        case Halt(reason) => error == Some(reason) && State() == old(State())
        case _ => true
    {
      hide ReadString, Took, StoreSpec.Parted, StoreSpec.Counted;
      if kind != 0 {
        return Some(UnsupportedType);
      }
      var key, value;
      key, error := TakeString();
      if error.Some? { return; }
      value, error := TakeString();
      if error.Some? { return; }
      error := Put(Item(key, value, expiresAt), now, times, ticks);
    }

    /** `readExpiringEntry` */
    method TakeExpiring(expiresAt: int64, now: int, times: Times, ticks: nat -> nat) returns (error: Option<Reason>)
      requires store.Valid()
      modifies `reader, `loaded, `skipped
      modifies store`shards, store`kindCounts, store`view, store`usedMemory, store`pendingExpired
      ensures store.Valid()
      ensures
        match ReadExpiring(expiresAt, old(reader), lzf)
        case Loads(e, rest) =>
          reader == rest && Took(e, now, times.stamp, store.maxMemory, old(State()), State(), error)
        case Halt(reason) => error == Some(reason) && State() == old(State())
        case _ => true
    {
      hide ReadEntry, Took, StoreSpec.Parted, StoreSpec.Counted;
      var kind;
      kind, error := TakeByte();
      if error.Some? { return; }
      error := TakeEntry(kind, expiresAt, now, times, ticks);
    }

    /** `skipAuxField` and `skipResizeDBMetadata` */
    method SkipTwo(lengths: bool) returns (error: Option<Reason>)
      modifies `reader
      ensures
        match (if lengths then TwoLengths(old(reader)) else TwoStrings(old(reader), lzf))
        case Skip(rest) => error == None && reader == rest
        case Halt(reason) => error == Some(reason)
        case _ => true
    {
      hide ReadLength, ReadString;
      if lengths {
        var n, special;
        n, special, error := TakeLength();
        if error.Some? { return; }
        n, special, error := TakeLength();
      } else {
        var text;
        text, error := TakeString();
        if error.Some? { return; }
        text, error := TakeString();
      }
    }

    /** One turn of the loop of `load`, at `now`. */
    method ProcessMarker(now: int, times: Times, ticks: nat -> nat) returns (error: Option<Reason>)
      requires store.Valid()
      modifies this, store`shards, store`kindCounts, store`view, store`usedMemory, store`pendingExpired
      ensures store.Valid()
      ensures
        match NextStep(old(reader), lzf)
        case Done => error == None && seenEOF && State() == old(State())
        case Halt(reason) => error == Some(reason) && State() == old(State())
        case Skip(rest) => error == None && reader == rest && seenEOF == old(seenEOF) && State() == old(State())
        case Loads(e, rest) =>
          && reader == rest && seenEOF == old(seenEOF)
          && Took(e, now, times.stamp, store.maxMemory, old(State()), State(), error)
    {
      hide ReadLength, ReadString, ReadExpiring, ReadEntry, TwoLengths, TwoStrings, FromLittleEndian;
      var marker;
      marker, error := TakeByte();
      if error.Some? { return; }
      if marker == AUX || marker == RESIZE_DB {
        error := SkipTwo(marker == RESIZE_DB);
      } else if marker == SELECT_DB {
        var index, special;
        index, special, error := TakeLength();
        if error.None? && index != 0 {
          error := Some(UnsupportedDB);
        }
      } else if marker == EXPIRE_SECONDS || marker == EXPIRE_MILLIS {
        error := TakeTimed(marker == EXPIRE_SECONDS, now, times, ticks);
      } else if marker == END {
        if |reader| != 0 && |reader| != 8 {
          return Some(BadChecksum);
        }
        seenEOF := true;
      } else if !IsValueType(marker) {
        error := Some(UnsupportedOpcode);
      } else {
        error := TakeEntry(marker, 0, now, times, ticks);
      }
    }

    method TakeTimed(seconds: bool, now: int, times: Times, ticks: nat -> nat) returns (error: Option<Reason>)
      requires store.Valid()
      modifies `reader, `loaded, `skipped
      modifies store`shards, store`kindCounts, store`view, store`usedMemory, store`pendingExpired
      ensures store.Valid()
      ensures
        match ReadTimed(seconds, old(reader), lzf)
        case Loads(e, rest) =>
          reader == rest && Took(e, now, times.stamp, store.maxMemory, old(State()), State(), error)
        case Halt(reason) => error == Some(reason) && State() == old(State())
        case _ => true
    {
      hide ReadExpiring, FromLittleEndian, Radix, Took, StoreSpec.Parted, StoreSpec.Counted;
      var b;
      b, error := TakeFixed(if seconds then 4 else 8);
      if error.Some? { return; }
      var number := FromLittleEndian(b);
      if !seconds && number > MAX_MILLIS {
        return Some(BadExpiry);
      }
      LittleEndianBound(b);
      RadixValues();
      error := TakeExpiring(if seconds then number * 1000 else number, now, times, ticks);
    }

    /** `load`; `clock(i)` is the time when the i-th entry has been read. */
    method Load(clock: nat -> Instant, times: nat -> Times, ticks: nat -> nat) returns (error: Option<Reason>)
      requires store.Valid() && !seenEOF && loaded == skipped == 0
      modifies this, store`shards, store`kindCounts, store`view, store`usedMemory, store`pendingExpired
      ensures store.Valid()
      ensures Ended(ReadPayload(old(reader), lzf), clock, times, store.maxMemory, old(store.view), State(), error)
    {
      hide NextStep, ReadEntries, HeaderOk;
      if |reader| < 9 {
        return Some(Truncated);
      }
      if !HeaderOk(reader[..9]) {
        return Some(BadHeader);
      }
      reader := reader[9..];
      error := LoadEntries(clock, times, ticks);
    }

    method LoadEntries(clock: nat -> Instant, times: nat -> Times, ticks: nat -> nat) returns (error: Option<Reason>)
      requires store.Valid() && !seenEOF && loaded == skipped == 0
      modifies this, store`shards, store`kindCounts, store`view, store`usedMemory, store`pendingExpired
      ensures store.Valid()
      ensures Ended(ReadEntries(old(reader), lzf), clock, times, store.maxMemory, old(store.view), State(), error)
    {
      hide NextStep, Applied, Count, Took, Reached, StoreSpec.Parted, StoreSpec.Counted;
      ghost var all := ReadEntries(reader, lzf);
      ghost var done: seq<Item> := [];
      ReachedNone(clock, times, store.maxMemory, State());
      while !seenEOF
        invariant store.Valid() && loaded + skipped == |done|
        invariant if seenEOF then all == Contents(done, None)
                  else
                    var later := ReadEntries(reader, lzf);
                    all.items == done + later.items && all.error == later.error
        invariant Reached(done, clock, times, store.maxMemory, old(store.view), State())
        decreases !seenEOF, |reader|
      {
        ghost var step, before := NextStep(reader, lzf), State();
        error := ProcessMarker(clock(loaded + skipped), times(loaded + skipped), ticks);
        if error.Some? {
          StoppedAt(all, done, step, clock, times, store.maxMemory, old(store.view), before, State(), error);
          return;
        }
        if step.Loads? {
          ReachedMore(done, clock, times, store.maxMemory, old(store.view), before, step.item, State());
          done := done + [step.item];
          ReachedCount(done, clock, times, store.maxMemory, old(store.view), State());
        }
      }
      error := None;
      ReachedEnd(all, clock, times, store.maxMemory, old(store.view), State());
    }
  }

  // ----- a snapshot, loaded -----

  /** No key has two different entries. */
  ghost predicate Functional(items: seq<Item>) {
    forall e, f | e in items && f in items && e.key == f.key :: e == f
  }

  /** The entry is not out of date at `t`, as the writer and the loader see it. */
  predicate Outlives(e: Item, t: int) {
    e.expiresAt <= 0 || e.expiresAt > t
  }

  /** The value is the entry's string, with its deadline if it has one. */
  predicate Saves(v: Keyspace.Stored, e: Item) {
    v.payload == Keyspace.Str(e.value) && v.expiresAt == if e.expiresAt > 0 then e.expiresAt else 0
  }

  /** The value is that of an entry of its key which outlives both moments. */
  ghost predicate SavedFrom(entries: seq<Item>, k: Bytes, v: Keyspace.Stored, now: int, t0: int) {
    exists e | e in entries :: e.key == k && Outlives(e, now) && Outlives(e, t0) && Saves(v, e)
  }

  /** The keyspace has what outlives the writing at `now` and the loading until `t1`, and nothing else. */
  ghost predicate Restores(m: Shard, entries: seq<Item>, now: int, t0: int, t1: int) {
    && (forall e | e in entries && Outlives(e, now) && Outlives(e, t1) :: e.key in m && Saves(m[e.key], e))
    && (forall k | k in m :: SavedFrom(entries, k, m[k], now, t0))
  }

  /** Under the key is its item, if it outlives the loading, and nothing that was out of date before. */
  ghost predicate PlacedAt(m: Shard, items: seq<Item>, t0: int, t1: int, k: Bytes) {
    && (k in m ==> exists e | e in items :: e.key == k && Outlives(e, t0) && Saves(m[k], e))
    && (forall e | e in items && e.key == k && Outlives(e, t1) :: k in m && Saves(m[k], e))
  }

  lemma {:induction false} AppliedFrom(items: seq<Item>, clock: nat -> Instant, times: nat -> Times, t0: int, t1: int,
                                        k: Bytes)
    requires Functional(items) && (forall e | e in items :: e.expiresAt >= 0) && Payloads.Runs(clock, t0, t1)
    ensures PlacedAt(Applied(items, clock, times, map[]), items, t0, t1, k)
    decreases |items|
  {
    if items != [] {
      var n := |items| - 1;
      var last := items[n];
      AppliedFrom(items[..n], clock, times, t0, t1, k);
      assert forall e :: e in items <==> e in items[..n] || e == last;
      assert t0 <= clock(n) <= t1;
    }
  }

  lemma {:induction false} KeptMembers(items: seq<Item>, now: int, e: Item)
    ensures e in Kept(items, now) <==> exists f | f in items :: !Lapsed(f, now) && Settled(f) == e
    decreases |items|
  {
    if items != [] {
      KeptMembers(items[1..], now, e);
      assert forall f :: f in items <==> f == items[0] || f in items[1..];
    }
  }

  /**
   Loading a snapshot into an empty store, at times from `t0` to `t1`, gives back the
   entries that outlive the writing and the loading, with the same bytes and deadlines,
   and nothing that was out of date before.
   */
  lemma SnapshotLoads(entries: seq<Item>, sorted: seq<Item>, now: int, clock: nat -> Instant, times: nat -> Times,
                      t0: int, t1: int, lzf: Lzf)
    requires Functional(entries) && Fits(entries) && multiset(sorted) == multiset(entries)
    requires Payloads.Runs(clock, t0, t1)
    ensures
      var contents := ReadPayload(SnapshotBytes(sorted, now), lzf);
      contents.error == None && Restores(Applied(contents.items, clock, times, map[]), entries, now, t0, t1)
  {
    hide Applied, ReadPayload, SnapshotBytes, Kept, Payloads.Runs, AreKept, PlacedAt, Restores, Functional;
    SameItems(entries, sorted);
    assert Fits(sorted) by {
      forall i | 0 <= i < |sorted| ensures |sorted[i].key| <= MAX_OBJECT && |sorted[i].value| <= MAX_OBJECT {
        assert sorted[i] in entries;
      }
    }
    SnapshotBack(sorted, now, lzf);
    var items := Kept(sorted, now);
    KeptFrom(items, entries, sorted, now);
    KeptFunctional(items, entries, now);
    forall k {
      AppliedFrom(items, clock, times, t0, t1, k);
    }
    KeptRestores(Applied(items, clock, times, map[]), items, entries, now, t0, t1);
  }

  /** The items are the entries not out of date at `now`, as they are read back. */
  ghost predicate AreKept(items: seq<Item>, entries: seq<Item>, now: int) {
    && (forall e | e in items :: IsKept(e, entries, now))
    && (forall f | f in entries && !Lapsed(f, now) :: Settled(f) in items)
  }

  ghost predicate IsKept(e: Item, entries: seq<Item>, now: int) {
    exists f | f in entries :: !Lapsed(f, now) && Settled(f) == e
  }

  lemma KeptFrom(items: seq<Item>, entries: seq<Item>, sorted: seq<Item>, now: int)
    requires items == Kept(sorted, now) && forall e :: e in entries <==> e in sorted
    ensures AreKept(items, entries, now)
  {
    hide Kept, Lapsed, Settled;
    forall e {
      KeptMembers(sorted, now, e);
    }
    forall e | e in items ensures IsKept(e, entries, now) {
      var f :| f in sorted && !Lapsed(f, now) && Settled(f) == e;
      assert f in entries;
    }
  }

  lemma KeptFunctional(items: seq<Item>, entries: seq<Item>, now: int)
    requires AreKept(items, entries, now) && Functional(entries)
    ensures Functional(items) && forall e | e in items :: e.expiresAt >= 0
  {
    forall e | e in items ensures e.expiresAt >= 0 {
      assert IsKept(e, entries, now);
    }
    forall e, f | e in items && f in items && e.key == f.key ensures e == f {
      assert IsKept(e, entries, now) && IsKept(f, entries, now);
    }
  }

  lemma KeptRestores(m: Shard, items: seq<Item>, entries: seq<Item>, now: int, t0: int, t1: int)
    requires AreKept(items, entries, now)
    requires forall k :: PlacedAt(m, items, t0, t1, k)
    ensures Restores(m, entries, now, t0, t1)
  {
    forall e | e in entries && Outlives(e, now) && Outlives(e, t1) ensures e.key in m && Saves(m[e.key], e) {
      assert Settled(e) in items && PlacedAt(m, items, t0, t1, e.key);
    }
    forall k | k in m ensures SavedFrom(entries, k, m[k], now, t0) {
      assert PlacedAt(m, items, t0, t1, k);
      var e :| e in items && e.key == k && Outlives(e, t0) && Saves(m[k], e);
      assert IsKept(e, entries, now);
    }
  }

  /** The snapshot drops what the store still holds as live exactly in the millisecond of the deadline. */
  lemma DeadlineMillisecond(key: Bytes, v: Keyspace.Stored, now: int)
    requires v.payload.Str?
    ensures Lapsed(Item(key, v.payload.data, v.expiresAt), now) && !Keyspace.Expired(v, now) <==>
              v.expiresAt > 0 && now == v.expiresAt
  {
  }
}
