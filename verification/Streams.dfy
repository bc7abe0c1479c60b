/** Streams and their IDs (internal/storage/stream.go). */
module Streams {
  import opened Options
  import opened Order
  import opened Decimal

  const DASH: byte := 45
  const STAR: Bytes := [42]
  const DOLLAR: Bytes := [36]

  datatype StreamId = StreamId(milliseconds: int64, sequence: int64) {
    /** `compareStreamIDs` below zero */
    predicate Less(other: StreamId) {
      milliseconds < other.milliseconds || (milliseconds == other.milliseconds && sequence < other.sequence)
    }
  }

  datatype StreamEntry = StreamEntry(id: StreamId, values: seq<Bytes>)

  // ----- the text of an ID -----

  /** `String` */
  function IdText(id: StreamId): Bytes {
    FormatInt(id.milliseconds) + [DASH] + FormatInt(id.sequence)
  }

  /** The position of the first dash, or the length. */
  function FirstDash(raw: Bytes): (i: nat)
    ensures i <= |raw| && (i < |raw| ==> raw[i] == DASH) && forall j | 0 <= j < i :: raw[j] != DASH
  {
    if raw == [] || raw[0] == DASH then 0 else 1 + FirstDash(raw[1..])
  }

  /** `parseNonNegativeStreamInt` */
  function ParseNonNegative(raw: Bytes): (r: Option<int64>) {
    var parsed := ParseInt(raw);
    if parsed.Ok? && parsed.value >= 0 then Some(parsed.value) else None
  }

  /** `parseStreamAddID` */
  function ParseId(raw: Bytes): Option<StreamId> {
    var i := FirstDash(raw);
    if i == |raw| then None
    else
      var left, right := raw[..i], raw[i + 1..];
      if left == [] || right == [] || DASH in right then None
      else match (ParseNonNegative(left), ParseNonNegative(right))
        case (Some(milliseconds), Some(sequence)) => Some(StreamId(milliseconds, sequence))
        case _ => None
  }

  predicate Natural(id: StreamId) {
    id.milliseconds >= 0 && id.sequence >= 0
  }

  lemma DigitsOnly(v: int64)
    requires v >= 0
    ensures FormatInt(v) != [] && DASH !in FormatInt(v) && ParseNonNegative(FormatInt(v)) == Some(v)
  {
    FormatNatDenotes(v);
    ParseFormat(v);
  }

  /** The text of an ID is read back exactly when neither part is negative. */
  lemma IdRoundTrip(id: StreamId)
    ensures ParseId(IdText(id)) == Some(id) <==> Natural(id)
  {
    var raw := IdText(id);
    if Natural(id) {
      DigitsOnly(id.milliseconds);
      DigitsOnly(id.sequence);
      hide FormatInt, ParseInt, ParseNonNegative;
      var n := |FormatInt(id.milliseconds)|;
      assert raw[n] == DASH && forall j | 0 <= j < n :: raw[j] == FormatInt(id.milliseconds)[j];
      assert FirstDash(raw) == n;
      assert raw[..n] == FormatInt(id.milliseconds) && raw[n + 1..] == FormatInt(id.sequence);
    } else {
      ParsedNatural(raw);
    }
  }

  lemma ParsedNatural(raw: Bytes)
    ensures ParseId(raw).Some? ==> Natural(ParseId(raw).value)
  {
  }

  /** An ID is two numerals without a sign before either but a plus, with one dash between them. */
  lemma ParseIdExactly(raw: Bytes, id: StreamId)
    ensures ParseId(raw) == Some(id) <==>
              exists left, right ::
                && Denotes(left, id.milliseconds) && Denotes(right, id.sequence)
                && raw == left + [DASH] + right && DASH !in left && DASH !in right
  {
    hide ParseInt, Denotes;
    if ParseId(raw) == Some(id) {
      var i := FirstDash(raw);
      var left, right := raw[..i], raw[i + 1..];
      ParseIntMeaning(left, id.milliseconds);
      ParseIntMeaning(right, id.sequence);
      assert raw == left + [DASH] + right;
    }
    if left, right :|
      && Denotes(left, id.milliseconds) && Denotes(right, id.sequence)
      && raw == left + [DASH] + right && DASH !in left && DASH !in right
    {
      UnsignedNumeral(left, id.milliseconds);
      UnsignedNumeral(right, id.sequence);
      ParseIntMeaning(left, id.milliseconds);
      ParseIntMeaning(right, id.sequence);
      assert raw[|left|] == DASH && forall j | 0 <= j < |left| :: raw[j] == left[j];
      assert FirstDash(raw) == |left|;
      assert raw[..|left|] == left && raw[|left| + 1..] == right;
    }
  }

  lemma UnsignedNumeral(raw: Bytes, n: int)
    requires Denotes(raw, n) && DASH !in raw
    ensures n >= 0 && raw != []
  {
  }

  /** `parseStreamReadID` */
  function ParseReadId(raw: Bytes, latest: StreamId): Option<StreamId> {
    if raw == DOLLAR then Some(latest)
    else if FirstDash(raw) == |raw| then
      match ParseNonNegative(raw)
      case Some(milliseconds) => Some(StreamId(milliseconds, 0))
      case None => None
    else ParseId(raw)
  }

  // ----- the stream -----

  ghost predicate Increasing(entries: seq<StreamEntry>) {
    forall i, j | 0 <= i < j < |entries| :: entries[i].id.Less(entries[j].id)
  }

  /** The entries behind an ID. */
  ghost function After(entries: seq<StreamEntry>, id: StreamId): seq<StreamEntry> {
    if entries == [] then []
    else (if id.Less(entries[0].id) then [entries[0]] else []) + After(entries[1..], id)
  }

  lemma {:induction false} AfterSuffix(entries: seq<StreamEntry>, id: StreamId, n: nat)
    requires Increasing(entries) && n <= |entries|
    requires n > 0 ==> !id.Less(entries[n - 1].id)
    requires n < |entries| ==> id.Less(entries[n].id)
    ensures After(entries, id) == entries[n..]
    decreases |entries|
  {
    if entries != [] {
      AfterSuffix(entries[1..], id, if n == 0 then 0 else n - 1);
    }
  }

  /** One more, in 64 bits. */
  function Increment(sequence: int64): int64 {
    if sequence == MAX_INT then -MAX_ABS else sequence + 1
  }

  datatype Added = Added(id: StreamId) | BadId | TooSmall

  /** `nextAutoID`, behind the entries there are */
  function NextAutoId(entries: seq<StreamEntry>, now: int64): StreamId {
    if entries == [] then StreamId(now, 0)
    else
      var last := entries[|entries| - 1].id;
      if now > last.milliseconds then StreamId(now, 0) else StreamId(last.milliseconds, Increment(last.sequence))
  }

  /** It is the least one behind the last entry that is not before the clock, unless it wraps around. */
  lemma NextAutoIdLeast(entries: seq<StreamEntry>, now: int64)
    requires !Exhausted(entries, now)
    ensures
      var id := NextAutoId(entries, now);
      && id.milliseconds >= now && (entries != [] ==> entries[|entries| - 1].id.Less(id))
      && forall other: StreamId | other.milliseconds >= now && other.sequence >= 0
                                  && (entries != [] ==> entries[|entries| - 1].id.Less(other)) :: !other.Less(id)
  {
  }

  /** The next automatic ID wraps around. */
  predicate Exhausted(entries: seq<StreamEntry>, now: int64) {
    entries != [] && now <= entries[|entries| - 1].id.milliseconds && entries[|entries| - 1].id.sequence == MAX_INT
  }

  /** The ID under which an entry goes behind those there are, or why it does not. */
  function Admitted(entries: seq<StreamEntry>, rawId: Bytes, now: int64): Added {
    if rawId == STAR then Added(NextAutoId(entries, now))
    else
      match ParseId(rawId)
      case None => BadId
      case Some(id) => if entries != [] && !entries[|entries| - 1].id.Less(id) then TooSmall else Added(id)
  }

  /** Entries in order stay so exactly when the new ID is no automatic one that wraps around. */
  lemma AdmittedInOrder(entries: seq<StreamEntry>, rawId: Bytes, values: seq<Bytes>, now: int64)
    requires Increasing(entries) && Admitted(entries, rawId, now).Added?
    ensures Increasing(entries + [StreamEntry(Admitted(entries, rawId, now).id, values)])
            <==> !(rawId == STAR && Exhausted(entries, now))
  {
    hide ParseId;
    IncreasingMore(entries, StreamEntry(Admitted(entries, rawId, now).id, values));
  }

  class StreamValue {
    var entries: seq<StreamEntry>
    var lastId: StreamId
    var hasEntries: bool

    ghost predicate Valid()
      reads this
    {
      && hasEntries == (entries != [])
      && (hasEntries ==> lastId == entries[|entries| - 1].id)
    }

    constructor ()
      ensures Valid() && entries == []
    {
      entries, lastId, hasEntries := [], StreamId(0, 0), false;
    }

    /** `add` */
    method Add(rawId: Bytes, values: seq<Bytes>, now: int64) returns (r: Added)
      requires Valid()
      modifies this
      ensures Valid()
      ensures r == Admitted(old(entries), rawId, now)
      ensures entries == old(entries) + if r.Added? then [StreamEntry(r.id, values)] else []
      ensures old(Increasing(entries)) ==> (Increasing(entries) <==> !(rawId == STAR && old(Exhausted(entries, now))))
    {
      hide ParseId;
      var id: StreamId;
      if rawId == STAR {
        if !hasEntries {
          id := StreamId(now, 0);
        } else if now < lastId.milliseconds {
          id := StreamId(lastId.milliseconds, Increment(lastId.sequence));
        } else if now == lastId.milliseconds {
          id := StreamId(now, Increment(lastId.sequence));
        } else {
          id := StreamId(now, 0);
        }
      } else {
        var parsed := ParseId(rawId);
        if parsed.None? {
          return BadId;
        }
        id := parsed.value;
        if hasEntries && !lastId.Less(id) {
          return TooSmall;
        }
      }
      IncreasingMore(entries, StreamEntry(id, values));
      entries := entries + [StreamEntry(id, values)];
      lastId, hasEntries := id, true;
      return Added(id);
    }

    /**
     `entriesAfter`; a stream without entries answers before it looks at the ID. The
     search ends at a place where the entries pass the ID, the only one if they are in order.
     */
    method EntriesAfter(rawId: Bytes) returns (r: Option<seq<StreamEntry>>)
      requires Valid()
      ensures entries == [] ==> r == Some([])
      ensures entries != [] ==>
                match ParseReadId(rawId, lastId)
                case None => r == None
                case Some(id) =>
                  && r.Some? && Behind(entries, id, r.value)
                  && (Increasing(entries) ==> r == Some(After(entries, id)))
    {
      hide ParseReadId;
      if entries == [] {
        return Some([]);
      }
      var parsed := ParseReadId(rawId, lastId);
      if parsed.None? {
        return None;
      }
      var after := parsed.value;
      var low, high := 0, |entries|;
      while low < high
        invariant 0 <= low <= high <= |entries|
        invariant low > 0 ==> !after.Less(entries[low - 1].id)
        invariant high < |entries| ==> after.Less(entries[high].id)
      {
        var middle := (low + high) / 2;
        if after.Less(entries[middle].id) {
          high := middle;
        } else {
          low := middle + 1;
        }
      }
      assert Behind(entries, after, entries[low..]);
      if Increasing(entries) {
        AfterSuffix(entries, after, low);
      }
      return Some(entries[low..]);
    }
  }

  /** A tail of the entries, with one behind the ID first and none behind it right before. */
  ghost predicate Behind(entries: seq<StreamEntry>, id: StreamId, tail: seq<StreamEntry>) {
    && |tail| <= |entries| && tail == entries[|entries| - |tail|..]
    && (tail != [] ==> id.Less(tail[0].id))
    && (|tail| < |entries| ==> !id.Less(entries[|entries| - |tail| - 1].id))
  }

  /** Entries stay in order when one is added exactly when its ID is above the last. */
  lemma IncreasingMore(entries: seq<StreamEntry>, e: StreamEntry)
    ensures Increasing(entries) ==>
              (Increasing(entries + [e]) <==> entries == [] || entries[|entries| - 1].id.Less(e.id))
  {
    var all := entries + [e];
    if Increasing(entries) && entries != [] {
      var n := |entries| - 1;
      assert all[n] == entries[n] && all[n + 1] == e;
    }
  }

  /** An automatic ID behind the greatest sequence number comes before it. */
  method AutoIdWraps() returns (stream: StreamValue)
    ensures fresh(stream) && stream.Valid() && |stream.entries| == 2 && !Increasing(stream.entries)
  {
    stream := new StreamValue();
    var last := StreamId(5, MAX_INT);
    IdRoundTrip(last);
    hide IdText, ParseId;
    assert IdText(last) != STAR by { DashedText(last); }
    var first := stream.Add(IdText(last), [[97], [98]], 5);
    var second := stream.Add(STAR, [[97], [98]], 5);
  }

  lemma DashedText(id: StreamId)
    ensures DASH in IdText(id)
  {
    assert IdText(id)[|FormatInt(id.milliseconds)|] == DASH;
  }
}
