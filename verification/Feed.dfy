/**
 What a byte stream means to a connection, and the reading half of the connection
 state machine (internal/server/conn_machine.go) as a function of its state.
 */
module Feeding {
  import opened Order
  import opened Resp
  import opened Decoder

  datatype Cause = Malformed(failure: Failure) | TooLarge
  datatype Event = Request(value: Value) | ProtocolError(cause: Cause)

  /** The events of a stream, and either the undecoded rest with its hint or a dead end. */
  datatype Reading = Reading(events: seq<Event>, rest: Bytes, need: nat, dead: bool) {
    function After(earlier: seq<Event>): Reading {
      Reading(earlier + events, rest, need, dead)
    }
  }

  function Parse(buf: Bytes): (r: Reading)
    ensures !r.dead ==> Decode(r.rest, 0) == Incomplete(r.need)
    decreases |buf|
  {
    match Decode(buf, 0)
    case Frame(v, n) =>
      var r := Parse(buf[n..]);
      r.After([Request(v)])
    case Incomplete(need) => Reading([], buf, need, false)
    case Bad(e) => Reading([ProtocolError(Malformed(e))], [], 0, true)
  }

  /** The reader: `open` in the active state, `resumeAt` the length below which decoding is pointless. */
  datatype Reader = Reader(open: bool, buf: Bytes, resumeAt: nat)

  /** One call of `Feed`: the new reader and the events it queues. */
  function Feed(r: Reader, data: Bytes, maxRead: nat): (Reader, seq<Event>) {
    if !r.open then (r, [])
    else
      var buf := r.buf + data;
      if r.resumeAt > 0 && |buf| < r.resumeAt then (Reader(true, buf, r.resumeAt), [])
      else
        var p := Parse(buf);
        if p.dead then (Reader(false, [], 0), p.events)
        else if |p.rest| > maxRead || p.need > maxRead then
          (Reader(false, [], 0), p.events + [ProtocolError(TooLarge)])
        else (Reader(true, p.rest, p.need), p.events)
  }

  const FRESH := Reader(true, [], 0)
  const CLOSED := Reader(false, [], 0)

  /** The reader after a run of chunks, and all events queued on the way. */
  function FeedAll(chunks: seq<Bytes>, maxRead: nat): (Reader, seq<Event>) {
    if chunks == [] then (FRESH, [])
    else
      var (r, events) := FeedAll(chunks[..|chunks| - 1], maxRead);
      var (r', more) := Feed(r, chunks[|chunks| - 1], maxRead);
      (r', events + more)
  }

  function Concat(chunks: seq<Bytes>): Bytes {
    if chunks == [] then [] else Concat(chunks[..|chunks| - 1]) + chunks[|chunks| - 1]
  }

  /** At no point of the stream is the unfinished frame, or what it is known to need, over the limit. */
  ghost predicate Fits(stream: Bytes, maxRead: nat) {
    forall k | 0 <= k <= |stream| :: PointFits(stream[..k], maxRead)
  }

  ghost predicate PointFits(prefix: Bytes, maxRead: nat) {
    !Parse(prefix).dead ==> |Parse(prefix).rest| <= maxRead && Parse(prefix).need <= maxRead
  }

  lemma ParseIncomplete(buf: Bytes)
    ensures Decode(buf, 0).Incomplete? ==> Parse(buf) == Reading([], buf, Decode(buf, 0).need, false)
    ensures Parse([]) == Reading([], [], 0, false)
  {
  }

  /** The requests of a stream come before the error that ends it, and the limit is not the stream's business. */
  lemma {:induction false} ParseEvents(buf: Bytes)
    ensures forall i | 0 <= i < |Parse(buf).events| ::
              Parse(buf).events[i].ProtocolError? <==> Parse(buf).dead && i == |Parse(buf).events| - 1
    ensures Parse(buf).dead ==> Parse(buf).events != []
    ensures ProtocolError(TooLarge) !in Parse(buf).events
    decreases |buf|
  {
    hide Decode;
    match Decode(buf, 0)
    case Frame(v, n) => ParseEvents(buf[n..]);
    case Incomplete(_) =>
    case Bad(_) =>
  }

  lemma FeedOne(data: Bytes, maxRead: nat)
    ensures FeedAll([data], maxRead) == Feed(FRESH, data, maxRead)
    ensures FRESH.buf + data == data && Concat([data]) == data
  {
    hide Parse;
    var none: seq<Bytes> := [];
    assert [data][..0] == none;
    var (r, more) := Feed(FRESH, data, maxRead);
    assert [] + more == more;
  }

  lemma ParseStep(buf: Bytes)
    ensures Decode(buf, 0).Frame? ==>
              Parse(buf) == Parse(buf[Decode(buf, 0).n..]).After([Request(Decode(buf, 0).value)])
    ensures Decode(buf, 0).Bad? ==> Parse(buf) == Reading([ProtocolError(Malformed(Decode(buf, 0).error))], [], 0, true)
  {
  }

  /** Parsing may stop anywhere and go on with the rest. */
  lemma {:induction false} ParseResumes(a: Bytes, b: Bytes)
    ensures Parse(a).dead ==> Parse(a + b) == Parse(a)
    ensures !Parse(a).dead ==> Parse(a + b) == Parse(Parse(a).rest + b).After(Parse(a).events)
    decreases |a|
  {
    hide Decode, Parse;
    DecodeStable(a, b, 0);
    ParseStep(a);
    ParseStep(a + b);
    ParseIncomplete(a);
    match Decode(a, 0)
    case Frame(v, n) =>
      assert (a + b)[n..] == a[n..] + b;
      ParseResumes(a[n..], b);
      var tail := Parse(Parse(a[n..]).rest + b).events;
      assert [Request(v)] + (Parse(a[n..]).events + tail) == [Request(v)] + Parse(a[n..]).events + tail;
    case Incomplete(_) =>
    case Bad(_) =>
  }

  /** The reader that has parsed so far. */
  function ReaderOf(p: Reading): Reader {
    if p.dead then CLOSED else Reader(true, p.rest, p.need)
  }

  /** One more chunk, for a reader that has queued exactly the events of what it was fed. */
  lemma FeedStep(fed: Bytes, data: Bytes, maxRead: nat)
    ensures
      var (r, more) := Feed(ReaderOf(Parse(fed)), data, maxRead);
      var p := Parse(fed + data);
      if PointFits(fed + data, maxRead)
      then r == ReaderOf(p) && Parse(fed).events + more == p.events
      else
        || (r == CLOSED && Parse(fed).events + more == p.events + [ProtocolError(TooLarge)])
        || !PointFits(fed, maxRead)
  {
    hide Decode, Parse;
    ParseResumes(fed, data);
    var before := Parse(fed);
    if !before.dead {
      var buf := before.rest + data;
      if before.need > 0 && |buf| < before.need {
        DecodeStable(before.rest, data, 0);
        ParseIncomplete(buf);
        assert before.events + [] == before.events;
      } else if !Parse(buf).dead {
        assert before.events + (Parse(buf).events + [ProtocolError(TooLarge)])
               == before.events + Parse(buf).events + [ProtocolError(TooLarge)];
      }
    } else {
      assert before.events + [] == before.events;
    }
  }

  /** The reader notices nothing before `n` chunks are in, and then a frame that is too large. */
  ghost predicate Noticed(chunks: seq<Bytes>, n: nat, maxRead: nat) {
    && n <= |chunks| && !PointFits(Concat(chunks[..n]), maxRead)
    && FeedAll(chunks, maxRead) == (CLOSED, Parse(Concat(chunks[..n])).events + [ProtocolError(TooLarge)])
  }

  /** The reader is where parsing what it was fed leads. */
  ghost predicate InStep(chunks: seq<Bytes>, maxRead: nat) {
    var fed := Concat(chunks);
    PointFits(fed, maxRead) && FeedAll(chunks, maxRead) == (ReaderOf(Parse(fed)), Parse(fed).events)
  }

  lemma NoticedStays(before: seq<Bytes>, last: Bytes, n: nat, maxRead: nat)
    requires Noticed(before, n, maxRead)
    ensures Noticed(before + [last], n, maxRead)
  {
    hide Parse;
    var chunks := before + [last];
    assert chunks[..|before|] == before && chunks[..n] == before[..n];
    assert FeedAll(before, maxRead).1 + [] == FeedAll(before, maxRead).1;
  }

  lemma InStepGoesOn(before: seq<Bytes>, last: Bytes, maxRead: nat)
    requires InStep(before, maxRead)
    ensures InStep(before + [last], maxRead) || Noticed(before + [last], |before| + 1, maxRead)
  {
    hide Parse, Feed, PointFits;
    var chunks := before + [last];
    assert chunks[..|before|] == before && chunks[..|before| + 1] == chunks;
    FeedStep(Concat(before), last, maxRead);
  }

  /** It is, or it has stopped at the first end of a chunk that did not fit. */
  lemma {:induction false} FeedAllIs(chunks: seq<Bytes>, maxRead: nat)
    ensures InStep(chunks, maxRead) || exists n: nat :: Noticed(chunks, n, maxRead)
  {
    if chunks == [] {
      ParseIncomplete([]);
    } else {
      hide InStep, Noticed;
      var n := |chunks| - 1;
      FeedAllIs(chunks[..n], maxRead);
      assert chunks == chunks[..n] + [chunks[n]];
      if InStep(chunks[..n], maxRead) {
        InStepGoesOn(chunks[..n], chunks[n], maxRead);
      } else {
        var m: nat :| Noticed(chunks[..n], m, maxRead);
        NoticedStays(chunks[..n], chunks[n], m, maxRead);
      }
    }
  }

  /** Where it has stopped, a prefix of the stream does not fit. */
  lemma NoticedPrefix(chunks: seq<Bytes>, n: nat, maxRead: nat) returns (k: nat)
    requires Noticed(chunks, n, maxRead)
    ensures
      var stream := Concat(chunks);
      && k <= |stream| && !PointFits(stream[..k], maxRead)
      && FeedAll(chunks, maxRead).1 == Parse(stream[..k]).events + [ProtocolError(TooLarge)]
  {
    hide Parse, FeedAll, PointFits;
    ConcatPrefix(chunks, n);
    k := |Concat(chunks[..n])|;
  }

  lemma {:induction false} ConcatPrefix(chunks: seq<Bytes>, n: nat)
    requires n <= |chunks|
    ensures |Concat(chunks[..n])| <= |Concat(chunks)| && Concat(chunks[..n]) == Concat(chunks)[..|Concat(chunks[..n])|]
  {
    if n < |chunks| {
      var before := chunks[..|chunks| - 1];
      ConcatPrefix(before, n);
      assert before[..n] == chunks[..n];
    } else {
      assert chunks[..n] == chunks;
    }
  }

  /**
   However a stream that fits is cut into chunks, the events queued are those of the
   stream fed whole: every request in order, then at most one protocol error.
   */
  lemma ChunkingIrrelevant(chunks: seq<Bytes>, maxRead: nat)
    requires Fits(Concat(chunks), maxRead)
    ensures FeedAll(chunks, maxRead).1 == FeedAll([Concat(chunks)], maxRead).1 == Parse(Concat(chunks)).events
    ensures FeedAll(chunks, maxRead).0 == ReaderOf(Parse(Concat(chunks)))
  {
    hide Parse, FeedAll, PointFits, Noticed;
    var stream := Concat(chunks);
    FeedAllIs(chunks, maxRead);
    if !InStep(chunks, maxRead) {
      var n: nat :| Noticed(chunks, n, maxRead);
      var k := NoticedPrefix(chunks, n, maxRead);
      assert false;
    }
    WholeIs(stream, maxRead);
    assert stream[..|stream|] == stream;
    assert Parse(stream).events + [] == Parse(stream).events;
  }

  /** The events of a stream fed whole. */
  lemma WholeIs(stream: Bytes, maxRead: nat)
    ensures FeedAll([stream], maxRead).1 ==
            Parse(stream).events + if PointFits(stream, maxRead) then [] else [ProtocolError(TooLarge)]
  {
    hide Parse;
    FeedOne(stream, maxRead);
    ParseIncomplete([]);
    FeedStep([], stream, maxRead);
    assert [] + stream == stream;
    assert Parse(stream).events + [] == Parse(stream).events;
  }

  /** Fitting is what it takes for the cuts to make no difference to the reading without a limit. */
  lemma UnlimitedExactly(stream: Bytes, maxRead: nat)
    ensures Fits(stream, maxRead) <==>
              forall chunks :: Concat(chunks) == stream ==> FeedAll(chunks, maxRead).1 == Parse(stream).events
  {
    if Fits(stream, maxRead) {
      forall chunks | Concat(chunks) == stream ensures FeedAll(chunks, maxRead).1 == Parse(stream).events {
        ChunkingIrrelevant(chunks, maxRead);
      }
    } else {
      var k :| 0 <= k <= |stream| && !PointFits(stream[..k], maxRead);
      var chunks := [stream[..k], stream[k..]];
      TwoChunks(stream, k, maxRead);
      assert Concat(chunks) == stream && FeedAll(chunks, maxRead).1 != Parse(stream).events;
    }
  }

  /** No request is complete after the first moment at which the unfinished frame is too large. */
  ghost predicate StaysTooLarge(stream: Bytes, maxRead: nat) {
    && !PointFits(stream, maxRead)
    && forall k | 0 <= k <= |stream| && !PointFits(stream[..k], maxRead) ::
         Parse(stream[..k]).events == Parse(stream).events
  }

  /**
   The cuts make no difference to what the stream fed whole gives exactly when it fits,
   or when it ends in a frame that is too large from the moment it first is.
   */
  lemma ChunkingExactly(stream: Bytes, maxRead: nat)
    ensures Fits(stream, maxRead) || StaysTooLarge(stream, maxRead) <==>
              forall chunks :: Concat(chunks) == stream ==> FeedAll(chunks, maxRead).1 == FeedAll([stream], maxRead).1
  {
    hide Parse, FeedAll, PointFits, Noticed, Fits;
    WholeIs(stream, maxRead);
    if Fits(stream, maxRead) || StaysTooLarge(stream, maxRead) {
      forall chunks | Concat(chunks) == stream ensures FeedAll(chunks, maxRead).1 == FeedAll([stream], maxRead).1 {
        if Fits(stream, maxRead) {
          ChunkingIrrelevant(chunks, maxRead);
        } else {
          FeedAllIs(chunks, maxRead);
          var n: nat :| Noticed(chunks, n, maxRead);
          var k := NoticedPrefix(chunks, n, maxRead);
        }
      }
    } else {
      var k := Betrayed(stream, maxRead);
      TwoChunks(stream, k, maxRead);
      assert Parse(stream).events + [] == Parse(stream).events;
      SameBefore(Parse(stream[..k]).events, Parse(stream).events, ProtocolError(TooLarge));
      var chunks := [stream[..k], stream[k..]];
      assert Concat(chunks) == stream && FeedAll(chunks, maxRead).1 != FeedAll([stream], maxRead).1;
    }
  }

  lemma SameBefore(a: seq<Event>, b: seq<Event>, e: Event)
    ensures a + [e] == b + [e] ==> a == b
  {
    if a + [e] == b + [e] {
      assert |a| == |b| && a == (a + [e])[..|a|] && b == (b + [e])[..|b|];
    }
  }

  /** A place to cut a stream that neither fits nor stays too large. */
  lemma Betrayed(stream: Bytes, maxRead: nat) returns (k: nat)
    requires !Fits(stream, maxRead) && !StaysTooLarge(stream, maxRead)
    ensures k <= |stream| && !PointFits(stream[..k], maxRead)
    ensures !PointFits(stream, maxRead) ==> Parse(stream[..k]).events != Parse(stream).events
  {
    if PointFits(stream, maxRead) {
      k :| 0 <= k <= |stream| && !PointFits(stream[..k], maxRead);
    } else {
      k :| 0 <= k <= |stream| && !PointFits(stream[..k], maxRead) && Parse(stream[..k]).events != Parse(stream).events;
    }
  }

  /** Cut where the unfinished frame is too large, the stream ends there. */
  lemma TwoChunks(stream: Bytes, k: nat, maxRead: nat)
    requires k <= |stream| && !PointFits(stream[..k], maxRead)
    ensures Concat([stream[..k], stream[k..]]) == stream
    ensures FeedAll([stream[..k], stream[k..]], maxRead).1 == Parse(stream[..k]).events + [ProtocolError(TooLarge)]
    ensures FeedAll([stream[..k], stream[k..]], maxRead).1 != Parse(stream).events
  {
    hide Decode, Parse;
    var a, b := stream[..k], stream[k..];
    var chunks := [a, b];
    assert chunks[..1] == [a];
    FeedOne(a, maxRead);
    assert Concat(chunks) == a + b == stream;
    var one := FeedAll([a], maxRead);
    assert one == (CLOSED, Parse(a).events + [ProtocolError(TooLarge)]);
    assert FeedAll(chunks, maxRead).1 == one.1 + [];
    assert one.1[|one.1| - 1] == ProtocolError(TooLarge);
    ParseEvents(stream);
  }

  /** One byte is too large for a reader that takes none, however it comes. */
  lemma AlwaysTooLarge()
    ensures !Fits([43], 0) && StaysTooLarge([43], 0)
  {
    var stream: Bytes := [43];
    assert LineFeed([]) == 0;
    assert Decode(stream, 0) == Incomplete(0);
    assert stream[..1] == stream && stream[..0] == [];
  }

  // ----- streams of encoded requests -----

  function Requests(vs: seq<Value>): seq<Event> {
    if vs == [] then [] else [Request(Normal(vs[0]))] + Requests(vs[1..])
  }

  /** A pipeline of encoded requests that are no larger than the limit, cut off anywhere, fits. */
  lemma {:induction false} PipelineFits(vs: seq<Value>, k: nat, maxRead: nat)
    requires k <= |EncodeAll(vs)|
    requires forall v | v in vs :: Encodable(v, 0) && |Encode(v)| <= maxRead
    ensures PointFits(EncodeAll(vs)[..k], maxRead)
    ensures k == |EncodeAll(vs)| ==> Parse(EncodeAll(vs)[..k]) == Reading(Requests(vs), [], 0, false)
    decreases |vs|
  {
    hide Decode, Encode, Encodable;
    var all := EncodeAll(vs);
    ParseIncomplete(all[..k]);
    if vs == [] {
      assert all[..k] == [];
    } else {
      EncodeAllHead(vs);
      var enc, tail := Encode(vs[0]), EncodeAll(vs[1..]);
      assert vs[0] in vs && forall v | v in vs[1..] :: v in vs;
      if k < |enc| {
        assert all[..k] == enc[..k];
        PrefixIncomplete(vs[0], k);
      } else {
        assert all[..k] == enc + tail[..k - |enc|];
        RoundTrip(vs[0], tail[..k - |enc|], 0);
        assert all[..k][|enc|..] == tail[..k - |enc|];
        PipelineFits(vs[1..], k - |enc|, maxRead);
      }
    }
  }

  /** Requests sent in a pipeline come out as sent, in order, however the bytes are cut. */
  lemma PipelineArrives(vs: seq<Value>, chunks: seq<Bytes>, maxRead: nat)
    requires Concat(chunks) == EncodeAll(vs)
    requires forall v | v in vs :: Encodable(v, 0) && |Encode(v)| <= maxRead
    ensures FeedAll(chunks, maxRead).1 == Requests(vs)
  {
    var all := EncodeAll(vs);
    forall k | 0 <= k <= |all| ensures PointFits(all[..k], maxRead) {
      PipelineFits(vs, k, maxRead);
    }
    ChunkingIrrelevant(chunks, maxRead);
    PipelineFits(vs, |all|, maxRead);
    assert all[..|all|] == all;
  }
}
