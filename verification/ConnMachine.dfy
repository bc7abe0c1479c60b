/**
 The non-blocking connection state machine (internal/server/conn_machine.go).
 */
module ConnMachines {
  import opened Order
  import opened Resp
  import opened Decoder
  import opened Feeding

  datatype State = Active | Closing | Closed

  function Rank(s: State): nat { match s case Active => 0 case Closing => 1 case Closed => 2 }

  datatype RunResult = Replies(values: seq<Value>) | Fatal

  /** One contribution to the output: the replies to the event with that number, or a pushed payload. */
  datatype Output = Reply(event: nat, bytes: Bytes) | Push(bytes: Bytes)

  ghost function Written(log: seq<Output>): Bytes {
    if log == [] then [] else Written(log[..|log| - 1]) + log[|log| - 1].bytes
  }

  predicate IsReply(o: Output, event: nat) {
    o.Reply? && o.event == event
  }

  /** The event is answered among the first `n` contributions. */
  ghost predicate Answered(log: seq<Output>, n: nat, event: nat)
    requires n <= |log|
  {
    exists j | 0 <= j < n :: IsReply(log[j], event)
  }

  /** The replies of the log answer the events numbered 0 to n-1, in that order. */
  ghost predicate Answers(log: seq<Output>, n: nat) {
    if log == [] then n == 0
    else
      var last, before := log[|log| - 1], log[..|log| - 1];
      match last
      case Push(_) => Answers(before, n)
      case Reply(e, _) => n == e + 1 && Answers(before, e)
  }

  /** The start of an error reply: `ERR` and a space. */
  const ERR: Bytes := [69, 82, 82, 32]

  /** What an event is answered with: the runner's replies, or the error reply. */
  ghost function Answer(event: Event, run: Value -> RunResult, describe: Cause -> Bytes): RunResult {
    match event
    case Request(v) => run(v)
    case ProtocolError(cause) => Replies([Error([69, 82, 82, 32] + describe(cause))])
  }

  class ConnMachine {
    var state: State
    var readBuf: Bytes
    var resumeAt: nat
    const maxRead: nat
    const maxWrite: nat
    var pending: seq<Event>
    var writeBuf: Bytes
    var writeOff: nat
    /** The text of a protocol error. */
    const describe: Cause -> Bytes

    /** Everything queued so far, and how much of it has been handled. */
    ghost var queued: seq<Event>
    ghost var handled: nat
    /** The bytes the socket has accepted, and the output produced. */
    ghost var sent: Bytes
    ghost var log: seq<Output>

    /** Only the last event queued can be a protocol error, and then reading has stopped. */
    ghost predicate QueueOk()
      reads this`queued, this`state
    {
      && (forall i | 0 <= i < |queued| - 1 :: queued[i].Request?)
      && (state == Active ==> queued == [] || queued[|queued| - 1].Request?)
    }

    /** What the socket accepted followed by what is pending is what was produced. */
    ghost predicate Conserved()
      reads this`writeBuf, this`writeOff, this`sent, this`log
    {
      && writeOff <= |writeBuf|
      && |writeBuf| - writeOff <= maxWrite
      && sent + writeBuf[writeOff..] == Written(log)
    }

    ghost predicate Valid()
      reads this
    {
      && writeOff <= |writeBuf|
      && handled <= |queued|
      && QueueOk()
      && Answers(log, handled) && sent <= Written(log)
      && (state != Closed ==> pending == queued[handled..] && Conserved())
    }

    ghost function Reading(): Reader
      reads this
    {
      Reader(state == Active, readBuf, resumeAt)
    }

    constructor (maxRead: nat, maxWrite: nat, describe: Cause -> Bytes)
      ensures Valid() && state == Active && Reading() == FRESH
      ensures queued == [] && sent == [] && log == []
      ensures this.maxRead == maxRead && this.maxWrite == maxWrite
    {
      this.maxRead, this.maxWrite, this.describe := maxRead, maxWrite, describe;
      state, readBuf, resumeAt, pending, writeBuf, writeOff := Active, [], 0, [], [], 0;
      queued, handled, sent, log := [], 0, [], [];
    }

    /** `Feed`: queues the events the new bytes complete; refuses input unless active. */
    method Feed(data: Bytes) returns (ok: bool)
      requires Valid()
      modifies this`state, this`readBuf, this`resumeAt, this`pending, this`queued
      ensures Valid()
      ensures ok <==> old(state) == Active
      ensures ok ==>
                var (r, more) := Feeding.Feed(old(Reading()), data, maxRead);
                Reading() == r && queued == old(queued) + more && state != Closed
      ensures !ok ==>
                Reading() == old(Reading()) && state == old(state) && queued == old(queued) && pending == old(pending)
    {
      hide Decode, Parse, Conserved, Answers, QueueOk, Written;
      if state != Active { return false; }
      readBuf := readBuf + data;
      if resumeAt > 0 && |readBuf| < resumeAt { return true; }
      ghost var all := readBuf;
      ParseEvents(all);
      var requests, consumed, stop := Drain(readBuf);
      Queue(requests);
      if stop.Bad? {
        EnterProtocolError(Malformed(stop.error));
        return true;
      }
      resumeAt := stop.need;
      readBuf := readBuf[consumed..];
      if |readBuf| > maxRead || resumeAt > maxRead {
        EnterProtocolError(TooLarge);
      }
      return true;
    }

    method Queue(requests: seq<Event>)
      requires Valid() && state == Active && forall e | e in requests :: e.Request?
      modifies this`pending, this`queued
      ensures Valid() && queued == old(queued) + requests
    {
      hide Conserved, Answers;
      pending := pending + requests;
      queued := queued + requests;
      assert forall i | 0 <= i < |requests| :: requests[i] in requests;
    }

    /** `enterProtocolError`: queues the error behind the requests and stops reading. */
    method EnterProtocolError(cause: Cause)
      requires Valid() && state == Active
      modifies this`state, this`readBuf, this`resumeAt, this`pending, this`queued
      ensures Valid() && state == Closing && readBuf == [] && resumeAt == 0
      ensures queued == old(queued) + [ProtocolError(cause)]
    {
      hide Conserved, Answers;
      pending := pending + [ProtocolError(cause)];
      queued := queued + [ProtocolError(cause)];
      state, readBuf, resumeAt := Closing, [], 0;
    }

    method AnswerTo(event: Event, run: Value -> RunResult) returns (answer: RunResult)
      ensures answer == Answer(event, run, describe)
    {
      if event.ProtocolError? {
        return Replies([Error(ERR + describe(event.cause))]);
      }
      return run(event.value);
    }

    /**
     `ProcessNext`: handles the oldest event. Its replies join the output behind
     everything produced before; a fatal runner or an overfull buffer closes the machine.
     */
    method ProcessNext(run: Value -> RunResult) returns (more: bool, ok: bool)
      requires Valid()
      modifies this
      ensures Valid() && queued == old(queued) && sent == old(sent)
      ensures Rank(state) >= Rank(old(state)) && (state == Active ==> Reading() == old(Reading()))
      ensures old(state) == Closed ==> !ok && !more && log == old(log) && handled == old(handled)
      ensures old(state) != Closed && old(pending) == [] ==>
                ok && !more && state == old(state) && log == old(log) && handled == old(handled)
      ensures old(state) != Closed && old(pending) != [] && ok ==>
                var answer := Answer(old(queued)[old(handled)], run, describe);
                && state == old(state) && handled == old(handled) + 1 && (more <==> handled < |queued|)
                && answer.Replies?
                && log == old(log) + [Reply(old(handled), EncodeAll(answer.values))]
      ensures old(state) != Closed && !ok ==>
                var answer := Answer(old(queued)[old(handled)], run, describe);
                && state == Closed && log == old(log) && handled == old(handled)
                && (answer.Fatal? || |Written(log)| - |sent| + |EncodeAll(answer.values)| > maxWrite)
    {
      hide QueueOk, Written, Answers, EncodeAll, Answer;
      if state == Closed { return false, false; }
      if |pending| == 0 { return false, true; }
      var event := pending[0];
      pending := pending[1..];
      var answer := AnswerTo(event, run);
      if answer.Fatal? {
        Close();
        return false, false;
      }
      assert |writeBuf[writeOff..]| == |Written(log)| - |sent|;
      CompactWriteBuf();
      var encoded := AppendValues(writeBuf, answer.values);
      if |encoded| - writeOff > maxWrite {
        Close();
        return false, false;
      }
      Produce(encoded, EncodeAll(answer.values), Reply(handled, EncodeAll(answer.values)));
      handled := handled + 1;
      return |pending| > 0, true;
    }

    /** The write buffer grows by `bytes`, logged as `item`. */
    method Produce(grown: Bytes, ghost bytes: Bytes, ghost item: Output)
      requires Conserved() && grown == writeBuf + bytes && item.bytes == bytes
      requires |grown| - writeOff <= maxWrite && Answers(log, handled) && (item.Reply? ==> item.event == handled)
      modifies this`writeBuf, this`log
      ensures Conserved() && log == old(log) + [item] && Written(log) == Written(old(log)) + bytes
      ensures Answers(log, if item.Reply? then handled + 1 else handled)
    {
      LogGrows(log, item, handled);
      assert grown[writeOff..] == writeBuf[writeOff..] + bytes;
      hide Written;
      writeBuf := grown;
      log := log + [item];
    }

    /**
     `Flush`: the socket accepts the first `n` pending bytes and may report an error.
     A closing machine with nothing left to answer or send is closed.
     */
    method Flush(n: nat, failed: bool) returns (ok: bool)
      requires Valid() && writeOff + n <= |writeBuf|
      modifies this
      ensures Valid() && queued == old(queued) && log == old(log) && handled == old(handled)
      ensures old(state) == Closed ==> !ok && state == Closed && sent == old(sent)
      ensures old(state) != Closed ==> sent == old(sent) + old(writeBuf[writeOff..writeOff + n])
      ensures old(state) != Closed && state == Closed ==>
                old(state) == Closing && sent == Written(log) && handled == |queued|
      ensures old(state) == Closing && ok && handled == |queued| && sent == Written(log) ==> state == Closed
      ensures state != old(state) ==> state == Closed
      ensures state == Active ==> Reading() == old(Reading())
    {
      hide QueueOk, Written, Answers;
      if state == Closed { return false; }
      if writeOff < |writeBuf| {
        sent := sent + writeBuf[writeOff..writeOff + n];
        writeOff := writeOff + n;
        if writeOff >= |writeBuf| { writeBuf, writeOff := [], 0; }
        if failed { return false; }
      }
      if state == Closing && |writeBuf| - writeOff == 0 && |pending| == 0 {
        Close();
      }
      return true;
    }

    /** `BufferEncoded`: a pushed payload joins the output unless it would overfill it. */
    method BufferEncoded(payload: Bytes) returns (ok: bool)
      requires Valid()
      modifies this`writeBuf, this`writeOff, this`log
      ensures Valid()
      ensures ok <==> state != Closed && (payload == [] || |Written(old(log))| - |sent| + |payload| <= maxWrite)
      ensures Written(log) == Written(old(log)) + if ok then payload else []
      ensures log == old(log) || (ok && log == old(log) + [Push(payload)])
    {
      hide QueueOk, Written, Answers;
      if state == Closed { return false; }
      assert |sent| + |writeBuf[writeOff..]| == |Written(log)|;
      if |payload| == 0 { return true; }
      if |writeBuf| - writeOff + |payload| > maxWrite { return false; }
      CompactWriteBuf();
      Produce(writeBuf + payload, payload, Push(payload));
      return true;
    }

    /** `Close`: drops buffered input and output. */
    method Close()
      requires writeOff <= |writeBuf| && handled <= |queued| && QueueOk()
      requires Answers(log, handled) && sent <= Written(log)
      modifies this`state, this`readBuf, this`resumeAt, this`pending, this`writeBuf, this`writeOff
      ensures Valid() && state == Closed
    {
      if state == Closed { return; }
      state, readBuf, resumeAt, pending, writeBuf, writeOff := Closed, [], 0, [], [], 0;
    }

    /** `Close`, called from outside */
    method Shut()
      requires Valid()
      modifies `state, `readBuf, `resumeAt, `pending, `writeBuf, `writeOff
      ensures Valid() && state == Closed
    {
      Close();
    }

    /** `compactWriteBuf`: drops the flushed prefix once it dominates the buffer. */
    method CompactWriteBuf()
      requires writeOff <= |writeBuf|
      modifies this`writeBuf, this`writeOff
      ensures writeOff <= |writeBuf| && writeBuf[writeOff..] == old(writeBuf[writeOff..])
    {
      if writeOff == 0 || writeOff < |writeBuf| / 2 { return; }
      writeBuf := writeBuf[writeOff..];
      writeOff := 0;
    }

    /**
     The reply to the protocol error comes behind the replies to all requests before it, in order,
     and no reply follows.
     */
    lemma ErrorAnsweredLast(j: nat)
      requires Valid() && j < |log| && log[j].Reply?
      ensures log[j].event < |queued|
      ensures queued[log[j].event].ProtocolError? ==>
                && state != Active
                && (forall e | 0 <= e < log[j].event :: Answered(log, j, e))
                && (forall a, b | 0 <= a < b < |log| && log[a].Reply? && log[b].Reply? :: log[a].event < log[b].event)
                && (forall b | j < b < |log| :: log[b].Push?)
    {
      AnswersInOrder(log, handled);
      hide Answers, Written;
      var i := log[j].event;
      if queued[i].ProtocolError? {
        forall e | 0 <= e < i ensures Answered(log, j, e) {
          assert Answered(log, |log|, e);
          var a :| 0 <= a < |log| && IsReply(log[a], e);
          assert a < j;
        }
      }
    }
  }

  /** The replies come one for each event, in the order of the events. */
  lemma {:induction false} AnswersInOrder(log: seq<Output>, n: nat)
    requires Answers(log, n)
    ensures forall j | 0 <= j < |log| && log[j].Reply? :: log[j].event < n
    ensures forall a, b | 0 <= a < b < |log| && log[a].Reply? && log[b].Reply? :: log[a].event < log[b].event
    ensures forall i | 0 <= i < n :: Answered(log, |log|, i)
  {
    if log != [] {
      var k := |log| - 1;
      var m := if log[k].Reply? then log[k].event else n;
      AnswersInOrder(log[..k], m);
      forall i | 0 <= i < n ensures Answered(log, |log|, i) {
        if i < m {
          assert Answered(log[..k], k, i);
          var j :| 0 <= j < k && IsReply(log[..k][j], i);
          assert IsReply(log[j], i);
        } else {
          assert IsReply(log[k], i);
        }
      }
    }
  }

  datatype Step =
    | Receive(data: Bytes)
    | Process(run: Value -> RunResult)
    | Drained(n: nat, failed: bool)
    | Send(payload: Bytes)
    | Shut

  type Runner = Value -> RunResult

  /** Each reply is the answer of the runner that its event was handed to. */
  ghost predicate Matches(log: seq<Output>, queued: seq<Event>, runners: seq<Runner>, describe: Cause -> Bytes) {
    forall j | 0 <= j < |log| && log[j].Reply? ::
      var i := log[j].event;
      && i < |runners| && i < |queued| && Answer(queued[i], runners[i], describe).Replies?
      && log[j].bytes == EncodeAll(Answer(queued[i], runners[i], describe).values)
  }

  lemma MatchesLater(log: seq<Output>, queued: seq<Event>, more: seq<Event>, runners: seq<Runner>,
                     describe: Cause -> Bytes)
    requires Matches(log, queued, runners, describe)
    ensures Matches(log, queued + more, runners, describe)
  {
    hide EncodeAll, Answer;
  }

  lemma MatchesReply(log: seq<Output>, queued: seq<Event>, runners: seq<Runner>, describe: Cause -> Bytes, run: Runner)
    requires Matches(log, queued, runners, describe) && |runners| < |queued|
    requires Answer(queued[|runners|], run, describe).Replies?
    ensures
      var bytes := EncodeAll(Answer(queued[|runners|], run, describe).values);
      Matches(log + [Reply(|runners|, bytes)], queued, runners + [run], describe)
  {
    hide EncodeAll, Answer;
  }

  lemma MatchesPush(log: seq<Output>, queued: seq<Event>, runners: seq<Runner>, describe: Cause -> Bytes,
                    payload: Bytes)
    requires Matches(log, queued, runners, describe)
    ensures Matches(log + [Push(payload)], queued, runners, describe)
  {
    hide EncodeAll, Answer;
  }

  lemma FeedMore(fed: seq<Bytes>, data: Bytes, maxRead: nat)
    ensures
      var (r, events) := FeedAll(fed, maxRead);
      var (r', more) := Feeding.Feed(r, data, maxRead);
      FeedAll(fed + [data], maxRead) == (r', events + more)
  {
    hide Feeding.Feed;
    assert (fed + [data])[..|fed|] == fed;
  }

  /** `ProcessNext` as one step of a run. */
  method ProcessOne(m: ConnMachine, run: Runner, ghost runners: seq<Runner>) returns (ghost now: seq<Runner>)
    requires m.Valid() && |runners| == m.handled && Matches(m.log, m.queued, runners, m.describe)
    modifies m
    ensures m.Valid() && m.queued == old(m.queued) && Rank(m.state) >= Rank(old(m.state))
    ensures m.state == Active ==> m.Reading() == old(m.Reading())
    ensures |now| == m.handled && Matches(m.log, m.queued, now, m.describe)
  {
    hide Written, Matches, EncodeAll, Answer, Answers;
    now := runners;
    var more, ok := m.ProcessNext(run);
    if m.handled > |runners| {
      MatchesReply(old(m.log), m.queued, runners, m.describe, run);
      now := runners + [run];
    }
  }

  /** The machine has queued the events of what it took, and answered as many as it has handed out. */
  ghost predicate OnTrack(m: ConnMachine, fed: seq<Bytes>, runners: seq<Runner>)
    reads m
  {
    && m.Valid() && m.queued == FeedAll(fed, m.maxRead).1
    && (m.state == Active ==> m.Reading() == FeedAll(fed, m.maxRead).0)
    && |runners| == m.handled && Matches(m.log, m.queued, runners, m.describe)
  }

  method ReceiveOne(m: ConnMachine, data: Bytes, ghost fed: seq<Bytes>, ghost runners: seq<Runner>)
    returns (ghost now: seq<Bytes>)
    requires OnTrack(m, fed, runners)
    modifies m
    ensures OnTrack(m, now, runners)
    ensures now == fed + if old(m.state) == Active then [data] else []
    ensures m.state == Active ==> old(m.state) == Active
  {
    hide Matches, FeedAll, Feeding.Feed, ConnMachine.Valid;
    now := fed;
    ghost var queued := m.queued;
    FeedMore(fed, data, m.maxRead);
    var ok := m.Feed(data);
    if ok {
      MatchesLater(m.log, queued, m.queued[|queued|..], runners, m.describe);
      assert m.queued == queued + m.queued[|queued|..];
      now := fed + [data];
    }
  }

  /** The bytes that arrive over the steps. */
  ghost function Arrivals(steps: seq<Step>): seq<Bytes> {
    if steps == [] then []
    else
      var last := steps[|steps| - 1];
      Arrivals(steps[..|steps| - 1]) + if last.Receive? then [last.data] else []
  }

  lemma ArrivalsNext(steps: seq<Step>, k: nat)
    requires k < |steps|
    ensures Arrivals(steps[..k + 1]) == Arrivals(steps[..k]) + if steps[k].Receive? then [steps[k].data] else []
  {
    assert steps[..k + 1][..k] == steps[..k];
  }

  /**
   Over any run of a connection: it takes all the bytes that arrive until it stops
   reading, at step `until`; the events queued are those of the bytes it took, however
   they were cut, each reply is the answer to its event, in order, and what the
   peer has received is a prefix of the output.
   */
  method Run(m: ConnMachine, steps: seq<Step>)
    returns (ghost fed: seq<Bytes>, ghost runners: seq<Runner>, ghost until: nat)
    requires m.Valid() && m.state == Active && m.Reading() == FRESH && m.queued == [] && m.log == []
    modifies m
    ensures m.Valid() && m.queued == FeedAll(fed, m.maxRead).1 && m.sent <= Written(m.log)
    ensures Fits(Concat(fed), m.maxRead) ==> m.queued == Parse(Concat(fed)).events
    ensures |runners| == m.handled && Matches(m.log, m.queued, runners, m.describe)
    ensures until <= |steps| && fed == Arrivals(steps[..until]) && (m.state == Active ==> until == |steps|)
  {
    fed, runners, until := [], [], 0;
    for k := 0 to |steps|
      invariant OnTrack(m, fed, runners)
      invariant until <= k && fed == Arrivals(steps[..until]) && (m.state == Active ==> until == k)
    {
      hide Matches, FeedAll, Arrivals, ConnMachine.Valid;
      ArrivalsNext(steps, k);
      if m.state == Active { until := k + 1; }
      match steps[k] {
        case Receive(data) =>
          fed := ReceiveOne(m, data, fed, runners);
        case Process(run) =>
          runners := ProcessOne(m, run, runners);
        case Drained(n, failed) =>
          if m.writeOff + n <= |m.writeBuf| {
            var ok := m.Flush(n, failed);
          }
        case Send(payload) =>
          MatchesPush(m.log, m.queued, runners, m.describe, payload);
          var ok := m.BufferEncoded(payload);
        case Shut =>
          m.Shut();
      }
    }
    if Fits(Concat(fed), m.maxRead) {
      ChunkingIrrelevant(fed, m.maxRead);
    }
  }

  lemma LogGrows(log: seq<Output>, item: Output, n: nat)
    requires Answers(log, n) && (item.Reply? ==> item.event == n)
    ensures Written(log + [item]) == Written(log) + item.bytes
    ensures Answers(log + [item], if item.Reply? then n + 1 else n)
  {
    assert (log + [item])[..|log|] == log;
  }

  /** The decoding loop of `Feed`: the complete requests, and why it stopped. */
  method Drain(buf: Bytes) returns (requests: seq<Event>, consumed: nat, stop: Decoded)
    ensures consumed <= |buf| && stop == Decode(buf[consumed..], 0) && !stop.Frame?
    ensures forall e | e in requests :: e.Request?
    ensures Parse(buf) == Parse(buf[consumed..]).After(requests)
    ensures stop.Bad? ==> Parse(buf) == Reading(requests + [ProtocolError(Malformed(stop.error))], [], 0, true)
    ensures stop.Incomplete? ==> Parse(buf) == Reading(requests, buf[consumed..], stop.need, false)
  {
    hide Decode, Parse;
    requests, consumed := [], 0;
    assert buf[0..] == buf && Parse(buf) == Parse(buf).After([]);
    while true
      invariant consumed <= |buf|
      invariant forall e | e in requests :: e.Request?
      invariant Parse(buf) == Parse(buf[consumed..]).After(requests)
      decreases |buf| - consumed
    {
      var rest := buf[consumed..];
      ParseStep(rest);
      ParseIncomplete(rest);
      stop := DecodeValue(rest, 0);
      if !stop.Frame? { break; }
      assert rest[stop.n..] == buf[consumed + stop.n..];
      ghost var tail := Parse(rest[stop.n..]).events;
      assert requests + ([Request(stop.value)] + tail) == requests + [Request(stop.value)] + tail;
      requests := requests + [Request(stop.value)];
      consumed := consumed + stop.n;
    }
    assert requests + [] == requests;
  }
}
