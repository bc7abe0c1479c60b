/**
 Replication offsets and WAIT (internal/server/replication.go,
 internal/command/commands.go). Each propagation, each frame a replica reads and each
 acknowledgement the master reads is one step; a link delivers in order.
 */
module Replicating {
  import opened Order
  import opened Decimal
  import opened Resp

  datatype Id = Id(number: nat)

  /**
   The replica's end of a link: frames not read yet, its offset, acknowledgements under way, and what
   it has applied.
   */
  datatype Link = Link(inbox: seq<Value>, offset: int, outbox: seq<int>, applied: seq<Value>)

  /** The bytes of a stretch of the replication stream. */
  function Volume(frames: seq<Value>): nat {
    |EncodeAll(frames)|
  }

  lemma VolumeOf(frames: seq<Value>, payload: Bytes)
    requires payload == [] + EncodeAll(frames)
    ensures |payload| == Volume(frames)
  {
  }

  lemma {:induction false} VolumeSplit(a: seq<Value>, b: seq<Value>)
    ensures Volume(a + b) == Volume(a) + Volume(b)
    decreases |b|
  {
    if b == [] {
      assert a + b == a;
    } else {
      var n := |b| - 1;
      VolumeSplit(a, b[..n]);
      assert (a + b)[..|a + b| - 1] == a + b[..n];
    }
  }

  lemma VolumePositive(a: seq<Value>)
    ensures a == [] <==> Volume(a) == 0
  {
  }

  lemma VolumeOne(v: Value)
    ensures Volume([v]) == |Encode(v)|
  {
    assert [v][..0] == [];
    assert EncodeAll([v]) == EncodeAll([]) + Encode(v);
  }

  /** What a parser makes of a frame has the frame's own length, which is what the replica counts. */
  lemma {:induction false} NormalLength(v: Value)
    ensures Encode(Normal(v)) == Encode(v)
    decreases v, 0
  {
    match v
    case Array(elements) => NormalLengths(elements);
    case _ =>
  }

  lemma {:induction false} NormalLengths(vs: seq<Value>)
    ensures EncodeAll(NormalAll(vs)) == EncodeAll(vs) && |NormalAll(vs)| == |vs|
    decreases vs, 0
  {
    if vs != [] {
      NormalLength(vs[|vs| - 1]);
      NormalLengths(vs[..|vs| - 1]);
    }
  }

  // ----- what holds of a link -----

  /** A replica that joined after `from` frames of `log`, and has acknowledged `ack`. */
  ghost predicate InStep(log: seq<Value>, from: nat, link: Link, ack: int) {
    && from <= |log|
    && link.applied + link.inbox == log[from..]
    && link.offset == Volume(link.applied)
    && 0 <= ack <= link.offset
    && forall i | 0 <= i < |link.outbox| :: 0 <= link.outbox[i] <= link.offset
  }

  /** Acknowledged, processed and sent, in this order. */
  lemma InStepBounds(log: seq<Value>, from: nat, link: Link, ack: int)
    requires InStep(log, from, link, ack)
    ensures 0 <= ack <= link.offset <= Volume(log) - Volume(log[..from])
  {
    hide Volume;
    VolumeSplit(link.applied, link.inbox);
    VolumeSplit(log[..from], log[from..]);
    assert log[..from] + log[from..] == log;
  }

  /** A replica that WAIT counts for the first `n` frames has processed all of them that were sent to it. */
  lemma CountedHasApplied(log: seq<Value>, from: nat, link: Link, ack: int, n: nat)
    requires InStep(log, from, link, ack) && n <= |log| && ack >= Volume(log[..n])
    ensures from + |link.applied| >= n
    ensures from <= n ==> log[from..n] <= link.applied
  {
    hide Volume;
    var p := from + |link.applied|;
    assert link.applied == log[from..p];
    if p < n {
      assert log[..n] == log[..from] + link.applied + log[p..n];
      VolumeSplit(log[..from] + link.applied, log[p..n]);
      VolumeSplit(log[..from], link.applied);
      VolumePositive(log[p..n]);
      assert false;
    }
    if from <= n {
      assert log[from..n] == link.applied[..n - from];
    }
  }

  /**
   A replica that has processed and acknowledged everything is counted exactly when no
   more was sent before it joined than has been sent since the first `n` frames: its
   own offset starts at 0, the master's does not start over.
   */
  lemma CaughtUpCounted(log: seq<Value>, from: nat, link: Link, ack: int, n: nat)
    requires InStep(log, from, link, ack) && n <= |log|
    requires link.inbox == [] && ack == link.offset
    ensures ack >= Volume(log[..n]) <==> Volume(log[..from]) <= Volume(log[n..])
  {
    hide Volume;
    assert link.applied == log[from..];
    assert log == log[..from] + log[from..] == log[..n] + log[n..];
    VolumeSplit(log[..from], log[from..]);
    VolumeSplit(log[..n], log[n..]);
  }

  /** So one that joined late is not counted for the latest write, though it has all of it. */
  lemma LateJoinerNotCounted(log: seq<Value>, from: nat, link: Link, ack: int)
    requires InStep(log, from, link, ack) && link.inbox == [] && ack == link.offset
    ensures ack >= Volume(log) <==> from == 0
  {
    hide Volume;
    CaughtUpCounted(log, from, link, ack, |log|);
    assert log[..|log|] == log;
    VolumePositive(log[..from]);
    VolumePositive(log[|log|..]);
  }

  /** The shortest such case: one frame before it joined, and nothing since. */
  lemma LateJoiner(v: Value)
    ensures InStep([v], 1, Link([], 0, [], []), 0) && 0 < Volume([v])
  {
    VolumePositive([v]);
    VolumePositive([]);
  }

  lemma InStepSent(log: seq<Value>, from: nat, link: Link, ack: int, frames: seq<Value>)
    requires InStep(log, from, link, ack)
    ensures InStep(log + frames, from, link.(inbox := link.inbox + frames), ack)
  {
    assert (log + frames)[from..] == log[from..] + frames;
    assert link.applied + (link.inbox + frames) == link.applied + link.inbox + frames;
  }

  lemma InStepApplied(log: seq<Value>, from: nat, link: Link, ack: int, acks: seq<int>)
    requires InStep(log, from, link, ack) && link.inbox != []
    requires acks == [] || acks == [link.offset + |Encode(link.inbox[0])|]
    ensures InStep(log, from, Link(link.inbox[1..], link.offset + |Encode(link.inbox[0])|, link.outbox + acks,
                                   link.applied + [link.inbox[0]]), ack)
  {
    var v := link.inbox[0];
    assert link.applied + [v] + link.inbox[1..] == link.applied + link.inbox;
    VolumeSplit(link.applied, [v]);
    VolumeOne(v);
  }

  lemma InStepOffset(log: seq<Value>, from: nat, link: Link, ack: int)
    requires InStep(log, from, link, ack)
    ensures link.offset == Volume(link.applied)
  {
  }

  lemma InStepAck(log: seq<Value>, from: nat, link: Link, ack: int)
    requires InStep(log, from, link, ack) && link.outbox != []
    ensures InStep(log, from, link.(outbox := link.outbox[1..]), ack)
    ensures InStep(log, from, link.(outbox := link.outbox[1..]), link.outbox[0])
  {
  }

  /** REPLCONF GETACK * */
  const GETACK :=
    Array([TextBulk([82, 69, 80, 76, 67, 79, 78, 70]), TextBulk([71, 69, 84, 65, 67, 75]), TextBulk([42])])

  // ----- acknowledgements -----

  predicate AsksForAck(v: Value) {
    Normal(v) == Normal(GETACK)
  }

  /** The offsets at which a replica that has applied these frames was asked for an acknowledgement. */
  ghost function Points(applied: seq<Value>): seq<int> {
    if applied == [] then []
    else
      var n := |applied| - 1;
      Points(applied[..n]) + if AsksForAck(applied[n]) then [Volume(applied)] else []
  }

  /** They rise, up to the offset of the replica. */
  lemma {:induction false} PointsRise(applied: seq<Value>)
    ensures forall i | 0 <= i < |Points(applied)| :: 0 < Points(applied)[i] <= Volume(applied)
    ensures forall i, j | 0 <= i < j < |Points(applied)| :: Points(applied)[i] < Points(applied)[j]
  {
    hide Volume, AsksForAck;
    if applied != [] {
      var n := |applied| - 1;
      PointsRise(applied[..n]);
      VolumeSplit(applied[..n], [applied[n]]);
      assert applied[..n] + [applied[n]] == applied;
      VolumePositive([applied[n]]);
      VolumePositive(applied);
    }
  }

  /** The last of them is where the last request for one ended. */
  lemma {:induction false} LastPoint(applied: seq<Value>, p: nat)
    requires p < |applied| && AsksForAck(applied[p]) && forall i | p < i < |applied| :: !AsksForAck(applied[i])
    ensures Points(applied) != [] && Points(applied)[|Points(applied)| - 1] == Volume(applied[..p + 1])
  {
    hide Volume, AsksForAck;
    var n := |applied| - 1;
    if p == n {
      assert applied[..p + 1] == applied;
    } else {
      LastPoint(applied[..n], p);
      assert applied[..n][..p + 1] == applied[..p + 1];
    }
  }

  ghost function Latest(heard: seq<int>): int {
    if heard == [] then 0 else heard[|heard| - 1]
  }

  /**
   What the master has heard from a replica since it registered, and what is under way, are
   the last of the acknowledgements it was asked for; `ack` is the latest heard.
   */
  ghost predicate Heard(link: Link, heard: seq<int>, ack: int) {
    var points, known := Points(link.applied), heard + link.outbox;
    |known| <= |points| && points[|points| - |known|..] == known && ack == Latest(heard)
  }

  lemma HeardNothing(link: Link, heard: seq<int>, ack: int)
    requires Heard(link, heard, ack)
    ensures Heard(link, [], 0)
  {
    hide Points;
    var points, known := Points(link.applied), heard + link.outbox;
    assert points[|points| - |link.outbox|..] == points[|points| - |known|..][|heard|..];
    assert known[|heard|..] == link.outbox;
    assert [] + link.outbox == link.outbox;
  }

  /** A link that has just been opened. */
  lemma NewLink(log: seq<Value>)
    ensures InStep(log, |log|, Link([], 0, [], []), 0) && Heard(Link([], 0, [], []), [], 0)
  {
    VolumePositive([]);
  }

  lemma InStepAgain(log: seq<Value>, from: nat, link: Link, ack: int)
    requires InStep(log, from, link, ack)
    ensures InStep(log, from, link, 0)
  {
  }

  lemma HeardSent(link: Link, heard: seq<int>, ack: int, frames: seq<Value>)
    requires Heard(link, heard, ack)
    ensures Heard(link.(inbox := link.inbox + frames), heard, ack)
  {
  }

  lemma HeardApplied(link: Link, heard: seq<int>, ack: int, v: Value, next: Link)
    requires Heard(link, heard, ack) && link.offset == Volume(link.applied)
    requires next.applied == link.applied + [v]
    requires next.outbox == link.outbox + if AsksForAck(v) then [link.offset + |Encode(v)|] else []
    ensures Heard(next, heard, ack)
  {
    hide Volume, AsksForAck, Encode;
    VolumeSplit(link.applied, [v]);
    VolumeOne(v);
    assert next.applied[..|link.applied|] == link.applied;
    var points, known := Points(link.applied), heard + link.outbox;
    var tail := if AsksForAck(v) then [Volume(next.applied)] else [];
    assert heard + next.outbox == known + tail;
    assert (points + tail)[|points| - |known|..] == points[|points| - |known|..] + tail;
  }

  /** The next acknowledgement is greater than any heard before. */
  lemma HeardMore(link: Link, heard: seq<int>, ack: int)
    requires Heard(link, heard, ack) && link.outbox != []
    ensures link.outbox[0] > ack
    ensures Heard(link.(outbox := link.outbox[1..]), heard + [link.outbox[0]], link.outbox[0])
  {
    hide Points, Volume;
    PointsRise(link.applied);
    NextPoint(Points(link.applied), heard, link.outbox, ack);
  }

  /** In a rising sequence of which the last are `heard` and `next`, the next one is above those heard. */
  lemma NextPoint(points: seq<int>, heard: seq<int>, next: seq<int>, ack: int)
    requires next != [] && |heard + next| <= |points| && points[|points| - |heard + next|..] == heard + next
    requires ack == Latest(heard)
    requires forall i | 0 <= i < |points| :: 0 < points[i]
    requires forall i, j | 0 <= i < j < |points| :: points[i] < points[j]
    ensures next[0] > ack && (heard + [next[0]]) + next[1..] == heard + next
  {
    var known := heard + next;
    var from := |points| - |known|;
    assert (heard + [next[0]]) + next[1..] == known;
    SuffixAt(points, from, known, |heard|);
    if heard != [] {
      SuffixAt(points, from, known, |heard| - 1);
      var i, j := from + |heard| - 1, from + |heard|;
      assert points[i] < points[j];
    }
  }

  lemma SuffixAt(points: seq<int>, from: nat, known: seq<int>, i: nat)
    requires from <= |points| && points[from..] == known && i < |known|
    ensures points[from + i] == known[i]
  {
    assert points[from..][i] == points[from + i];
  }

  /**
   A replica with nothing under way is acknowledged up to the end of the last request for
   an acknowledgement, if it has answered one since it registered.
   */
  lemma HeardAll(log: seq<Value>, from: nat, link: Link, heard: seq<int>, ack: int, p: nat)
    requires InStep(log, from, link, ack) && Heard(link, heard, ack)
    requires link.inbox == [] && link.outbox == [] && heard != []
    requires from <= p < |log| && AsksForAck(log[p]) && forall i | p < i < |log| :: !AsksForAck(log[i])
    ensures ack == Volume(log[from..p + 1])
  {
    hide Volume, AsksForAck;
    assert link.applied == log[from..];
    LastPoint(link.applied, p - from);
    assert link.applied[..p - from + 1] == log[from..p + 1];
    assert heard + [] == heard;
  }

  /** One that joined at the start is then counted for every write up to that request. */
  lemma HeardIsCounted(log: seq<Value>, link: Link, heard: seq<int>, ack: int, p: nat, n: nat)
    requires InStep(log, 0, link, ack) && Heard(link, heard, ack)
    requires link.inbox == [] && link.outbox == [] && heard != []
    requires p < |log| && AsksForAck(log[p]) && forall i | p < i < |log| :: !AsksForAck(log[i])
    requires n <= p + 1
    ensures ack >= Volume(log[..n])
  {
    hide Volume, AsksForAck;
    HeardAll(log, 0, link, heard, ack, p);
    assert log[0..p + 1] == log[..n] + log[n..p + 1];
    VolumeSplit(log[..n], log[n..p + 1]);
  }

  /** The links with `frames` on their way to the replicas in `ids`. */
  ghost function Delivered(links: map<Id, Link>, ids: set<Id>, frames: seq<Value>): map<Id, Link> {
    map id | id in links :: if id in ids then links[id].(inbox := links[id].inbox + frames) else links[id]
  }

  lemma DeliveredNone(links: map<Id, Link>, ids: set<Id>)
    ensures Delivered(links, ids, []) == links
  {
    forall id | id in links ensures Delivered(links, ids, [])[id] == links[id] {
      assert links[id].inbox + [] == links[id].inbox;
    }
  }

  lemma DeliveredKeys(links: map<Id, Link>, ids: set<Id>, frames: seq<Value>)
    ensures Delivered(links, ids, frames).Keys == links.Keys
  {
  }

  lemma DeliveredToNone(links: map<Id, Link>, frames: seq<Value>)
    ensures Delivered(links, {}, frames) == links
  {
  }

  lemma DeliveredToOne(links: map<Id, Link>, ids: set<Id>, frames: seq<Value>, id: Id)
    requires id in links && id !in ids
    ensures id in Delivered(links, ids, frames)
    ensures
      var now := Delivered(links, ids, frames);
      now[id := now[id].(inbox := now[id].inbox + frames)] == Delivered(links, ids + {id}, frames)
  {
  }

  /** The replicas of a propagation: sent to, dropped, and still to come. */
  ghost predicate Shared(ids: set<Id>, failing: set<Id>, sent: set<Id>, dropped: set<Id>, rest: set<Id>) {
    && sent !! failing && sent !! rest && dropped <= failing && dropped !! rest
    && sent + dropped + rest == ids
  }

  lemma SharedStart(ids: set<Id>, failing: set<Id>)
    ensures Shared(ids, failing, {}, {}, ids)
  {
  }

  lemma SharedStep(ids: set<Id>, failing: set<Id>, sent: set<Id>, dropped: set<Id>, rest: set<Id>, id: Id)
    requires Shared(ids, failing, sent, dropped, rest) && id in rest
    ensures id !in sent
    ensures if id in failing then Shared(ids, failing, sent, dropped + {id}, rest - {id})
            else Shared(ids, failing, sent + {id}, dropped, rest - {id})
  {
    assert rest == {id} + (rest - {id});
  }

  lemma SharedDone(acks: map<Id, int>, failing: set<Id>, sent: set<Id>, dropped: set<Id>)
    requires Shared(acks.Keys, failing, sent, dropped, {})
    ensures sent == acks.Keys - failing && acks - dropped == acks - failing
  {
  }

  lemma DropOne(acks: map<Id, int>, dropped: set<Id>, id: Id)
    ensures acks - dropped - {id} == acks - (dropped + {id})
  {
  }

  /** Every registered replica is in step, and has been heard. */
  ghost predicate Linked(log: seq<Value>, joined: map<Id, nat>, links: map<Id, Link>, heard: map<Id, seq<int>>,
                         acks: map<Id, int>) {
    && acks.Keys <= links.Keys && acks.Keys == joined.Keys == heard.Keys
    && (forall id | id in acks :: InStep(log, joined[id], links[id], acks[id]) && Heard(links[id], heard[id], acks[id]))
  }

  lemma LinkedAt(log: seq<Value>, joined: map<Id, nat>, links: map<Id, Link>, heard: map<Id, seq<int>>,
                 acks: map<Id, int>, id: Id)
    requires Linked(log, joined, links, heard, acks) && id in acks
    ensures id in joined && id in links && id in heard
    ensures InStep(log, joined[id], links[id], acks[id]) && Heard(links[id], heard[id], acks[id])
  {
  }

  /** One replica's entries replaced by others that are in step. */
  lemma LinkedOne(log: seq<Value>, joined: map<Id, nat>, links: map<Id, Link>, heard: map<Id, seq<int>>,
                  acks: map<Id, int>, id: Id, from: nat, link: Link, known: seq<int>, ack: int)
    requires Linked(log, joined, links, heard, acks) && InStep(log, from, link, ack) && Heard(link, known, ack)
    ensures Linked(log, joined[id := from], links[id := link], heard[id := known], acks[id := ack])
  {
    hide InStep, Heard;
  }

  lemma LinkedLess(log: seq<Value>, joined: map<Id, nat>, links: map<Id, Link>, heard: map<Id, seq<int>>,
                   acks: map<Id, int>, ids: set<Id>)
    requires Linked(log, joined, links, heard, acks)
    ensures Linked(log, joined - ids, links, heard - ids, acks - ids)
  {
    hide InStep, Heard;
  }

  /** What happens to the link of a replica that is not registered does not matter. */
  lemma LinkedElsewhere(log: seq<Value>, joined: map<Id, nat>, links: map<Id, Link>, heard: map<Id, seq<int>>,
                        acks: map<Id, int>, id: Id, link: Link)
    requires Linked(log, joined, links, heard, acks) && id !in acks
    ensures Linked(log, joined, links[id := link], heard, acks)
  {
    hide InStep, Heard;
  }

  lemma LinkedSent(log: seq<Value>, joined: map<Id, nat>, links: map<Id, Link>, heard: map<Id, seq<int>>,
                   acks: map<Id, int>, frames: seq<Value>)
    requires Linked(log, joined, links, heard, acks)
    ensures Linked(log + frames, joined, Delivered(links, acks.Keys, frames), heard, acks)
  {
    hide InStep, Heard;
    forall id | id in acks
      ensures InStep(log + frames, joined[id], Delivered(links, acks.Keys, frames)[id], acks[id])
      ensures Heard(Delivered(links, acks.Keys, frames)[id], heard[id], acks[id])
    {
      InStepSent(log, joined[id], links[id], acks[id], frames);
      HeardSent(links[id], heard[id], acks[id], frames);
    }
  }

  /** A master, its registered replicas and the links to them. */
  class Replication {
    var masterOffset: int
    /** What each registered replica has acknowledged. */
    var acks: map<Id, int>
    var links: map<Id, Link>
    /** Everything propagated so far, and how much of it there was when each replica registered. */
    ghost var log: seq<Value>
    ghost var joined: map<Id, nat>
    /** The acknowledgements read of each replica since it registered. */
    ghost var heard: map<Id, seq<int>>

    ghost predicate Valid()
      reads this
    {
      && masterOffset == Volume(log)
      && acks.Keys <= links.Keys && acks.Keys == joined.Keys == heard.Keys
      && Linked(log, joined, links, heard, acks)
    }

    constructor ()
      ensures Valid() && log == [] && acks == map[]
    {
      masterOffset, acks, links, log, joined, heard := 0, map[], map[], [], map[], map[];
    }

    /**
     `Add`, once the full resynchronisation is sent: the replica's own offset starts at 0.
     A connection that asks again while it is registered stays on the link it has; one
     that was dropped is closed, and comes back on a new link.
     */
    method Register(id: Id)
      requires Valid()
      modifies this
      ensures Valid() && log == old(log) && masterOffset == old(masterOffset)
      ensures acks == old(acks)[id := 0] && heard == old(heard)[id := []]
      ensures id in old(acks) ==> joined == old(joined) && links == old(links)
      ensures id !in old(acks) ==>
                joined == old(joined)[id := |log|] && links == old(links)[id := Link([], 0, [], [])]
    {
      hide Volume, InStep, Heard, Linked;
      if id in acks {
        LinkedAt(log, joined, links, heard, acks, id);
        HeardNothing(links[id], heard[id], acks[id]);
        InStepAgain(log, joined[id], links[id], acks[id]);
        LinkedOne(log, joined, links, heard, acks, id, joined[id], links[id], [], 0);
        assert joined[id := joined[id]] == joined && links[id := links[id]] == links;
      } else {
        NewLink(log);
        LinkedOne(log, joined, links, heard, acks, id, |log|, Link([], 0, [], []), [], 0);
        links, joined := links[id := Link([], 0, [], [])], joined[id := |log|];
      }
      acks, heard := acks[id := 0], heard[id := []];
    }

    /** `Remove` */
    method Remove(id: Id)
      requires Valid()
      modifies `acks, `joined, `heard
      ensures Valid() && acks == old(acks) - {id} && joined == old(joined) - {id} && heard == old(heard) - {id}
    {
      hide Volume, Linked;
      LinkedLess(log, joined, links, heard, acks, {id});
      acks, joined, heard := acks - {id}, joined - {id}, heard - {id};
    }

    /** `UpdateAck` */
    method UpdateAck(id: Id, offset: int) returns (ok: bool)
      modifies `acks
      ensures ok == (id in old(acks))
      ensures acks == if ok && offset > old(acks)[id] then old(acks)[id := offset] else old(acks)
    {
      if id !in acks {
        return false;
      }
      if offset > acks[id] {
        acks := acks[id := offset];
      }
      return true;
    }

    /**
     `propagateToReplicas` and `requestReplicaAcknowledgements`: the offset advances and
     every registered replica gets the frames, except that one whose socket fails is
     dropped.
     */
    method Propagate(frames: seq<Value>, failing: set<Id>) returns (endOffset: int)
      requires Valid()
      modifies this
      ensures Valid() && log == old(log) + frames
      ensures masterOffset == old(masterOffset) + Volume(frames)
      ensures endOffset == if frames == [] then 0 else masterOffset
      ensures acks == old(acks) - (if frames == [] then {} else failing)
      ensures joined == old(joined) - (if frames == [] then {} else failing)
      ensures heard == old(heard) - (if frames == [] then {} else failing)
      ensures links == Delivered(old(links), acks.Keys, frames)
    {
      hide Volume, Linked, Delivered;
      VolumeSplit(log, frames);
      VolumePositive(frames);
      if frames == [] {
        assert log + frames == log;
        assert acks - {} == acks && joined - {} == joined && heard - {} == heard;
        DeliveredNone(links, acks.Keys);
        return 0;
      }
      var payload := AppendValues([], frames);
      VolumeOf(frames, payload);
      masterOffset := masterOffset + |payload|;
      endOffset := masterOffset;
      LinkedLess(log, joined, links, heard, acks, failing);
      LinkedSent(log, joined - failing, links, heard - failing, acks - failing, frames);
      DeliveredKeys(links, acks.Keys - failing, frames);
      SendAll(frames, failing);
      assert acks.Keys == old(acks).Keys - failing;
      log, joined, heard := log + frames, joined - failing, heard - failing;
    }

    /** `writePropagationPayloadSequential` */
    method SendAll(frames: seq<Value>, failing: set<Id>)
      requires acks.Keys <= links.Keys
      modifies `acks, `links
      ensures acks == old(acks) - failing
      ensures links == Delivered(old(links), old(acks).Keys - failing, frames)
    {
      hide Delivered, Shared;
      SharedStart(acks.Keys, failing);
      assert acks - {} == acks;
      var rest := acks.Keys;
      ghost var sent: set<Id>, dropped: set<Id> := {}, {};
      DeliveredToNone(links, frames);
      while rest != {}
        invariant rest <= old(links).Keys
        invariant Shared(old(acks).Keys, failing, sent, dropped, rest)
        invariant acks == old(acks) - dropped
        invariant links == Delivered(old(links), sent, frames)
        decreases |rest|
      {
        var id :| id in rest;
        SharedStep(old(acks).Keys, failing, sent, dropped, rest, id);
        if id in failing {
          DropOne(old(acks), dropped, id);
          acks := acks - {id};
          dropped := dropped + {id};
        } else {
          DeliveredToOne(old(links), sent, frames, id);
          links := links[id := links[id].(inbox := links[id].inbox + frames)];
          sent := sent + {id};
        }
        rest := rest - {id};
      }
      SharedDone(old(acks), failing, sent, dropped);
    }

    /** One turn of the replica's receive loop. */
    method Receive(id: Id) returns (ok: bool)
      requires Valid() && id in links
      modifies `links
      ensures Valid() && ok == (old(links)[id].inbox != [])
      ensures !ok ==> links == old(links)
      ensures ok ==>
                var was := old(links)[id];
                var v := was.inbox[0];
                var offset := was.offset + |Encode(v)|;
                links == old(links)[id := Link(was.inbox[1..], offset,
                                               was.outbox + (if AsksForAck(v) then [offset] else []),
                                               was.applied + [v])]
    {
      hide Volume, InStep, Encode, Heard, Linked;
      var link := links[id];
      if link.inbox == [] {
        return false;
      }
      var value := Normal(link.inbox[0]);
      NormalLength(link.inbox[0]);
      var length := EncodedLen(value);
      var offset := link.offset + length;
      var reply: seq<int> := if value == Normal(GETACK) then [offset] else [];
      var next := Link(link.inbox[1..], offset, link.outbox + reply, link.applied + [link.inbox[0]]);
      if id in acks {
        LinkedAt(log, joined, links, heard, acks, id);
        InStepApplied(log, joined[id], link, acks[id], reply);
        InStepOffset(log, joined[id], link, acks[id]);
        HeardApplied(link, heard[id], acks[id], link.inbox[0], next);
        LinkedOne(log, joined, links, heard, acks, id, joined[id], next, heard[id], acks[id]);
        assert joined[id := joined[id]] == joined && heard[id := heard[id]] == heard && acks[id := acks[id]] == acks;
      } else {
        LinkedElsewhere(log, joined, links, heard, acks, id, next);
      }
      links := links[id := next];
      return true;
    }

    /**
     The master reads one acknowledgement (REPLCONF ACK); one of a replica that is no longer
     registered is dropped.
     */
    method ReadAck(id: Id) returns (ok: bool)
      requires Valid() && id in links
      modifies `links, `acks, `heard
      ensures Valid() && ok == (old(links)[id].outbox != [])
      ensures !ok ==> links == old(links) && acks == old(acks) && heard == old(heard)
      ensures ok ==> links == old(links)[id := old(links)[id].(outbox := old(links)[id].outbox[1..])]
      ensures ok && id in old(acks) ==>
                var a := old(links)[id].outbox[0];
                && acks == old(acks)[id := if a > old(acks)[id] then a else old(acks)[id]]
                && heard == old(heard)[id := old(heard)[id] + [a]] && a > old(acks)[id]
      ensures ok && id !in old(acks) ==> acks == old(acks) && heard == old(heard)
    {
      hide Volume, InStep, Heard, Linked;
      var link := links[id];
      if link.outbox == [] {
        return false;
      }
      var next, a := link.(outbox := link.outbox[1..]), link.outbox[0];
      if id in acks {
        LinkedAt(log, joined, links, heard, acks, id);
        InStepAck(log, joined[id], link, acks[id]);
        HeardMore(link, heard[id], acks[id]);
        LinkedOne(log, joined, links, heard, acks, id, joined[id], next, heard[id] + [a], a);
        assert joined[id := joined[id]] == joined;
        heard := heard[id := heard[id] + [a]];
      } else {
        LinkedElsewhere(log, joined, links, heard, acks, id, next);
      }
      links := links[id := next];
      var known := UpdateAck(id, a);
      return true;
    }

    /** `countReplicasAtOrAboveLocked` */
    method CountAtOrAbove(target: int) returns (count: nat)
      ensures count == |set id | id in acks && acks[id] >= target|
    {
      count := 0;
      var rest := acks.Keys;
      ghost var found: set<Id> := {};
      while rest != {}
        invariant rest <= acks.Keys && found !! rest && count == |found|
        invariant found == set id | id in acks && id !in rest && acks[id] >= target
        decreases |rest|
      {
        var id :| id in rest;
        if acks[id] >= target {
          count := count + 1;
          found := found + {id};
        }
        rest := rest - {id};
      }
      assert found == set id | id in acks && acks[id] >= target;
    }

    /**
     What WAIT answers for a client whose last write ended at `target`, `n` frames into
     the log: every replica it counts has applied all it was sent of these.
     */
    method Wait(target: int, ghost n: nat) returns (count: nat)
      requires Valid() && n <= |log| && target == Volume(log[..n])
      ensures count == |Reached(target)|
      ensures forall id | id in Reached(target) && joined[id] <= n :: log[joined[id]..n] <= links[id].applied
    {
      hide Volume, InStep, Heard, Linked;
      count := CountAtOrAbove(target);
      forall id | id in Reached(target) && joined[id] <= n ensures log[joined[id]..n] <= links[id].applied {
        LinkedAt(log, joined, links, heard, acks, id);
        CountedHasApplied(log, joined[id], links[id], acks[id], n);
      }
    }

    /**
     Once nothing is under way to or from a replica that joined at the start and has answered a
     request for an acknowledgement since, WAIT counts it for every write up to the last request, `p`
     frames into the log.
     */
    lemma AnsweredIsCounted(id: Id, p: nat, n: nat)
      requires Valid() && id in acks && joined[id] == 0
      requires links[id].inbox == [] && links[id].outbox == [] && heard[id] != []
      requires p < |log| && AsksForAck(log[p]) && forall i | p < i < |log| :: !AsksForAck(log[i])
      requires n <= p + 1
      ensures id in Reached(Volume(log[..n]))
    {
      hide Volume, InStep, Heard, AsksForAck, Linked;
      LinkedAt(log, joined, links, heard, acks, id);
      HeardIsCounted(log, links[id], heard[id], acks[id], p, n);
    }

    /** The replicas that have acknowledged `target`. */
    ghost function Reached(target: int): (ids: set<Id>)
      reads this
      ensures Valid() ==> ids <= joined.Keys && ids <= links.Keys
    {
      set id | id in acks && acks[id] >= target
    }
  }

  datatype Step =
    | Join(id: Id)
    | Drop(id: Id)
    | Send(frames: seq<Value>, failing: set<Id>)
    | Apply(id: Id)
    | Acknowledge(id: Id)

  /** Over any run of steps no replica's acknowledged offset passes what it has processed, or that what it was sent. */
  method Run(r: Replication, steps: seq<Step>)
    requires r.Valid()
    modifies r
    ensures r.Valid()
    ensures forall id | id in r.acks ::
              0 <= r.acks[id] <= r.links[id].offset <= r.masterOffset - Volume(r.log[..r.joined[id]])
  {
    hide Volume, InStep, Heard, Linked;
    for i := 0 to |steps|
      invariant r.Valid()
    {
      match steps[i] {
        case Join(id) =>
          r.Register(id);
        case Drop(id) =>
          r.Remove(id);
        case Send(frames, failing) =>
          var end := r.Propagate(frames, failing);
        case Apply(id) =>
          if id in r.links {
            var ok := r.Receive(id);
          }
        case Acknowledge(id) =>
          if id in r.links {
            var ok := r.ReadAck(id);
          }
      }
    }
    JoinedInLog(r);
    forall id | id in r.acks
      ensures 0 <= r.acks[id] <= r.links[id].offset <= r.masterOffset - Volume(r.log[..r.joined[id]])
    {
      LinkedAt(r.log, r.joined, r.links, r.heard, r.acks, id);
      InStepBounds(r.log, r.joined[id], r.links[id], r.acks[id]);
    }
  }

  /** A write followed by a request for acknowledgements, read and answered by the one replica: WAIT counts it. */
  method OneReplicaCounted(v: Value, id: Id) returns (count: nat)
    requires !AsksForAck(v)
    ensures count == 1
  {
    hide Volume, Linked, Encode, AsksForAck, Replication.Valid;
    RequestAsks();
    var r := AskOne(v, id);
    var ok := r.Receive(id);
    assert r.links[id].inbox == [GETACK] && r.links[id].outbox == [];
    ok := r.Receive(id);
    assert r.links[id].inbox == [] && |r.links[id].outbox| == 1;
    ok := r.ReadAck(id);
    assert r.log[..1] == [v];
    r.AnsweredIsCounted(id, 1, 1);
    count := r.Wait(Volume([v]), 1);
    assert r.acks.Keys == {id};
    assert r.Reached(Volume([v])) == {id};
  }

  /** A master that has sent its one replica a write and a request for acknowledgements. */
  method AskOne(v: Value, id: Id) returns (r: Replication)
    ensures fresh(r) && r.Valid() && r.acks == map[id := 0] && r.log == [v, GETACK]
    ensures id in r.joined && r.joined[id] == 0 && id in r.heard && r.heard[id] == []
    ensures id in r.links && r.links[id] == Link([v, GETACK], 0, [], [])
  {
    hide Volume, Linked, Encode, Delivered;
    r := new Replication();
    r.Register(id);
    DeliveredTo(r.links, id, [v, GETACK]);
    var end := r.Propagate([v, GETACK], {});
    assert r.acks.Keys == {id};
    assert [] + [v, GETACK] == [v, GETACK];
  }

  lemma DeliveredTo(links: map<Id, Link>, id: Id, frames: seq<Value>)
    requires id in links
    ensures
      var now := Delivered(links, {id}, frames);
      id in now && now[id] == links[id].(inbox := links[id].inbox + frames)
  {
  }

  lemma RequestAsks()
    ensures AsksForAck(GETACK)
  {
  }

  lemma JoinedInLog(r: Replication)
    requires r.Valid()
    ensures forall id | id in r.acks :: r.joined[id] <= |r.log|
  {
  }
}
