/** The events of a byte stream (internal/server/conn_machine.go) by the grammar. */
module StreamGrammar {
  import opened Order
  import opened Resp
  import opened Decoder
  import opened Feeding
  import opened Grammar

  ghost function Asked(vs: seq<Value>): seq<Event> {
    seq(|vs|, i requires 0 <= i < |vs| => Request(vs[i]))
  }

  lemma WireEmpty(b: Bytes)
    requires WireAll([], b, 0, MEMORY)
    ensures b == []
  {
  }

  lemma WireLast(vs: seq<Value>, b: Bytes) returns (k: nat)
    requires vs != [] && WireAll(vs, b, 0, MEMORY)
    ensures k <= |b| && WireAll(vs[..|vs| - 1], b[..k], 0, MEMORY) && Wire(vs[|vs| - 1], b[k..], 0, MEMORY)
  {
    hide Wire;
    k :| 0 <= k <= |b| && WireAll(vs[..|vs| - 1], b[..k], 0, MEMORY) && Wire(vs[|vs| - 1], b[k..], 0, MEMORY);
  }

  /** Values on the wire are requests in order, whatever comes behind them. */
  lemma {:induction false} StreamGoesOn(vs: seq<Value>, b: Bytes, rest: Bytes)
    requires WireAll(vs, b, 0, MEMORY)
    ensures Parse(b + rest) == Parse(rest).After(Asked(vs))
    decreases |vs|
  {
    hide Decode, Wire, WireAll;
    if vs == [] {
      WireEmpty(b);
      assert b + rest == rest;
      assert Asked(vs) + Parse(rest).events == Parse(rest).events;
    } else {
      var n := |vs| - 1;
      var k := WireLast(vs, b);
      StreamGoesOn(vs[..n], b[..k], b[k..] + rest);
      assert b + rest == b[..k] + (b[k..] + rest);
      WireDecodes(vs[n], b[k..], rest, 0);
      var stream := b[k..] + rest;
      assert stream[|b[k..]|..] == rest;
      assert Asked(vs) == Asked(vs[..n]) + [Request(vs[n])];
      assert Asked(vs[..n]) + ([Request(vs[n])] + Parse(rest).events) == Asked(vs) + Parse(rest).events;
    }
  }

  /**
   What a stream comes to: a request for each value on the wire, and then either a
   beginning to wait with or one protocol error.
   */
  lemma StreamExactly(vs: seq<Value>, b: Bytes, rest: Bytes)
    requires WireAll(vs, b, 0, MEMORY)
    ensures
      var r := Parse(b + rest);
      && (forall need: nat :: Pending(rest, 0, need) ==> r == Reading(Asked(vs), rest, need, false))
      && (Grammar.Malformed(rest, 0) ==>
          r.dead && |r.events| == |vs| + 1 && r.events[..|vs|] == Asked(vs) && r.events[|vs|].ProtocolError?)
  {
    hide Decode, Wire, WireAll, Pending, Grammar.Malformed;
    StreamGoesOn(vs, b, rest);
    forall need: nat {
      WaitExactly(rest, 0, need);
    }
    RefusalExactly(rest, 0);
    assert Asked(vs) + [] == Asked(vs);
  }

  ghost predicate Waiting(b: Bytes) {
    exists need: nat :: Pending(b, 0, need)
  }

  lemma NoValue(b: Bytes)
    requires !Decode(b, 0).Frame?
    ensures Grammar.Malformed(b, 0) || Waiting(b)
  {
    hide Decode, Wire, Pending, Grammar.Malformed;
    RefusalExactly(b, 0);
    match Decode(b, 0) {
      case Incomplete(need) => WaitExactly(b, 0, need);
      case _ =>
    }
  }

  /** Every stream is made up so. */
  lemma StreamParts(stream: Bytes) returns (vs: seq<Value>, k: nat)
    ensures k <= |stream| && WireAll(vs, stream[..k], 0, MEMORY)
    ensures Grammar.Malformed(stream[k..], 0) || Waiting(stream[k..])
  {
    hide Decode, Wire, WireAll, Grammar.Malformed, Waiting;
    vs, k := [], 0;
    WireNone(0, MEMORY);
    while Decode(stream[k..], 0).Frame?
      invariant k <= |stream| && WireAll(vs, stream[..k], 0, MEMORY)
      decreases |stream| - k
    {
      var Frame(v, n) := Decode(stream[k..], 0);
      FrameExactly(stream[k..], 0, v, n);
      WireMore(vs, stream[..k], v, stream[k..][..n], 0, MEMORY);
      assert stream[..k] + stream[k..][..n] == stream[..k + n];
      vs, k := vs + [v], k + n;
    }
    NoValue(stream[k..]);
  }
}
